/**
 * The five-byte frame: bits packed MSB-first into Java bytes as lines 213-217 of
 * Dhtxx.java do it, and the checksum test of line 229.
 */
module Frames {
  import opened JavaBytes

  function Pow2(n: nat): (p: nat)
    ensures p >= 1
  {
    if n == 0 then 1 else 2 * Pow2(n - 1)
  }

  function Min(a: int, b: int): int
  {
    if a < b then a else b
  }

  /** The number whose binary digits, most significant first, are `bits`. */
  function Value(bits: seq<bool>): (v: nat)
    ensures v < Pow2(|bits|)
  {
    if bits == [] then 0
    else 2 * Value(bits[..|bits| - 1]) + (if bits[|bits| - 1] then 1 else 0)
  }

  /** The low `n` binary digits of `v`, most significant first. */
  function BitsOf(v: nat, n: nat): (bits: seq<bool>)
    ensures |bits| == n
  {
    if n == 0 then [] else BitsOf(v / 2, n - 1) + [v % 2 == 1]
  }

  /** Writing a number in `n` binary digits and reading them back gives the number. */
  lemma {:induction false} ValueOfBitsOf(v: nat, n: nat)
    requires v < Pow2(n)
    ensures Value(BitsOf(v, n)) == v
  {
    if n > 0 {
      var bits := BitsOf(v, n);
      assert bits[..n - 1] == BitsOf(v / 2, n - 1);
      ValueOfBitsOf(v / 2, n - 1);
    }
  }

  /** Reading a digit string as a number and writing it back in as many digits gives the string. */
  lemma {:induction false} BitsOfValue(bits: seq<bool>)
    ensures BitsOf(Value(bits), |bits|) == bits
  {
    if bits != [] {
      var init := bits[..|bits| - 1];
      BitsOfValue(init);
      assert bits == init + [bits[|bits| - 1]];
    }
  }

  /** The bits of a frame given as five unsigned bytes, byte 0 first, each most significant bit first. */
  function FrameBits(u: seq<nat>): (bits: seq<bool>)
    ensures |bits| == 8 * |u|
  {
    if u == [] then [] else BitsOf(u[0], 8) + FrameBits(u[1..])
  }

  /** Bits 8k..8k+7 of a frame's bits are the digits of its byte k. */
  lemma {:induction false} FrameBitsSlice(u: seq<nat>, k: nat)
    requires k < |u|
    ensures FrameBits(u)[8 * k .. 8 * k + 8] == BitsOf(u[k], 8)
  {
    if k > 0 {
      FrameBitsSlice(u[1..], k - 1);
      assert FrameBits(u)[8 * k .. 8 * k + 8] == FrameBits(u[1..])[8 * (k - 1) .. 8 * (k - 1) + 8];
    }
  }

  /** The Java bytes of a frame given as unsigned bytes. */
  function SignedFrame(u: seq<nat>): (d: seq<JByte>)
    ensures |d| == |u|
  {
    seq(|u|, k requires 0 <= k < |u| => ToByte(u[k]))
  }

  /**
   * `mData` after the first |bits| bits have been shifted in from a zeroed array: bit i
   * goes into byte i / 8, most significant first; bytes not reached yet stay 0.
   */
  function Pack(bits: seq<bool>): (data: seq<JByte>)
    requires |bits| <= 40
    ensures |data| == 5
  {
    seq(5, k requires 0 <= k < 5 => ToByte(Value(bits[Min(8 * k, |bits|) .. Min(8 * k + 8, |bits|)])))
  }

  /**
   * One step of the packing loop on byte `b`: `b <<= 1`, then `b |= 1` for a one bit, each
   * narrowed back to a byte. The bit is appended to the byte's low 8 bits.
   */
  function ShiftIn(b: JByte, bit: bool): (r: JByte)
    ensures r % 256 == (2 * b + (if bit then 1 else 0)) % 256
  {
    var shifted := ToByte(2 * b);
    var m := (shifted - 2 * b) / 256;
    assert shifted == 2 * b + 256 * m by {
      assert (shifted - 2 * b) % 256 == 0;
    }
    if bit then
      var lowSet := OrLowBit(shifted);
      assert lowSet == shifted + 1;
      ModShift(2 * b + 1, m);
      ToByte(lowSet)
    else shifted
  }

  /** A zeroed array is the packing of no bits. */
  lemma PackEmpty()
    ensures Pack([]) == [0, 0, 0, 0, 0]
  {
    assert Value([]) == 0;
  }

  /** Shifting bit |bits| in leaves every byte other than byte |bits| / 8 as it was. */
  lemma PackStepElsewhere(bits: seq<bool>, bit: bool, k: nat)
    requires |bits| < 40 && k < 5 && k != |bits| / 8
    ensures Pack(bits + [bit])[k] == Pack(bits)[k]
  {
    var n := |bits|;
    var longer := bits + [bit];
    if k < n / 8 {
      assert 8 * k + 8 <= n;
      assert longer[8 * k .. 8 * k + 8] == bits[8 * k .. 8 * k + 8];
    } else {
      assert 8 * k >= n + 1;
      assert longer[Min(8 * k, n + 1) .. Min(8 * k + 8, n + 1)] == [];
      assert bits[Min(8 * k, n) .. Min(8 * k + 8, n)] == [];
    }
  }

  /** Shifting a bit into the narrowed low bits of `v` narrows `v` with the bit appended. */
  lemma ShiftInValue(v: nat, bit: bool)
    ensures ShiftIn(ToByte(v), bit) == ToByte(2 * v + (if bit then 1 else 0))
  {
    var before: int := ToByte(v);
    var b := if bit then 1 else 0;
    var m := v / 256 - before / 256;
    assert v == before + 256 * m;
    ModShift(2 * before + b, 2 * m);
    ToByteUnique(2 * v + b, ShiftIn(before, bit));
  }

  /** Adding a multiple of 256 does not change the low 8 bits. */
  lemma ModShift(x: int, m: int)
    ensures (x + 256 * m) % 256 == x % 256
  {
    var r, d := x % 256, x / 256;
    assert x + 256 * m == 256 * (d + m) + r;
  }

  /** Appending a bit doubles the value and adds the bit. */
  lemma ValueAppend(s: seq<bool>, bit: bool)
    ensures Value(s + [bit]) == 2 * Value(s) + (if bit then 1 else 0)
  {
    assert (s + [bit])[..|s|] == s;
  }

  /** Shifting bit |bits| in appends it to the low bits of byte |bits| / 8. */
  lemma PackStepHere(bits: seq<bool>, bit: bool)
    requires |bits| < 40
    ensures Pack(bits + [bit])[|bits| / 8] == ShiftIn(Pack(bits)[|bits| / 8], bit)
  {
    var n := |bits|;
    var k := n / 8;
    var s := bits[8 * k .. n];
    assert Pack(bits)[k] == ToByte(Value(s));
    assert (bits + [bit])[8 * k .. n + 1] == s + [bit];
    assert Pack(bits + [bit])[k] == ToByte(Value(s + [bit]));
    ValueAppend(s, bit);
    ShiftInValue(Value(s), bit);
  }

  /** The packing loop's step: shifting bit |bits| into byte |bits| / 8 gives the packing of one more bit. */
  lemma PackStep(bits: seq<bool>, bit: bool)
    requires |bits| < 40
    ensures Pack(bits + [bit]) == Pack(bits)[|bits| / 8 := ShiftIn(Pack(bits)[|bits| / 8], bit)]
  {
    var k0 := |bits| / 8;
    PackStepHere(bits, bit);
    forall k | 0 <= k < 5 && k != k0
      ensures Pack(bits + [bit])[k] == Pack(bits)[k]
    {
      PackStepElsewhere(bits, bit, k);
    }
  }

  /** Bit i of a packed frame, read back MSB-first from byte i / 8. */
  function FrameBit(data: seq<JByte>, i: nat): bool
    requires |data| == 5 && i < 40
  {
    BitsOf(Unsigned(data[i / 8]), 8)[i % 8]
  }

  /** Byte k of a packing holds bits 8k..8k+7 of a full frame, and they read back MSB-first. */
  lemma PackedByte(bits: seq<bool>, k: nat)
    requires |bits| == 40 && k < 5
    ensures BitsOf(Unsigned(Pack(bits)[k]), 8) == bits[8 * k .. 8 * k + 8]
  {
    var s := bits[8 * k .. 8 * k + 8];
    assert Pack(bits)[k] == ToByte(Value(s));
    assert Value(s) < 256 by {
      assert Pow2(8) == 256;
    }
    UnsignedOfToByte(Value(s));
    BitsOfValue(s);
  }

  /** With all 40 bits shifted in, reading bit i back from the frame gives bit i. */
  lemma PackedBits(bits: seq<bool>)
    requires |bits| == 40
    ensures forall i :: 0 <= i < 40 ==> FrameBit(Pack(bits), i) == bits[i]
  {
    forall i | 0 <= i < 40
      ensures FrameBit(Pack(bits), i) == bits[i]
    {
      var k, r := i / 8, i % 8;
      assert i == 8 * k + r && r < 8;
      PackedByte(bits, k);
      assert bits[8 * k .. 8 * k + 8][r] == bits[i];
    }
  }

  /** Packing the bits of five unsigned bytes gives those bytes as Java bytes. */
  lemma PackFrameBits(u: seq<nat>)
    requires |u| == 5 && forall k :: 0 <= k < 5 ==> u[k] < 256
    ensures Pack(FrameBits(u)) == SignedFrame(u)
  {
    assert Pow2(8) == 256;
    forall k | 0 <= k < 5
      ensures Pack(FrameBits(u))[k] == SignedFrame(u)[k]
    {
      FrameBitsSlice(u, k);
      ValueOfBitsOf(u[k], 8);
    }
  }

  /**
   * The checksum test of line 229 as written: the signed checksum byte against the masked sum of
   * the sign-extended data bytes. It passes exactly when the checksum byte is nonnegative and
   * agrees with the sum in its low 8 bits.
   */
  predicate ChecksumAsWritten(d: seq<JByte>): (ok: bool)
    requires |d| == 5
    ensures ok <==> 0 <= d[4] && (d[4] as int - d[0] - d[1] - d[2] - d[3]) % 256 == 0
  {
    d[4] == (d[0] as int + d[1] + d[2] + d[3]) % 256
  }

  /** The checksum test on unsigned bytes: the checksum byte is the low 8 bits of the sum of the data bytes. */
  predicate ChecksumIntended(d: seq<JByte>)
    requires |d| == 5
  {
    Unsigned(d[4]) == (Unsigned(d[0]) + Unsigned(d[1]) + Unsigned(d[2]) + Unsigned(d[3])) % 256
  }

  /** The test as written accepts exactly the frames with a correct checksum whose checksum byte is below 0x80. */
  lemma ChecksumAsWrittenIff(d: seq<JByte>)
    requires |d| == 5
    ensures ChecksumAsWritten(d) <==> ChecksumIntended(d) && Unsigned(d[4]) < 0x80
  {
    var signed := d[0] as int + d[1] + d[2] + d[3];
    var negatives := (if d[0] < 0 then 1 else 0) + (if d[1] < 0 then 1 else 0)
      + (if d[2] < 0 then 1 else 0) + (if d[3] < 0 then 1 else 0);
    assert Unsigned(d[0]) + Unsigned(d[1]) + Unsigned(d[2]) + Unsigned(d[3]) == signed + 256 * negatives;
    ModShift(signed, negatives);
  }

  /** The intended test accepts a frame of unsigned bytes exactly when byte 4 is the low 8 bits of the sum of bytes 0-3. */
  lemma ChecksumIntendedMeaning(u: seq<nat>)
    requires |u| == 5 && forall k :: 0 <= k < 5 ==> u[k] < 256
    ensures ChecksumIntended(SignedFrame(u)) <==> u[4] == (u[0] + u[1] + u[2] + u[3]) % 256
  {
    var d := SignedFrame(u);
    forall k | 0 <= k < 5
      ensures Unsigned(d[k]) == u[k]
    {
      UnsignedOfToByte(u[k]);
    }
  }

  /** The frame 02 8C 01 5D EC has a correct checksum (0x02 + 0x8C + 0x01 + 0x5D = 0xEC), yet the test as written rejects it. */
  lemma ChecksumRejectsValidFrame()
    ensures ChecksumIntended(SignedFrame([0x02, 0x8C, 0x01, 0x5D, 0xEC]))
    ensures !ChecksumAsWritten(SignedFrame([0x02, 0x8C, 0x01, 0x5D, 0xEC]))
  {
    var d := SignedFrame([0x02, 0x8C, 0x01, 0x5D, 0xEC]);
    assert d == [2, -116, 1, 93, -20];
  }
}
