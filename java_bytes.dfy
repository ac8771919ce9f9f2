/** Java's signed 8-bit `byte` and the integer conversions the driver performs on it. */
module JavaBytes {

  /** A Java `byte`: an 8-bit two's-complement value. */
  type JByte = x: int | -128 <= x < 128

  /** Java's narrowing conversion `(byte) x`: the low 8 bits of `x`, read as two's complement. */
  function ToByte(x: int): (b: JByte)
    ensures b % 256 == x % 256
  {
    var u := x % 256;
    if u < 128 then u else u - 256
  }

  /** `b & 0xFF` on a sign-extended byte: the same 8 bits read as an unsigned number. */
  function Unsigned(b: JByte): (u: int)
    ensures 0 <= u < 256
    ensures u % 256 == b % 256
  {
    if b < 0 then b + 256 else b
  }

  /** `x | 1` on a two's-complement integer: sets the lowest bit, so the result is the least odd number not below `x`. */
  function OrLowBit(x: int): (r: int)
    ensures r % 2 == 1 && x <= r <= x + 1
  {
    if x % 2 == 0 then x + 1 else x
  }

  /** Two bytes with the same low 8 bits are the same byte: `ToByte` is determined by congruence. */
  lemma ToByteUnique(x: int, b: JByte)
    requires b % 256 == x % 256
    ensures ToByte(x) == b
  {
    var c := ToByte(x);
    assert (c - b) % 256 == 0;
  }

  /** Reading a byte unsigned and narrowing it back gives the byte again. */
  lemma ToByteOfUnsigned(b: JByte)
    ensures ToByte(Unsigned(b)) == b
  {
    ToByteUnique(Unsigned(b), b);
  }

  /** Narrowing an unsigned 8-bit number and reading it back unsigned gives the number again. */
  lemma UnsignedOfToByte(u: int)
    requires 0 <= u < 256
    ensures Unsigned(ToByte(u)) == u
  {
  }

  /** Narrowing a number in 128..255 gives a negative byte; in 0..127, the number itself. */
  lemma ToByteSign(u: int)
    requires 0 <= u < 256
    ensures ToByte(u) < 0 <==> u >= 128
  {
  }
}
