/**
 * Sensor replies built from a frame, and the proof that a transaction reads the frame
 * back from them: packing 40 bits into pulses and decoding them again is the identity.
 */
module Waveforms {
  import opened JavaBytes
  import opened Pulses
  import opened Frames
  import opened Protocol

  /** Samples in the low pulse that precedes a data bit. */
  function LowLength(bit: bool): nat
  {
    if bit then 2 else 3
  }

  /** Samples in the high pulse that carries a data bit: longer than the low pulse for a 1. */
  function HighLength(bit: bool): nat
  {
    if bit then 3 else 2
  }

  /** One data bit on the line: its low pulse, then its high pulse, five samples in all. */
  function BitWave(bit: bool): (w: seq<bool>)
    ensures |w| == 5
  {
    if bit then [false, false, true, true, true] else [false, false, false, true, true]
  }

  /** The data bits on the line, one after another. */
  function BitsWave(bits: seq<bool>): (w: seq<bool>)
    ensures |w| == 5 * |bits|
  {
    if bits == [] then [] else BitWave(bits[0]) + BitsWave(bits[1..])
  }

  /** A sensor reply: the acknowledgement low and high pulses, the data bits, and the closing low level. */
  function Reply(bits: seq<bool>): seq<bool>
  {
    [false, true, true] + BitsWave(bits) + [false]
  }

  /** The samples from `start` on are those of bit `bit`. */
  predicate CarriesBit(levels: seq<bool>, start: nat, bit: bool)
  {
    && LevelAt(levels, start) == false
    && LevelAt(levels, start + 1) == false
    && LevelAt(levels, start + 2) == bit
    && LevelAt(levels, start + 3) == true
    && LevelAt(levels, start + 4) == true
  }

  /** From `start` on, the samples carry the waves of `bits` and then a low sample. */
  predicate CarriesBits(levels: seq<bool>, start: nat, bits: seq<bool>)
    decreases bits
  {
    if bits == [] then LevelAt(levels, start) == false
    else CarriesBit(levels, start, bits[0]) && CarriesBits(levels, start + 5, bits[1..])
  }

  /** The samples read the way a reply carrying `bits` does: acknowledgement, bit waves, closing low level. */
  predicate CarriesReply(levels: seq<bool>, bits: seq<bool>)
  {
    LevelAt(levels, 0) == false && LevelAt(levels, 1) == true && LevelAt(levels, 2) == true
    && CarriesBits(levels, 3, bits)
  }

  /**
   * The counts the pulse counter records for the bits of a reply. Every pulse after the first
   * loses one sample, the one consumed by the count that ended at it.
   */
  function WaveCounts(bits: seq<bool>): (counts: seq<int>)
    ensures |counts| == 2 * |bits|
  {
    if bits == [] then []
    else [LowLength(bits[0]) - 1, HighLength(bits[0]) - 1] + WaveCounts(bits[1..])
  }

  /** Samples placed after any prefix and followed by a low sample carry the bits they were built from. */
  lemma {:induction false} BitsWaveCarries(prefix: seq<bool>, bits: seq<bool>)
    ensures CarriesBits(prefix + BitsWave(bits) + [false], |prefix|, bits)
    decreases bits
  {
    var levels := prefix + BitsWave(bits) + [false];
    if bits == [] {
      assert levels[|prefix|] == false;
    } else {
      var wave := BitWave(bits[0]);
      assert levels == (prefix + wave) + BitsWave(bits[1..]) + [false];
      BitsWaveCarries(prefix + wave, bits[1..]);
      assert forall j :: 0 <= j < 5 ==> levels[|prefix| + j] == wave[j];
    }
  }

  /** A reply built from `bits` carries them. */
  lemma ReplyCarries(bits: seq<bool>)
    ensures CarriesReply(Reply(bits), bits)
  {
    BitsWaveCarries([false, true, true], bits);
  }

  /** The counter reads a bit wave as its two pulse lengths less one, and stops just past the following low sample. */
  lemma MeasureBit(levels: seq<bool>, start: nat, bit: bool, maxCycles: int)
    requires CarriesBit(levels, start, bit) && LevelAt(levels, start + 5) == false && maxCycles >= 2
    ensures ExpectPulse(levels, start + 1, false, maxCycles) == Pulse(LowLength(bit) - 1, start + LowLength(bit) + 1)
    ensures ExpectPulse(levels, start + LowLength(bit) + 1, true, maxCycles) == Pulse(HighLength(bit) - 1, start + 6)
  {
    if bit {
      ExpectPulseOfRun(levels, start + 1, false, maxCycles, 1);
      ExpectPulseOfRun(levels, start + 3, true, maxCycles, 2);
    } else {
      ExpectPulseOfRun(levels, start + 1, false, maxCycles, 2);
      ExpectPulseOfRun(levels, start + 4, true, maxCycles, 1);
    }
  }

  /** Measuring `n` pairs from a bit wave yields the bit's counts, then what measuring from the next wave yields. */
  lemma MeasureStep(levels: seq<bool>, start: nat, bit: bool, n: nat, maxCycles: int)
    requires CarriesBit(levels, start, bit) && LevelAt(levels, start + 5) == false
    requires 0 < n && maxCycles >= 2
    ensures var rest := Measure(levels, start + 6, maxCycles, n - 1);
      Measure(levels, start + 1, maxCycles, n)
        == Measurement([LowLength(bit) - 1, HighLength(bit) - 1] + rest.counts, rest.next)
  {
    var low := LowLength(bit);
    MeasureBit(levels, start, bit, maxCycles);
    MeasureCons(levels, start + 1, maxCycles, n, low - 1, HighLength(bit) - 1, start + low + 1, start + 6);
  }

  /** Measuring as many pairs as there are bits from the first wave yields the bits' counts. */
  lemma MeasureBitsStep(levels: seq<bool>, start: nat, bits: seq<bool>, maxCycles: int)
    requires CarriesBits(levels, start, bits) && bits != [] && maxCycles >= 2
    ensures CarriesBits(levels, start + 5, bits[1..])
    ensures var later := Measure(levels, start + 6, maxCycles, |bits| - 1);
      Measure(levels, start + 1, maxCycles, |bits|)
        == Measurement([LowLength(bits[0]) - 1, HighLength(bits[0]) - 1] + later.counts, later.next)
  {
    var rest := bits[1..];
    assert LevelAt(levels, start + 5) == false by {
      if rest != [] { assert CarriesBit(levels, start + 5, rest[0]); }
    }
    MeasureStep(levels, start, bits[0], |bits|, maxCycles);
  }

  lemma {:induction false} MeasureBits(levels: seq<bool>, start: nat, bits: seq<bool>, maxCycles: int)
    requires CarriesBits(levels, start, bits) && maxCycles >= 2
    ensures Measure(levels, start + 1, maxCycles, |bits|) == Measurement(WaveCounts(bits), start + 5 * |bits| + 1)
    decreases bits
  {
    if bits != [] {
      var rest := bits[1..];
      MeasureBitsStep(levels, start, bits, maxCycles);
      MeasureBits(levels, start + 5, rest, maxCycles);
      assert |rest| == |bits| - 1 && start + 5 + 1 == start + 6;
    }
  }

  /** Pair i of a reply's counts holds the lengths of bit i's pulses less one. */
  lemma {:induction false} WaveCountsAt(bits: seq<bool>, i: nat)
    requires i < |bits|
    ensures WaveCounts(bits)[2 * i] == LowLength(bits[i]) - 1
    ensures WaveCounts(bits)[2 * i + 1] == HighLength(bits[i]) - 1
  {
    if i > 0 {
      WaveCountsAt(bits[1..], i - 1);
    }
  }

  /** The counts of a 40-bit reply decode completely, to the packing of the bits. */
  lemma DecodeWaveCounts(bits: seq<bool>)
    requires |bits| == 40
    ensures DecodePairs(WaveCounts(bits)) == Decoded(true, Pack(bits))
  {
    var counts := WaveCounts(bits);
    forall i | 0 <= i < 40
      ensures !PairTimedOut(counts, i) && PairBit(counts, i) == bits[i]
    {
      WaveCountsAt(bits, i);
    }
    assert PairBits(counts, 40) == bits;
  }

  /** A transaction on samples that carry 40 bits packs exactly those bits, and succeeds iff they pass the checksum test. */
  lemma TransactionOfReply(levels: seq<bool>, bits: seq<bool>, maxCycles: int)
    requires CarriesReply(levels, bits) && |bits| == 40 && maxCycles >= 2
    ensures Transaction(levels, 0, maxCycles) == Outcome(ChecksumAsWritten(Pack(bits)), Pack(bits), 204)
  {
    ExpectPulseOfRun(levels, 0, false, maxCycles, 1);
    assert CarriesBit(levels, 3, bits[0]);
    ExpectPulseOfRun(levels, 2, true, maxCycles, 1);
    MeasureBits(levels, 3, bits, maxCycles);
    DecodeWaveCounts(bits);
  }

  /**
   * A transaction on the reply that carries the five unsigned bytes `u` leaves exactly those
   * bytes in `mData`, and succeeds iff byte 4 is the low 8 bits of the sum of bytes 0-3 and is
   * below 0x80. Any cycle bound of at least 2 measures every pulse of such a reply.
   */
  lemma TransactionRecoversFrame(u: seq<nat>, maxCycles: int)
    requires |u| == 5 && forall k :: 0 <= k < 5 ==> u[k] < 256
    requires maxCycles >= 2
    ensures var t := Transaction(Reply(FrameBits(u)), 0, maxCycles);
      && t.data == SignedFrame(u)
      && (t.ok <==> u[4] == (u[0] + u[1] + u[2] + u[3]) % 256 && u[4] < 0x80)
  {
    var bits := FrameBits(u);
    ReplyCarries(bits);
    TransactionOfReply(Reply(bits), bits, maxCycles);
    PackFrameBits(u);
    var d := SignedFrame(u);
    ChecksumAsWrittenIff(d);
    ChecksumIntendedMeaning(u);
    UnsignedOfToByte(u[4]);
  }
}
