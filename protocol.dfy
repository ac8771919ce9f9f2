/**
 * One physical transaction of readSample (Dhtxx.java:178-237) as a function of the
 * line's samples: the two acknowledgement pulses, the 80 bit-pulse counts, the bit
 * decoding and packing, and the checksum test.
 */
module Protocol {
  import opened JavaBytes
  import opened Pulses
  import opened Frames

  /** The counts recorded by the reading loop, and the index of the first sample left unread. */
  datatype Measurement = Measurement(counts: seq<int>, next: nat)

  /** `pairs` low/high pulse pairs measured back to back from sample `pos`, as lines 198-201 record them. */
  function Measure(levels: seq<bool>, pos: nat, maxCycles: int, pairs: nat): (m: Measurement)
    ensures |m.counts| == 2 * pairs
    ensures forall i :: 0 <= i < |m.counts| ==> m.counts[i] >= 0
    ensures m.next >= pos + 2 * pairs
    decreases pairs
  {
    if pairs == 0 then Measurement([], pos)
    else
      var low := ExpectPulse(levels, pos, false, maxCycles);
      var high := ExpectPulse(levels, low.next, true, maxCycles);
      var rest := Measure(levels, high.next, maxCycles, pairs - 1);
      Measurement([low.count, high.count] + rest.counts, rest.next)
  }

  /** Measuring starts with one low and one high pulse, then measures the remaining pairs. */
  lemma MeasureCons(levels: seq<bool>, pos: nat, maxCycles: int, pairs: nat, low: int, high: int, mid: nat, after: nat)
    requires pairs > 0
    requires ExpectPulse(levels, pos, false, maxCycles) == Pulse(low, mid)
    requires ExpectPulse(levels, mid, true, maxCycles) == Pulse(high, after)
    ensures var rest := Measure(levels, after, maxCycles, pairs - 1);
      Measure(levels, pos, maxCycles, pairs) == Measurement([low, high] + rest.counts, rest.next)
  {
  }

  /** Measuring one pair more than `pairs` appends the counts of the pair that follows them. */
  lemma {:induction false} MeasureSnoc(levels: seq<bool>, pos: nat, maxCycles: int, pairs: nat)
    ensures var m := Measure(levels, pos, maxCycles, pairs);
      var low := ExpectPulse(levels, m.next, false, maxCycles);
      var high := ExpectPulse(levels, low.next, true, maxCycles);
      Measure(levels, pos, maxCycles, pairs + 1) == Measurement(m.counts + [low.count, high.count], high.next)
    decreases pairs
  {
    var low := ExpectPulse(levels, pos, false, maxCycles);
    var high := ExpectPulse(levels, low.next, true, maxCycles);
    if pairs == 0 {
      MeasureCons(levels, pos, maxCycles, 1, low.count, high.count, low.next, high.next);
    } else {
      var m := Measure(levels, pos, maxCycles, pairs);
      var rest := Measure(levels, high.next, maxCycles, pairs - 1);
      var longer := Measure(levels, high.next, maxCycles, pairs);
      var low' := ExpectPulse(levels, m.next, false, maxCycles);
      var high' := ExpectPulse(levels, low'.next, true, maxCycles);
      assert m == Measurement([low.count, high.count] + rest.counts, rest.next) by {
        MeasureCons(levels, pos, maxCycles, pairs, low.count, high.count, low.next, high.next);
      }
      assert Measure(levels, pos, maxCycles, pairs + 1) == Measurement([low.count, high.count] + longer.counts, longer.next) by {
        MeasureCons(levels, pos, maxCycles, pairs + 1, low.count, high.count, low.next, high.next);
      }
      assert longer == Measurement(rest.counts + [low'.count, high'.count], high'.next) by {
        MeasureSnoc(levels, high.next, maxCycles, pairs - 1);
        assert pairs - 1 + 1 == pairs;
      }
      AppendPair(Measure(levels, pos, maxCycles, pairs + 1), m, longer, rest, low.count, high.count, low'.count, high'.count, high'.next);
    }
  }

  /** Prepending one pair and appending another commute. */
  lemma AppendPair(whole: Measurement, m: Measurement, longer: Measurement, rest: Measurement, a: int, b: int, c: int, d: int, next: nat)
    requires m == Measurement([a, b] + rest.counts, rest.next)
    requires whole == Measurement([a, b] + longer.counts, longer.next)
    requires longer == Measurement(rest.counts + [c, d], next)
    ensures whole == Measurement(m.counts + [c, d], next)
  {
    assert [a, b] + (rest.counts + [c, d]) == ([a, b] + rest.counts) + [c, d];
  }

  /** Bit pair i timed out: its low or its high count is 0. */
  predicate PairTimedOut(counts: seq<int>, i: nat)
    requires 2 * i + 1 < |counts|
  {
    counts[2 * i] == 0 || counts[2 * i + 1] == 0
  }

  /**
   * Bit i as line 215 decides it: 1 iff the high pulse was counted longer than the low pulse.
   * Equal counts, the case the comment of lines 219-221 calls weird, give 0.
   */
  predicate PairBit(counts: seq<int>, i: nat): (one: bool)
    requires 2 * i + 1 < |counts|
    ensures counts[2 * i + 1] == counts[2 * i] ==> !one
  {
    counts[2 * i + 1] > counts[2 * i]
  }

  /** The index of the first of the first `n` bit pairs that timed out, or `n` if none did. */
  function FirstTimeout(counts: seq<int>, n: nat): (k: nat)
    requires 2 * n <= |counts|
    ensures k <= n
    ensures forall i :: 0 <= i < k ==> !PairTimedOut(counts, i)
    ensures k < n ==> PairTimedOut(counts, k)
  {
    if n == 0 then 0
    else
      var k := FirstTimeout(counts, n - 1);
      if k < n - 1 || PairTimedOut(counts, n - 1) then k else n
  }

  /** No pulse of the measurement timed out. */
  predicate AllCounted(counts: seq<int>)
  {
    forall i :: 0 <= i < |counts| ==> counts[i] != 0
  }

  /** The bits of the first `n` pairs. */
  function PairBits(counts: seq<int>, n: nat): (bits: seq<bool>)
    requires 2 * n <= |counts|
    ensures |bits| == n
  {
    seq(n, i requires 0 <= i < n => PairBit(counts, i))
  }

  /** The bits of one more pair are the bits so far followed by that pair's bit. */
  lemma PairBitsStep(counts: seq<int>, n: nat)
    requires 2 * n + 2 <= |counts|
    ensures PairBits(counts, n + 1) == PairBits(counts, n) + [PairBit(counts, n)]
  {
  }

  /** Shifting in the bit of pair `n` turns the packing of the first `n` pairs' bits into that of `n + 1`. */
  lemma PackPairStep(counts: seq<int>, n: nat)
    requires 2 * n + 2 <= |counts| && n < 40
    ensures var before := Pack(PairBits(counts, n));
      Pack(PairBits(counts, n + 1)) == before[n / 8 := ShiftIn(before[n / 8], PairBit(counts, n))]
  {
    PairBitsStep(counts, n);
    PackStep(PairBits(counts, n), PairBit(counts, n));
  }

  /** A pair that timed out after `i` pairs that did not is the first timeout. */
  lemma FirstTimeoutIs(counts: seq<int>, n: nat, i: nat)
    requires 2 * n <= |counts| && i <= n
    requires forall j :: 0 <= j < i ==> !PairTimedOut(counts, j)
    requires i < n ==> PairTimedOut(counts, i)
    ensures FirstTimeout(counts, n) == i
  {
  }

  const Zeros: seq<JByte> := [0, 0, 0, 0, 0]

  /**
   * The number of data bits in a frame, one low/high pulse pair each: 40. It is spelled as the
   * size of a frame rather than as the literal 40 because the verifier unrolls a recursive
   * definition such as `Measure` or `FirstTimeout` all the way down when it is applied to a
   * literal, and 40 levels of that make every proof that mentions them slow.
   */
  const FrameBitCount: nat := 8 * |Zeros|

  /** What the decoding loop (lines 205-222) leaves: whether it got through all 40 pairs, and `mData`. */
  datatype Decoded = Decoded(complete: bool, data: seq<JByte>)

  /** Lines 205-222: pack bits until the first timed-out pair, if any. */
  function DecodePairs(counts: seq<int>): (d: Decoded)
    requires |counts| == 80
    ensures |d.data| == 5
  {
    var k := FirstTimeout(counts, FrameBitCount);
    Decoded(k == FrameBitCount, Pack(PairBits(counts, k)))
  }

  /** One more pair that did not time out extends the run of pairs that did not. */
  lemma NoTimeoutExtended(counts: seq<int>, i: nat)
    requires 2 * i + 2 <= |counts|
    requires forall j :: 0 <= j < i ==> !PairTimedOut(counts, j)
    requires counts[2 * i] != 0 && counts[2 * i + 1] != 0
    ensures forall j :: 0 <= j < i + 1 ==> !PairTimedOut(counts, j)
  {
  }

  /** The decoding stops at pair `i` with the first `i` bits packed when pair `i` is the first to time out. */
  lemma DecodeStopsAt(counts: seq<int>, i: nat)
    requires |counts| == 80 && i < 40
    requires forall j :: 0 <= j < i ==> !PairTimedOut(counts, j)
    requires PairTimedOut(counts, i)
    ensures DecodePairs(counts) == Decoded(false, Pack(PairBits(counts, i)))
  {
    FirstTimeoutIs(counts, FrameBitCount, i);
  }

  /** The decoding completes with all 40 bits packed when no pair times out. */
  lemma DecodeCompletes(counts: seq<int>)
    requires |counts| == 80
    requires forall j :: 0 <= j < 40 ==> !PairTimedOut(counts, j)
    ensures DecodePairs(counts) == Decoded(true, Pack(PairBits(counts, 40)))
  {
    FirstTimeoutIs(counts, FrameBitCount, 40);
  }

  /**
   * The decoding loop completes exactly when none of the 80 counts is 0, and then bit i of the
   * frame, read MSB-first from byte i / 8, is 1 iff the high count of pair i exceeds its low count.
   */
  lemma DecodePairsMeaning(counts: seq<int>)
    requires |counts| == 80
    ensures DecodePairs(counts).complete <==> AllCounted(counts)
    ensures DecodePairs(counts).complete ==>
      forall i :: 0 <= i < 40 ==> FrameBit(DecodePairs(counts).data, i) == PairBit(counts, i)
  {
    var k := FirstTimeout(counts, FrameBitCount);
    if k == FrameBitCount {
      forall i | 0 <= i < 80
        ensures counts[i] != 0
      {
        assert !PairTimedOut(counts, i / 2);
      }
      PackedBits(PairBits(counts, 40));
    } else {
      assert PairTimedOut(counts, k);
      assert counts[2 * k] == 0 || counts[2 * k + 1] == 0;
    }
  }

  /** What one transaction yields: the result, `mData` afterwards, and the first sample left unread. */
  datatype Outcome = Outcome(ok: bool, data: seq<JByte>, next: nat)

  /**
   * A transaction read from sample `pos` on, after `mData` has been zeroed: fail with zeroed data
   * when either acknowledgement pulse times out; otherwise measure 80 pulses, decode them, and
   * succeed iff every pair decoded and the checksum test of line 229 passes.
   */
  function Transaction(levels: seq<bool>, pos: nat, maxCycles: int): (t: Outcome)
    ensures |t.data| == 5
    ensures t.next > pos
    ensures t.ok ==> 0 <= t.data[4]
  {
    var ackLow := ExpectPulse(levels, pos, false, maxCycles);
    if ackLow.count == 0 then Outcome(false, Zeros, ackLow.next)
    else
      var ackHigh := ExpectPulse(levels, ackLow.next, true, maxCycles);
      if ackHigh.count == 0 then Outcome(false, Zeros, ackHigh.next)
      else
        var m := Measure(levels, ackHigh.next, maxCycles, FrameBitCount);
        var d := DecodePairs(m.counts);
        Outcome(d.complete && ChecksumAsWritten(d.data), d.data, m.next)
  }

  /**
   * A transaction succeeds iff both acknowledgement pulses and all 80 bit pulses are counted
   * nonzero and the frame passes the checksum test; then its bit i is 1 iff high count i exceeds
   * low count i. A failed acknowledgement leaves the data zeroed.
   */
  lemma TransactionMeaning(levels: seq<bool>, pos: nat, maxCycles: int)
    ensures var t := Transaction(levels, pos, maxCycles);
      var ackLow := ExpectPulse(levels, pos, false, maxCycles);
      var ackHigh := ExpectPulse(levels, ackLow.next, true, maxCycles);
      var m := Measure(levels, ackHigh.next, maxCycles, FrameBitCount);
      && (ackLow.count == 0 || ackHigh.count == 0 ==> !t.ok && t.data == Zeros)
      && (t.ok <==> ackLow.count != 0 && ackHigh.count != 0
                    && AllCounted(m.counts) && ChecksumAsWritten(t.data))
      && (t.ok ==> forall i :: 0 <= i < 40 ==> FrameBit(t.data, i) == PairBit(m.counts, i))
  {
    var ackLow := ExpectPulse(levels, pos, false, maxCycles);
    var ackHigh := ExpectPulse(levels, ackLow.next, true, maxCycles);
    var m := Measure(levels, ackHigh.next, maxCycles, FrameBitCount);
    var t := Transaction(levels, pos, maxCycles);
    if ackLow.count != 0 && ackHigh.count != 0 {
      var d := DecodePairs(m.counts);
      assert t == Outcome(d.complete && ChecksumAsWritten(d.data), d.data, m.next);
      DecodePairsMeaning(m.counts);
    }
  }

  /** A transaction never reports success with a checksum byte of 0x80 or more. */
  lemma TransactionRejectsHighChecksum(levels: seq<bool>, pos: nat, maxCycles: int)
    ensures var t := Transaction(levels, pos, maxCycles);
      t.ok ==> ChecksumIntended(t.data) && Unsigned(t.data[4]) < 0x80
  {
    var t := Transaction(levels, pos, maxCycles);
    ChecksumAsWrittenIff(t.data);
  }

  /**
   * With a cycle bound of 0 or less (the bound is never assigned in the code, so it stays 0),
   * the first acknowledgement pulse always counts 0 and every transaction fails with zeroed data.
   */
  lemma ZeroMaxCyclesAlwaysFails(levels: seq<bool>, pos: nat, maxCycles: int)
    requires maxCycles <= 0
    ensures Transaction(levels, pos, maxCycles) == Outcome(false, Zeros, pos + 1)
  {
  }
}
