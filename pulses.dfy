/**
 * The data line as a sequence of sampled levels, and the pulse counter `expectPulse`
 * (Dhtxx.java:240-248) as a function of those samples.
 */
module Pulses {

  /**
   * The level read by the `i`-th call of `getValue()` on the line. Past the end of the
   * recorded samples the line is released and the pull-up holds it high.
   */
  function LevelAt(levels: seq<bool>, i: nat): bool
  {
    if i < |levels| then levels[i] else true
  }

  /** The length of the run of `level` that starts at sample `pos`, looking at no more than `limit` samples. */
  function RunLength(levels: seq<bool>, pos: nat, level: bool, limit: nat): (n: nat)
    ensures n <= limit
    ensures forall j :: pos <= j < pos + n ==> LevelAt(levels, j) == level
    ensures n < limit ==> LevelAt(levels, pos + n) != level
    decreases limit
  {
    if limit == 0 || LevelAt(levels, pos) != level then 0
    else 1 + RunLength(levels, pos + 1, level, limit - 1)
  }

  /** What one call of the pulse counter returns, and the index of the first sample it left unread. */
  datatype Pulse = Pulse(count: int, next: nat)

  /** The cycle bound as the counter's comparison sees it: a negative bound acts like 0. */
  function Bound(maxCycles: int): nat
  {
    if maxCycles < 0 then 0 else maxCycles
  }

  /**
   * expectPulse(level) started at sample `pos`: it counts samples while the line reads
   * `level`, returns the count when the level changes (the changed sample is consumed
   * too), and returns 0 once a sample at `level` arrives after `maxCycles` have been counted.
   */
  function ExpectPulse(levels: seq<bool>, pos: nat, level: bool, maxCycles: int): (p: Pulse)
    ensures 0 <= p.count <= Bound(maxCycles)
    ensures p.next > pos
  {
    var bound := Bound(maxCycles);
    var n := RunLength(levels, pos, level, bound + 1);
    if n <= bound then Pulse(n, pos + n + 1) else Pulse(0, pos + bound + 1)
  }

  /**
   * The counter gives 0 exactly when the first sample differs from `level` or the line stays at
   * `level` beyond the bound; otherwise it gives the length of the run of `level`, and the sample
   * ending the run is consumed too. A failure consumes one sample if the level differs at once,
   * otherwise Bound(maxCycles) + 1.
   */
  lemma ExpectPulseMeaning(levels: seq<bool>, pos: nat, level: bool, maxCycles: int)
    ensures var p := ExpectPulse(levels, pos, level, maxCycles);
      && (p.count == 0 <==>
            LevelAt(levels, pos) != level || forall j :: pos <= j <= pos + maxCycles ==> LevelAt(levels, j) == level)
      && (forall j :: pos <= j < pos + p.count ==> LevelAt(levels, j) == level)
      && (p.count > 0 ==> LevelAt(levels, pos + p.count) != level && p.next == pos + p.count + 1)
      && (p.count == 0 && LevelAt(levels, pos) != level ==> p.next == pos + 1)
      && (p.count == 0 && LevelAt(levels, pos) == level ==> p.next == pos + Bound(maxCycles) + 1)
  {
  }

  /** A run of exactly `n` samples at `level`, with 1 <= n <= maxCycles, is counted as `n`. */
  lemma ExpectPulseOfRun(levels: seq<bool>, pos: nat, level: bool, maxCycles: int, n: nat)
    requires 1 <= n <= maxCycles
    requires forall j :: pos <= j < pos + n ==> LevelAt(levels, j) == level
    requires LevelAt(levels, pos + n) != level
    ensures ExpectPulse(levels, pos, level, maxCycles) == Pulse(n, pos + n + 1)
  {
    var p := ExpectPulse(levels, pos, level, maxCycles);
    ExpectPulseMeaning(levels, pos, level, maxCycles);
    assert LevelAt(levels, pos) == level;
    assert p.count != 0 by {
      assert pos <= pos + n <= pos + maxCycles;
    }
  }
}
