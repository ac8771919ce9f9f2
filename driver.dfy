/**
 * The Dhtxx driver object (Dhtxx.java): the GPIO line it samples, its cached state
 * (`mData`, `mLastReadTime`, `mLastResult`), the pulse counter, the sample engine and the
 * three reading operations, each proved against the functions of Pulses, Protocol and Readings.
 */
module Driver {
  import opened JavaBytes
  import opened Pulses
  import opened Frames
  import opened Protocol
  import opened Readings

  /** Milliseconds that must pass before a non-forced sample talks to the sensor again. */
  const MinInterval: int := 2000

  /** How a Java call ends: normally with a value, or by throwing `IllegalMonitorStateException`. */
  datatype Completion<T> = Normal(value: T) | IllegalMonitorState

  /** Storing two counts just past a prefix extends the prefix by those counts. */
  lemma PairStored(before: seq<int>, after: seq<int>, i: nat)
    requires i + 2 <= |before| == |after|
    requires after == before[i := after[i]][i + 1 := after[i + 1]]
    ensures after[..i + 2] == before[..i] + [after[i], after[i + 1]]
  {
  }

  /** The data line as the driver reads it: a fixed record of sampled levels and how many have been read. */
  class Gpio {
    const levels: seq<bool>
    var consumed: nat

    constructor (levels: seq<bool>)
      ensures this.levels == levels && consumed == 0
    {
      this.levels := levels;
      consumed := 0;
    }

    /** `getValue()`: the next sample of the line. */
    method GetValue() returns (v: bool)
      modifies this
      ensures consumed == old(consumed) + 1
      ensures v == LevelAt(levels, old(consumed))
    {
      v := LevelAt(levels, consumed);
      consumed := consumed + 1;
    }
  }

  class Dhtxx {
    const gpio: Gpio
    const sensorType: int
    /** `mMaxCycles`: the bound on the samples one pulse may last. */
    const maxCycles: int
    /** `mData`: the five bytes of the last frame, as Java bytes. */
    const data: array<JByte>
    /** `mLastReadTime`: when a transaction was last attempted, in milliseconds. */
    var lastReadTime: int
    /** `mLastResult`: whether that transaction succeeded. */
    var lastResult: bool

    predicate Valid()
      reads this
    {
      data.Length == 5
    }

    /** A non-forced call this soon after the last attempt reuses its result (line 138). */
    predicate Throttled(force: bool, now: int)
      reads this
    {
      !force && now - lastReadTime < MinInterval
    }

    /**
     * The driver's initial state (lines 32-34): zeroed data, a last attempt 2000 ms before time 0
     * and no result, so that no call at a time of 0 or later is throttled. The cycle bound is a
     * parameter here; the code as written never assigns it, so there it is 0.
     */
    constructor (gpio: Gpio, sensorType: int, maxCycles: int)
      ensures Valid() && fresh(data)
      ensures this.gpio == gpio && this.sensorType == sensorType && this.maxCycles == maxCycles
      ensures data[..] == Zeros && lastReadTime == -MinInterval && !lastResult
      ensures forall now :: now >= 0 ==> !Throttled(false, now)
    {
      this.gpio := gpio;
      this.sensorType := sensorType;
      this.maxCycles := maxCycles;
      data := new JByte[5](_ => 0);
      lastReadTime := -MinInterval;
      lastResult := false;
      new;
      assert data[..] == Zeros;
    }

    /**
     * `expectPulse(level)` (lines 240-248): counts the samples at `level`, consuming the sample
     * that ends the run, and gives 0 when the first sample differs or when a sample at `level`
     * arrives after `maxCycles` have been counted.
     */
    method ExpectPulse(level: bool) returns (count: int)
      modifies gpio
      ensures var p := Pulses.ExpectPulse(gpio.levels, old(gpio.consumed), level, maxCycles);
        count == p.count && gpio.consumed == p.next
    {
      ghost var pos := gpio.consumed;
      count := 0;
      var v := gpio.GetValue();
      while v == level
        invariant 0 <= count <= Bound(maxCycles)
        invariant gpio.consumed == pos + count + 1
        invariant v == LevelAt(gpio.levels, pos + count)
        invariant forall j :: pos <= j < pos + count ==> LevelAt(gpio.levels, j) == level
        decreases Bound(maxCycles) - count
      {
        if count >= maxCycles {
          // line 243: the run outlasted the bound
          assert forall j :: pos <= j <= pos + maxCycles ==> LevelAt(gpio.levels, j) == level;
          return 0;
        }
        count := count + 1;
        v := gpio.GetValue();
      }
      if count > 0 {
        ExpectPulseOfRun(gpio.levels, pos, level, maxCycles, count);
      }
    }

    /**
     * The first `n` pairs of `cycles` hold the counts of `n` pulse pairs measured from sample
     * `start`, and the line's cursor is where the last of them ended.
     */
    predicate Measured(cycles: array<int>, start: nat, n: nat)
      requires 2 * n <= cycles.Length
      reads gpio, cycles
    {
      var m := Measure(gpio.levels, start, maxCycles, n);
      gpio.consumed == m.next && cycles[..2 * n] == m.counts
    }

    /**
     * Lines 199-200, one pass of the reading loop: with the first `n` pairs measured from sample
     * `start` into `cycles`, count the next low and high pulse into pair `n`.
     */
    method ReadPair(cycles: array<int>, n: nat, ghost start: nat)
      requires 2 * n + 2 <= cycles.Length && Measured(cycles, start, n)
      modifies gpio, cycles
      ensures Measured(cycles, start, n + 1)
    {
      ghost var before := cycles[..];
      MeasureSnoc(gpio.levels, start, maxCycles, n);
      cycles[2 * n] := ExpectPulse(false);
      cycles[2 * n + 1] := ExpectPulse(true);
      PairStored(before, cycles[..], 2 * n);
    }

    /** Lines 198-201: the 80 pulse counts, low then high for each of the 40 bits. */
    method ReadCycles() returns (cycles: array<int>)
      modifies gpio
      ensures fresh(cycles)
      ensures var m := Measure(gpio.levels, old(gpio.consumed), maxCycles, FrameBitCount);
        cycles[..] == m.counts && gpio.consumed == m.next
    {
      cycles := new int[2 * FrameBitCount];
      ghost var start := gpio.consumed;
      var n := 0;
      assert cycles[..0] == [];
      while n < FrameBitCount
        invariant 0 <= n <= FrameBitCount
        invariant Measured(cycles, start, n)
      {
        ReadPair(cycles, n, start);
        n := n + 1;
      }
      assert cycles[..] == cycles[..2 * n];
    }

    /** Lines 215-219: `mData[k] <<= 1`, then `mData[k] |= 1` for a one bit, each narrowed back to a byte. */
    method ShiftBitIn(k: nat, one: bool)
      requires Valid() && k < 5
      modifies data
      ensures data[..] == old(data[..])[k := ShiftIn(old(data[k]), one)]
    {
      var b := ToByte(2 * (data[k] as int));
      if one {
        b := ToByte(OrLowBit(b));
      }
      data[k] := b;
    }

    /**
     * Lines 206-218, one pass of the decoding loop: with the bits of the first `i` pairs packed
     * into `mData`, report a timeout if pair `i` has a zero count, and otherwise shift its bit in.
     */
    method PackPair(cycles: array<int>, i: nat) returns (timedOut: bool)
      requires Valid() && cycles.Length == 80 && i < 40
      requires forall j :: 0 <= j < i ==> !PairTimedOut(cycles[..], j)
      requires data[..] == Pack(PairBits(cycles[..], i))
      modifies data
      ensures timedOut ==> DecodePairs(cycles[..]) == Decoded(false, data[..])
      ensures !timedOut ==>
        && (forall j :: 0 <= j < i + 1 ==> !PairTimedOut(cycles[..], j))
        && data[..] == Pack(PairBits(cycles[..], i + 1))
    {
      ghost var counts := cycles[..];
      var lowCycles := cycles[2 * i];
      var highCycles := cycles[2 * i + 1];
      if lowCycles == 0 || highCycles == 0 {
        DecodeStopsAt(counts, i);
        return true;
      }
      NoTimeoutExtended(counts, i);
      ShiftBitIn(i / 8, highCycles > lowCycles);
      PackPairStep(counts, i);
      timedOut := false;
    }

    /**
     * Lines 205-222: shift the bits of the pairs into the zeroed `mData`, most significant
     * first, stopping at the first pair with a zero count.
     */
    method PackCycles(cycles: array<int>) returns (complete: bool)
      requires Valid() && cycles.Length == 80 && data[..] == Zeros
      modifies data
      ensures var d := DecodePairs(cycles[..]);
        complete == d.complete && data[..] == d.data
    {
      PackEmpty();
      assert PairBits(cycles[..], 0) == [];
      var i := 0;
      while i < 40
        invariant 0 <= i <= 40
        invariant forall j :: 0 <= j < i ==> !PairTimedOut(cycles[..], j)
        invariant data[..] == Pack(PairBits(cycles[..], i))
      {
        var timedOut := PackPair(cycles, i);
        if timedOut {
          return false;
        }
        i := i + 1;
      }
      DecodeCompletes(cycles[..]);
      complete := true;
    }

    /**
     * Lines 178-237 after `mData` is zeroed: the acknowledgement pulses, the 80 counts, the
     * decoding and the checksum test, as one transaction from the first unread sample.
     */
    method Transact() returns (ok: bool)
      requires Valid() && data[..] == Zeros
      modifies data, gpio
      ensures var t := Transaction(gpio.levels, old(gpio.consumed), maxCycles);
        ok == t.ok && data[..] == t.data && gpio.consumed == t.next
    {
      ghost var levels, start := gpio.levels, gpio.consumed;
      var ackLow := ExpectPulse(false);
      if ackLow == 0 {
        return false;
      }
      var ackHigh := ExpectPulse(true);
      if ackHigh == 0 {
        return false;
      }
      var cycles := ReadCycles();
      var complete := PackCycles(cycles);
      if !complete {
        return false;
      }
      // line 229: byte 4 against the low 8 bits of the sum of the signed bytes 0-3
      ok := ChecksumAsWritten(data[..]);
    }

    /**
     * `readSample(force)` (lines 134-237) at time `now`, as if the waits of lines 155-174 simply
     * let time pass. A throttled call returns the last result and changes nothing. Any other call
     * records `now`, zeroes `mData` and runs one transaction on the line from the first unread
     * sample; the result is also kept as the last result.
     */
    method ReadSample(force: bool, now: int) returns (ok: bool)
      requires Valid()
      modifies this, data, gpio
      ensures old(Throttled(force, now)) ==>
        ok == old(lastResult) && unchanged(this, data, gpio)
      ensures !old(Throttled(force, now)) ==>
        var t := Transaction(gpio.levels, old(gpio.consumed), maxCycles);
        && ok == t.ok && lastResult == ok
        && lastReadTime == now && data[..] == t.data && gpio.consumed == t.next
    {
      if !force && now - lastReadTime < MinInterval {
        return lastResult;
      }
      lastReadTime := now;
      data[0], data[1], data[2], data[3], data[4] := 0, 0, 0, 0, 0;
      assert data[..] == Zeros;
      lastResult := Transact();
      ok := lastResult;
    }

    /**
     * `readSample(force)` as written (lines 134-155). A throttled call returns the last result
     * and changes nothing. Any other call records `now` and zeroes `mData`, then calls `wait(250)`
     * at line 155 without holding the object's monitor (nothing in the driver is `synchronized`),
     * so `Object.wait` throws `IllegalMonitorStateException` before the line is read and
     * `mLastResult` keeps its old value.
     */
    method ReadSampleAsWritten(force: bool, now: int) returns (r: Completion<bool>)
      requires Valid()
      modifies this, data
      ensures old(Throttled(force, now)) ==> r == Normal(old(lastResult)) && unchanged(this, data)
      ensures !old(Throttled(force, now)) ==>
        && r == IllegalMonitorState && lastResult == old(lastResult)
        && lastReadTime == now && data[..] == Zeros
    {
      if !force && now - lastReadTime < MinInterval {
        return Normal(lastResult);
      }
      lastReadTime := now;
      data[0], data[1], data[2], data[3], data[4] := 0, 0, 0, 0, 0;
      assert data[..] == Zeros;
      // line 155: `wait(250)` by a thread that does not own the monitor
      r := IllegalMonitorState;
    }

    /**
     * `readTemperature()` as written: the forced sample always reaches line 155, and the
     * exception passes through the handler, which catches only `InterruptedException`.
     */
    method ReadTemperatureAsWritten(now: int) returns (r: Completion<Option<int>>)
      requires Valid()
      modifies this, data
      ensures r == IllegalMonitorState && lastResult == old(lastResult)
      ensures lastReadTime == now && data[..] == Zeros
    {
      var sample := ReadSampleAsWritten(true, now);
      match sample
      case IllegalMonitorState =>
        r := IllegalMonitorState;
      case Normal(_) =>
        // a forced sample is never throttled, so it never returns normally
        assert false;
    }

    /**
     * `readHumidity()` as written: a throttled call decodes the cached frame as `ReadHumidity`
     * does; any other call throws out of line 155.
     */
    method ReadHumidityAsWritten(now: int) returns (r: Completion<Option<int>>)
      requires Valid()
      modifies this, data
      ensures old(Throttled(false, now)) ==>
        r == Normal(if old(lastResult) then Humidity(sensorType, old(data[..])) else None)
        && unchanged(this, data)
      ensures !old(Throttled(false, now)) ==>
        && r == IllegalMonitorState && lastResult == old(lastResult)
        && lastReadTime == now && data[..] == Zeros
    {
      var sample := ReadSampleAsWritten(false, now);
      match sample
      case Normal(ok) =>
        r := Normal(if ok then Humidity(sensorType, data[..]) else None);
      case IllegalMonitorState =>
        r := IllegalMonitorState;
    }

    /**
     * `readTemperatureAndHumidity()` as written: the temperature read throws, so the humidity is
     * never read and no array is returned.
     */
    method ReadTemperatureAndHumidityAsWritten(temperatureTime: int, humidityTime: int)
      returns (r: Completion<(Option<int>, Option<int>)>)
      requires Valid()
      modifies this, data
      ensures r == IllegalMonitorState && lastResult == old(lastResult)
      ensures lastReadTime == temperatureTime && data[..] == Zeros
    {
      var t := ReadTemperatureAsWritten(temperatureTime);
      match t
      case IllegalMonitorState =>
        r := IllegalMonitorState;
      case Normal(_) =>
        // the temperature read always throws, so `readHumidity()` is never reached
        assert false;
    }

    /**
     * `readTemperature()` (lines 61-86): a forced sample at `now`, decoded for the sensor type
     * when it succeeded; `None` stands for NaN.
     */
    method ReadTemperature(now: int) returns (t: Option<int>)
      requires Valid()
      modifies this, data, gpio
      ensures var tr := Transaction(gpio.levels, old(gpio.consumed), maxCycles);
        && t == (if tr.ok then Temperature(sensorType, tr.data) else None)
        && lastResult == tr.ok && lastReadTime == now && data[..] == tr.data && gpio.consumed == tr.next
    {
      var ok := ReadSample(true, now);
      t := if ok then Temperature(sensorType, data[..]) else None;
    }

    /**
     * `readHumidity()` (lines 96-117): a non-forced sample at `now`, decoded for the sensor type
     * when it succeeded. A throttled call decodes the frame of the last attempt.
     */
    method ReadHumidity(now: int) returns (h: Option<int>)
      requires Valid()
      modifies this, data, gpio
      ensures old(Throttled(false, now)) ==>
        h == (if old(lastResult) then Humidity(sensorType, old(data[..])) else None)
        && unchanged(this, data, gpio)
      ensures !old(Throttled(false, now)) ==>
        var tr := Transaction(gpio.levels, old(gpio.consumed), maxCycles);
        && h == (if tr.ok then Humidity(sensorType, tr.data) else None)
        && lastResult == tr.ok && lastReadTime == now && data[..] == tr.data && gpio.consumed == tr.next
    {
      var ok := ReadSample(false, now);
      h := if ok then Humidity(sensorType, data[..]) else None;
    }

    /**
     * `readTemperatureAndHumidity()` (line 127): temperature read at `temperatureTime`, then
     * humidity at `humidityTime`. When the second comes less than 2000 ms after the first, both
     * readings come from the one frame of the forced transaction and the line is read once;
     * otherwise the humidity comes from a second transaction on the samples that follow.
     */
    method ReadTemperatureAndHumidity(temperatureTime: int, humidityTime: int) returns (t: Option<int>, h: Option<int>)
      requires Valid()
      modifies this, data, gpio
      ensures var tr := Transaction(gpio.levels, old(gpio.consumed), maxCycles);
        t == (if tr.ok then Temperature(sensorType, tr.data) else None)
      ensures humidityTime - temperatureTime < MinInterval ==>
        var tr := Transaction(gpio.levels, old(gpio.consumed), maxCycles);
        && h == (if tr.ok then Humidity(sensorType, tr.data) else None)
        && lastResult == tr.ok && lastReadTime == temperatureTime && data[..] == tr.data
        && gpio.consumed == tr.next
      ensures humidityTime - temperatureTime >= MinInterval ==>
        var first := Transaction(gpio.levels, old(gpio.consumed), maxCycles);
        var second := Transaction(gpio.levels, first.next, maxCycles);
        && h == (if second.ok then Humidity(sensorType, second.data) else None)
        && lastResult == second.ok && lastReadTime == humidityTime && data[..] == second.data
        && gpio.consumed == second.next
    {
      t := ReadTemperature(temperatureTime);
      h := ReadHumidity(humidityTime);
    }
  }

  /**
   * The code as written never completes a sample: on a fresh DHT22 driver, with any line and any
   * cycle bound, even the first non-forced humidity read at time 0 ends in
   * `IllegalMonitorStateException`.
   */
  method FirstHumidityReadThrows(levels: seq<bool>, maxCycles: int) returns (r: Completion<Option<int>>)
    ensures r == IllegalMonitorState
  {
    var line := new Gpio(levels);
    var sensor := new Dhtxx(line, Dht22Type, maxCycles);
    r := sensor.ReadHumidityAsWritten(0);
  }
}
