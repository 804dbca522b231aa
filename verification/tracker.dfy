/** The transfer-statistics state machine of the status bar: an immutable record
    and one pure transition per event.

    - `Create`: the constructor (validation, initial snapshot, first render,
      optional render timer).
    - `Update`: a written chunk (`update` together with `_updateStats`). The
      wall clock (`Date.now()`) and the nanoseconds since the previous chunk
      (`process.hrtime(this._chunkTimestamp)`) are parameters.
    - `Tick`: one firing of the one-second elapsed-time interval.
    - `RenderTick`: one firing of the render interval.
    - `Cancel`: `cancel`, which clears both intervals.

    The `render` and `finish` callbacks are not run; the record counts how
    often each is invoked.
 */
module Tracker {
  import opened Wrappers
  import opened JsNumber

  /** An interval handle. `clearInterval` stops a timer but does not reset the
      field holding its handle, so a cleared timer still reads as set. */
  datatype Timer = Unset | Running | Cleared {
    predicate IsSet() {
      !Unset?
    }
  }

  /** `this._current / this._total` kept as a pair; a zero denominator stands
      for JavaScript's Infinity or NaN. */
  datatype Fraction = Fraction(num: int, den: int) {
    predicate IsOne() {
      den != 0 && num == den
    }
    predicate IsZero() {
      den != 0 && num == 0
    }
  }

  /** The `_stats` snapshot handed to `render`; `remainingTime` is `None`
      while it is `undefined`. */
  datatype Stats = Stats(
    currentSize: int,
    totalSize: int,
    remainingSize: int,
    percentage: Fraction,
    speed: int,
    elapsedTime: int,
    remainingTime: Option<int>)

  /** The constructor's options. `total` is `None` when undefined or null;
      `render` and `finish` say whether the callback is supplied (truthy);
      `frequency` is `None` when undefined. */
  datatype Options = Options(
    total: Option<int>,
    render: bool,
    frequency: Option<int>,
    finish: bool)

  datatype CreateError = MissingFileSize | MissingRenderingFunction

  /** The status bar's state. `chunkTimestamp` says whether
      `this._chunkTimestamp` holds a high-resolution time (it is 0 until the
      first chunk). `renders` and `finishes` count the callback invocations. */
  datatype StatusBar = StatusBar(
    current: nat,
    total: int,
    start: int,
    chunkTimestamp: bool,
    secondsWithoutUpdate: nat,
    renderTimer: Timer,
    elapsedTimer: Timer,
    frequency: int,
    hasFinish: bool,
    stats: Stats,
    renders: nat,
    finishes: nat)

  const DefaultFrequency: int := 200
  /** Ticks without an update after which the transfer counts as hung. */
  const StallTicks: nat := 3
  /** Weight of the newest sample in the moving average of the speed. */
  const Smooth: real := 0.005

  /** `options.frequency || 200`: an absent or zero frequency is 200. */
  function Frequency(f: Option<int>): (r: int)
    ensures r != 0
    ensures f.Some? && f.value != 0 ==> r == f.value
    ensures f.None? || f == Some(0) ==> r == DefaultFrequency
  {
    if f.Some? && f.value != 0 then f.value else DefaultFrequency
  }

  /** What the state keeps true between events. */
  ghost predicate Valid(b: StatusBar) {
    && IsInt32(b.total)
    && b.stats.totalSize == b.total
    && b.stats.currentSize == b.current
    && b.stats.remainingSize == b.total - b.current
    && b.frequency != 0
    && b.renders >= 1
    && b.finishes < b.renders
    && b.stats.elapsedTime >= 0
    && IsInt32(b.stats.speed)
    && (b.renderTimer.IsSet() ==> b.total > 0)
    // The elapsed timer is created by the first chunk, and only by it.
    && (b.chunkTimestamp <==> b.elapsedTimer.IsSet())
    // Before the first chunk the snapshot is the initial one.
    && (!b.chunkTimestamp ==>
          && b.current == 0
          && b.start == 0
          && b.secondsWithoutUpdate == 0
          && b.stats.speed == 0
          && b.stats.elapsedTime == 0
          && b.stats.remainingTime == (if b.total == 0 then Some(0) else None))
  }

  /** The constructor. It throws when `total` is missing (checked first) or
      `render` is missing; otherwise it renders once and starts the render
      timer only for a positive total. */
  function Create(o: Options): (r: Result<StatusBar, CreateError>)
    ensures o.total.None? <==> r == Failure(MissingFileSize)
    ensures o.total.Some? && !o.render <==> r == Failure(MissingRenderingFunction)
    ensures r.Success? ==>
              var b := r.value;
              && Valid(b)
              && b.total == ToInt32(o.total.value)
              && b.current == 0 && b.stats.currentSize == 0 && b.stats.remainingSize == b.total
              && b.stats.speed == 0 && b.stats.elapsedTime == 0
              && b.renders == 1 && b.finishes == 0
              && b.hasFinish == o.finish
              && b.start == 0 && b.frequency == Frequency(o.frequency)
              && b.elapsedTimer == Unset
              && (b.renderTimer.Running? <==> b.total > 0)
              && !b.renderTimer.Cleared?
              && (b.total == 0 ==> b.stats.percentage.IsOne() && b.stats.remainingTime == Some(0))
              && (b.total != 0 ==> b.stats.percentage.IsZero() && b.stats.remainingTime.None?)
  {
    if o.total.None? then Failure(MissingFileSize)
    else if !o.render then Failure(MissingRenderingFunction)
    else
      var total := ToInt32(o.total.value);
      var frequency := Frequency(o.frequency);
      var stats := Stats(
        0, total, total,
        if total == 0 then Fraction(1, 1) else Fraction(0, 1),
        0, 0,
        if total == 0 then Some(0) else None);
      Success(StatusBar(
        0, total, 0, false, 0,
        if frequency != 0 && total > 0 then Running else Unset,
        Unset, frequency, o.finish, stats, 1, 0))
  }

  /** The speed sample before truncation: `lastSpeed = length*1e9/elapsed`
      bytes per second, averaged with the previous speed (or with itself when
      the previous speed is 0). Exact reals, no IEEE rounding. */
  function RawSpeed(prev: int, length: nat, elapsedNs: nat): real
    requires elapsedNs > 0
  {
    var last := LastSpeed(length, elapsedNs);
    var base := if prev != 0 then prev as real else last;
    Smooth * last + (1.0 - Smooth) * base
  }

  /** `~~(smooth*lastSpeed + (1 - smooth)*(speed || lastSpeed))`. With no time
      between chunks the sample is Infinity or NaN, which `~~` turns into 0. */
  function SmoothedSpeed(prev: int, length: nat, elapsedNs: nat): (r: int)
    ensures IsInt32(r)
    ensures elapsedNs == 0 ==> r == 0
  {
    if elapsedNs == 0 then 0 else ToInt32(TruncReal(RawSpeed(prev, length, elapsedNs)))
  }

  /** `~~((0.001*elapsed*remainingSize)/current) + 1`: the remaining time in
      seconds extrapolated from the average rate since the start. With
      `current == 0` the quotient is Infinity or NaN, which `~~` turns into 0. */
  function Eta(elapsedMs: int, remaining: int, current: nat): (r: int)
    ensures IsInt32(r - 1)
  {
    if current == 0 then 1
    else ToInt32(TruncDiv(elapsedMs * remaining, 1000 * current)) + 1
  }

  /** The instantaneous rate of a chunk in bytes per second. */
  function LastSpeed(length: nat, elapsedNs: nat): (r: real)
    requires elapsedNs > 0
    ensures r >= 0.0
  {
    assert (length * 1000000000) as real >= 0.0;
    (length * 1000000000) as real / elapsedNs as real
  }

  /** Without an earlier speed the first smoothed sample is the instantaneous
      rate itself (the `speed || lastSpeed` fallback avoids a cold start at 0). */
  lemma ColdStartIsInstantaneousRate(length: nat, elapsedNs: nat)
    requires elapsedNs > 0
    ensures RawSpeed(0, length, elapsedNs) == LastSpeed(length, elapsedNs)
    ensures LastSpeed(length, elapsedNs) < TwoTo31 as real ==>
              SmoothedSpeed(0, length, elapsedNs) == TruncReal(LastSpeed(length, elapsedNs))
  {
    var last := LastSpeed(length, elapsedNs);
    assert RawSpeed(0, length, elapsedNs) == Smooth * last + (1.0 - Smooth) * last;
  }

  /** A smoothed speed lies between the previous speed and the new sample
      (up to the truncation), so it is never negative for non-negative inputs,
      as long as it stays below 2^31 where `~~` would wrap it. */
  lemma SpeedIsAnAverage(prev: int, length: nat, elapsedNs: nat)
    requires elapsedNs > 0 && prev >= 0
    requires RawSpeed(prev, length, elapsedNs) < TwoTo31 as real
    ensures var r := SmoothedSpeed(prev, length, elapsedNs);
            var last := LastSpeed(length, elapsedNs);
            var base := if prev != 0 then prev as real else last;
            && 0 <= r
            && (r as real <= last || r as real <= base)
            && (last < r as real + 1.0 || base < r as real + 1.0)
  {
    var last := LastSpeed(length, elapsedNs);
    var base := if prev != 0 then prev as real else last;
    var raw := RawSpeed(prev, length, elapsedNs);
    assert raw == Smooth * last + (1.0 - Smooth) * base;
    if last <= base {
      assert last <= raw <= base;
    } else {
      assert base <= raw <= last;
    }
    assert raw >= 0.0;
    var t := TruncReal(raw);
    assert 0 <= t < TwoTo31;
  }

  /** While the quotient fits in 32 bits the estimate is at least one second,
      and the time the remaining bytes need at the average rate since the start,
      elapsed/1000 * remaining/current seconds, lies in [r - 1, r). */
  lemma EtaBracketsAverageRate(elapsedMs: int, remaining: int, current: nat)
    requires elapsedMs >= 0 && remaining >= 0 && current > 0
    requires elapsedMs * remaining / (1000 * current) < TwoTo31
    ensures Eta(elapsedMs, remaining, current) >= 1
    ensures var r := Eta(elapsedMs, remaining, current);
            (r - 1) * (1000 * current) <= elapsedMs * remaining < r * (1000 * current)
  {
    var a := elapsedMs * remaining;
    var d := 1000 * current;
    assert a >= 0 by {
      assert elapsedMs * remaining >= 0 * remaining;
    }
    var q := a / d;
    DivOfNatIsNat(a, d);
    assert TruncDiv(a, d) == q;
    assert ToInt32(q) == q;
    assert Eta(elapsedMs, remaining, current) == q + 1;
    assert a == d * q + a % d;
    assert (q + 1) * d == q * d + d;
  }

  /** `~~` wraps the quotient modulo 2^32: from 2^31 to 2^32 - 2 seconds the
      estimate is negative (two bytes after six seconds of a one-gigabyte
      transfer), 2^32 - 1 seconds give 0, and 2^32 seconds give 1 again. */
  lemma EtaWrapsPastInt32()
    ensures Eta(6000, 1000000000, 2) == -1294967295
    ensures Eta(6000, 1000000000, 2) < 1
    ensures Eta(4294967295, 1000, 1) == 0
    ensures Eta(4294967296, 1000, 1) == 1
  {
    assert TruncDiv(6000 * 1000000000, 1000 * 2) == 3000000000;
    assert TruncDiv(4294967295 * 1000, 1000 * 1) == 4294967295;
    assert TruncDiv(4294967296 * 1000, 1000 * 1) == 4294967296;
  }

  /** Marks a running timer as cleared; `clearInterval` on an unset or
      already cleared handle does nothing. */
  function Stop(t: Timer): (r: Timer)
    ensures !r.Running?
    ensures r.IsSet() == t.IsSet()
  {
    if t.Running? then Cleared else t
  }

  /** `cancel`: clears both intervals and changes nothing else. */
  function Cancel(b: StatusBar): (r: StatusBar)
    ensures !r.renderTimer.Running? && !r.elapsedTimer.Running?
    ensures r.renderTimer.IsSet() == b.renderTimer.IsSet()
    ensures r.elapsedTimer.IsSet() == b.elapsedTimer.IsSet()
    ensures r == b.(renderTimer := r.renderTimer, elapsedTimer := r.elapsedTimer)
    ensures Valid(b) ==> Valid(r)
  {
    b.(renderTimer := Stop(b.renderTimer), elapsedTimer := Stop(b.elapsedTimer))
  }

  /** Cancelling twice is the same as cancelling once. */
  lemma CancelIsIdempotent(b: StatusBar)
    ensures Cancel(Cancel(b)) == Cancel(b)
  {
  }

  /** `update(length)` with `_updateStats(length)`. Completion is detected by
      exact equality with the total only; a chunk that overshoots the total
      is added like any other. */
  function Update(b: StatusBar, length: nat, nowMs: int, sinceChunkNs: nat): (r: StatusBar)
    ensures r.current == b.current + length
    ensures r.total == b.total && r.hasFinish == b.hasFinish && r.frequency == b.frequency
    ensures r.stats.currentSize == r.current && r.stats.remainingSize == r.total - r.current
    ensures r.stats.percentage == Fraction(r.current, r.total)
    ensures r.secondsWithoutUpdate == 0
    ensures r.start == if b.start == 0 then nowMs else b.start
    ensures r.chunkTimestamp
    ensures r.stats.elapsedTime == b.stats.elapsedTime && r.stats.totalSize == b.stats.totalSize
    // The first chunk cannot give a speed or a remaining time.
    ensures !b.chunkTimestamp ==>
              r.stats.speed == b.stats.speed && r.stats.remainingTime == b.stats.remainingTime
    // The terminal chunk forces both to zero, whatever the timing.
    ensures b.chunkTimestamp && r.current == r.total ==>
              r.stats.speed == 0 && r.stats.remainingTime == Some(0)
    ensures b.chunkTimestamp && r.current != r.total ==>
              && r.stats.speed == SmoothedSpeed(b.stats.speed, length, sinceChunkNs)
              && r.stats.remainingTime == Some(Eta(nowMs - r.start, r.total - r.current, r.current))
    // The elapsed timer is created only when its handle is unset.
    ensures r.elapsedTimer.IsSet()
    ensures b.elapsedTimer.Cleared? ==> r.elapsedTimer.Cleared?
    ensures r.elapsedTimer.Running? <==> !b.elapsedTimer.Cleared? && r.current != r.total
    // Completion: both timers cleared, one more render, finish if supplied.
    ensures r.current == r.total ==>
              && !r.renderTimer.Running? && !r.elapsedTimer.Running?
              && r.renderTimer.IsSet() == b.renderTimer.IsSet()
              && r.renders == b.renders + 1
              && r.finishes == b.finishes + (if b.hasFinish then 1 else 0)
    ensures r.current != r.total ==>
              r.renderTimer == b.renderTimer && r.renders == b.renders && r.finishes == b.finishes
    ensures Valid(b) ==> Valid(r)
  {
    var start := if b.start == 0 then nowMs else b.start;
    var current := b.current + length;
    var end := current == b.total;
    var elapsedTimer := if b.elapsedTimer.IsSet() then b.elapsedTimer else Running;
    var remaining := b.total - current;
    var speed :=
      if !b.chunkTimestamp then b.stats.speed
      else if end then 0
      else SmoothedSpeed(b.stats.speed, length, sinceChunkNs);
    var remainingTime :=
      if !b.chunkTimestamp then b.stats.remainingTime
      else if end then Some(0)
      else Some(Eta(nowMs - start, remaining, current));
    var stats := b.stats.(
      currentSize := current,
      remainingSize := remaining,
      percentage := Fraction(current, b.total),
      speed := speed,
      remainingTime := remainingTime);
    var updated := b.(
      start := start,
      secondsWithoutUpdate := 0,
      current := current,
      elapsedTimer := elapsedTimer,
      stats := stats,
      chunkTimestamp := true);
    if current == b.total then
      var stopped := Cancel(updated);
      stopped.(
        renders := stopped.renders + 1,
        finishes := if b.hasFinish then stopped.finishes + 1 else stopped.finishes)
    else
      updated
  }

  /** One firing of the elapsed-time interval: one more second, one more tick
      without an update, and on exactly the third such tick the speed drops to
      0 and the remaining time becomes unknown. A timer that is not running
      does not fire. */
  function Tick(b: StatusBar): (r: StatusBar)
    ensures !b.elapsedTimer.Running? ==> r == b
    ensures b.elapsedTimer.Running? ==>
              && r.stats.elapsedTime == b.stats.elapsedTime + 1
              && r.secondsWithoutUpdate == b.secondsWithoutUpdate + 1
              && (r.secondsWithoutUpdate == StallTicks ==>
                    r.stats.speed == 0 && r.stats.remainingTime.None?)
              && (r.secondsWithoutUpdate != StallTicks ==>
                    r.stats.speed == b.stats.speed && r.stats.remainingTime == b.stats.remainingTime)
              && r == b.(secondsWithoutUpdate := r.secondsWithoutUpdate, stats := r.stats)
              && r.stats == b.stats.(speed := r.stats.speed,
                                     elapsedTime := r.stats.elapsedTime,
                                     remainingTime := r.stats.remainingTime)
    ensures Valid(b) ==> Valid(r)
  {
    if !b.elapsedTimer.Running? then b
    else
      var without := b.secondsWithoutUpdate + 1;
      var stats := if without == StallTicks then b.stats.(speed := 0, remainingTime := None) else b.stats;
      b.(secondsWithoutUpdate := without, stats := stats.(elapsedTime := stats.elapsedTime + 1))
  }

  /** One firing of the render interval: `render` is called with the current
      snapshot, which is not changed. */
  function RenderTick(b: StatusBar): (r: StatusBar)
    ensures b.renderTimer.Running? ==> r == b.(renders := b.renders + 1)
    ensures !b.renderTimer.Running? ==> r == b
    ensures Valid(b) ==> Valid(r)
  {
    if b.renderTimer.Running? then b.(renders := b.renders + 1) else b
  }
}
