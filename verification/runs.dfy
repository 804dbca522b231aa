/** Sequences of events applied to a status bar, and the properties that relate
    several events: completion happens exactly once, the counters only grow,
    a stall is declared on the third silent tick, and cancelling freezes the
    timers.
 */
module Runs {
  import opened Wrappers
  import opened Tracker

  /** One event the status bar reacts to after construction. */
  datatype Event =
    | Write(length: nat, nowMs: int, sinceChunkNs: nat)
    | ElapsedTick
    | RenderTimerTick
    | CancelCall

  function Step(b: StatusBar, e: Event): StatusBar {
    match e
    case Write(length, nowMs, sinceChunkNs) => Update(b, length, nowMs, sinceChunkNs)
    case ElapsedTick => Tick(b)
    case RenderTimerTick => RenderTick(b)
    case CancelCall => Cancel(b)
  }

  /** The state after the events, in order. */
  function Run(b: StatusBar, es: seq<Event>): StatusBar
    decreases |es|
  {
    if |es| == 0 then b else Run(Step(b, es[0]), es[1..])
  }

  /** Bytes written by the events. */
  function Written(es: seq<Event>): nat
    decreases |es|
  {
    if |es| == 0 then 0
    else (if es[0].Write? then es[0].length else 0) + Written(es[1..])
  }

  predicate PositiveWrites(es: seq<Event>) {
    forall k :: 0 <= k < |es| && es[k].Write? ==> es[k].length > 0
  }

  /** `k` ticks of the elapsed-time interval. */
  function Ticks(k: nat): (r: seq<Event>)
    ensures |r| == k
  {
    if k == 0 then [] else [ElapsedTick] + Ticks(k - 1)
  }

  /** Every event keeps the state valid. */
  lemma {:induction false} RunKeepsValid(b: StatusBar, es: seq<Event>)
    requires Valid(b)
    ensures Valid(Run(b, es))
    decreases |es|
  {
    if |es| > 0 {
      RunKeepsValid(Step(b, es[0]), es[1..]);
    }
  }

  /** The byte count grows by exactly what is written; the elapsed seconds and
      the render and finish counts never decrease; the total and the `finish`
      callback never change. */
  lemma {:induction false} RunIsMonotone(b: StatusBar, es: seq<Event>)
    ensures var r := Run(b, es);
            && r.current == b.current + Written(es)
            && r.total == b.total && r.hasFinish == b.hasFinish
            && r.stats.elapsedTime >= b.stats.elapsedTime
            && r.renders >= b.renders
            && r.finishes >= b.finishes
    decreases |es|
  {
    if |es| > 0 {
      RunIsMonotone(Step(b, es[0]), es[1..]);
    }
  }

  /** Once both timers are stopped, ticks and cancels change nothing. */
  lemma {:induction false} QuietRunChangesNothing(b: StatusBar, es: seq<Event>)
    requires !b.renderTimer.Running? && !b.elapsedTimer.Running?
    requires forall k :: 0 <= k < |es| ==> !es[k].Write?
    ensures Run(b, es) == b
    decreases |es|
  {
    if |es| > 0 {
      QuietRunChangesNothing(Step(b, es[0]), es[1..]);
    }
  }

  lemma {:induction false} NothingWritten(es: seq<Event>)
    requires PositiveWrites(es) && Written(es) == 0
    ensures forall k :: 0 <= k < |es| ==> !es[k].Write?
    decreases |es|
  {
    if |es| > 0 {
      NothingWritten(es[1..]);
      forall k | 0 < k < |es|
        ensures !es[k].Write?
      {
        assert es[1..][k - 1] == es[k];
      }
    }
  }

  /** Writes of positive length that add up to what is missing complete the
      transfer exactly once: the count reaches the total, the percentage is
      1, both timers are stopped and `finish` has run once (if supplied),
      whatever ticks and cancels are interleaved. */
  lemma {:induction false} CompletesExactlyOnce(b: StatusBar, es: seq<Event>)
    requires Valid(b)
    requires b.current < b.total
    requires PositiveWrites(es)
    requires b.current + Written(es) == b.total
    ensures var r := Run(b, es);
            && r.current == r.total
            && r.stats.percentage.IsOne()
            && !r.renderTimer.Running? && !r.elapsedTimer.Running?
            && r.finishes == b.finishes + (if b.hasFinish then 1 else 0)
    decreases |es|
  {
    assert |es| > 0;
    var e := es[0];
    var next := Step(b, e);
    var rest := es[1..];
    assert PositiveWrites(rest) by {
      forall k | 0 <= k < |rest| && rest[k].Write?
        ensures rest[k].length > 0
      {
        assert rest[k] == es[k + 1];
      }
    }
    if e.Write? && b.current + e.length == b.total {
      NothingWritten(rest);
      QuietRunChangesNothing(next, rest);
    } else {
      assert next.current < next.total && next.finishes == b.finishes;
      CompletesExactlyOnce(next, rest);
    }
  }

  /** From construction: a positive total written in positive chunks, with any
      ticks and cancels in between, ends with the whole total counted, the
      percentage at 1, and `finish` called exactly once. */
  lemma TransferFinishesOnce(o: Options, es: seq<Event>)
    requires o.total.Some? && 0 < o.total.value < JsNumber.TwoTo31
    requires o.render && o.finish
    requires PositiveWrites(es) && Written(es) == o.total.value
    ensures Create(o).Success?
    ensures var r := Run(Create(o).value, es);
            && r.current == o.total.value
            && r.stats.percentage.IsOne()
            && r.finishes == 1
            && !r.renderTimer.Running? && !r.elapsedTimer.Running?
  {
    var b := Create(o).value;
    assert JsNumber.IsInt32(o.total.value);
    assert b.total == o.total.value;
    CompletesExactlyOnce(b, es);
    RunIsMonotone(b, es);
  }

  /** A zero-length write to a completed status bar meets `_current === _total`
      again: it renders once more and calls `finish` a second time. */
  lemma EmptyWriteFinishesAgain(o: Options, es: seq<Event>, nowMs: int, sinceChunkNs: nat)
    requires o.total.Some? && 0 < o.total.value < JsNumber.TwoTo31
    requires o.render && o.finish
    requires PositiveWrites(es) && Written(es) == o.total.value
    ensures Create(o).Success?
    ensures var done := Run(Create(o).value, es);
            var again := Update(done, 0, nowMs, sinceChunkNs);
            && done.finishes == 1
            && again.finishes == 2 && again.renders == done.renders + 1
  {
    var b := Create(o).value;
    TransferFinishesOnce(o, es);
    assert JsNumber.IsInt32(o.total.value);
    assert b.total == o.total.value && b.hasFinish;
    RunIsMonotone(b, es);
  }

  /** A transfer completed by its very first chunk never had a chunk timestamp,
      so the snapshot keeps speed 0 and an undefined remaining time. */
  lemma OneChunkTransfer(o: Options, nowMs: int, sinceChunkNs: nat)
    requires o.total.Some? && 0 < o.total.value < JsNumber.TwoTo31 && o.render
    ensures Create(o).Success?
    ensures var r := Update(Create(o).value, o.total.value, nowMs, sinceChunkNs);
            && r.current == r.total && r.stats.percentage.IsOne()
            && r.stats.speed == 0 && r.stats.remainingTime.None?
            && r.renders == 2 && r.finishes == (if o.finish then 1 else 0)
            && !r.renderTimer.Running? && !r.elapsedTimer.Running?
  {
    var b := Create(o).value;
    assert JsNumber.IsInt32(o.total.value);
    assert b.total == o.total.value && !b.chunkTimestamp;
  }

  predicate NoCancel(es: seq<Event>) {
    forall k :: 0 <= k < |es| ==> !es[k].CancelCall?
  }

  /** With a negative total (what `~~` makes of a total from 2^31 to 2^32 - 1)
      the count, which never goes below 0, never equals the total: nothing
      ever renders again, `finish` is never called, and without a `cancel`
      the elapsed timer, once started by a write, keeps running. */
  lemma {:induction false} NegativeTotalNeverFinishes(b: StatusBar, es: seq<Event>)
    requires Valid(b) && b.total < 0
    ensures var r := Run(b, es);
            && Valid(r)
            && r.current == b.current + Written(es)
            && r.renders == b.renders && r.finishes == b.finishes
            && ((NoCancel(es) && !b.elapsedTimer.Cleared? && (b.elapsedTimer.Running? || Written(es) > 0))
                  ==> r.elapsedTimer.Running?)
    decreases |es|
  {
    if |es| > 0 {
      var next := Step(b, es[0]);
      var rest := es[1..];
      assert NoCancel(es) ==> NoCancel(rest) by {
        if NoCancel(es) {
          forall k | 0 <= k < |rest|
            ensures !rest[k].CancelCall?
          {
            assert rest[k] == es[k + 1];
          }
        }
      }
      assert NoCancel(es) ==> !es[0].CancelCall?;
      NegativeTotalNeverFinishes(next, rest);
    }
  }

  /** A total of 3 * 10^9 bytes wraps to -1294967296: the constructor creates
      no render timer, and writing all the bytes neither finishes the
      transfer nor stops the elapsed timer. */
  lemma HugeTotalNeverFinishes(nowMs: int, sinceChunkNs: nat)
    ensures Create(Options(Some(3000000000), true, None, true)).Success?
    ensures var b := Create(Options(Some(3000000000), true, None, true)).value;
            var r := Update(b, 3000000000, nowMs, sinceChunkNs);
            && b.total == -1294967296 && b.renderTimer == Unset
            && r.current == 3000000000 && r.finishes == 0 && r.elapsedTimer.Running?
  {
  }

  /** A total of 2^32 + 10 bytes wraps to 10: the transfer completes, and
      calls `finish`, after the first ten bytes. */
  lemma TotalPast2To32FinishesEarly(nowMs: int, sinceChunkNs: nat)
    ensures Create(Options(Some(4294967306), true, None, true)).Success?
    ensures var b := Create(Options(Some(4294967306), true, None, true)).value;
            var r := Update(b, 10, nowMs, sinceChunkNs);
            && b.total == 10
            && r.current == 10 && r.stats.percentage.IsOne() && r.finishes == 1
  {
    assert JsNumber.ToInt32(4294967306) == 10;
  }

  /** `k` silent ticks of a running elapsed timer, starting `c` ticks after the
      last update: the clock advances by `k` seconds, and the speed and
      remaining time are knocked out exactly when the count passes 3. */
  lemma {:induction false} SilentTicks(b: StatusBar, k: nat)
    requires b.elapsedTimer.Running?
    ensures var r := Run(b, Ticks(k));
            var c := b.secondsWithoutUpdate;
            && r.stats.elapsedTime == b.stats.elapsedTime + k
            && r.secondsWithoutUpdate == c + k
            && r.current == b.current && r.renders == b.renders && r.finishes == b.finishes
            && r.elapsedTimer == b.elapsedTimer
            && (c < StallTicks <= c + k ==> r.stats.speed == 0 && r.stats.remainingTime.None?)
            && (c + k < StallTicks || StallTicks <= c ==>
                  r.stats.speed == b.stats.speed && r.stats.remainingTime == b.stats.remainingTime)
    decreases k
  {
    if k > 0 {
      assert Ticks(k)[1..] == Ticks(k - 1);
      SilentTicks(Tick(b), k - 1);
    }
  }

  /** After an update, the third tick without another update declares a
      stall, the first two do not; the next update resets the count and,
      when it is neither the first nor the last chunk, restarts the speed
      from the instantaneous rate and gives a remaining time again. */
  lemma StallAndResume(b: StatusBar, length: nat, nowMs: int, sinceChunkNs: nat)
    requires b.elapsedTimer.Running? && b.secondsWithoutUpdate == 0
    requires b.chunkTimestamp
    requires b.current + length != b.total
    ensures var two := Run(b, Ticks(2));
            two.stats.speed == b.stats.speed && two.stats.remainingTime == b.stats.remainingTime
    ensures var three := Run(b, Ticks(3));
            three.stats.speed == 0 && three.stats.remainingTime.None?
    ensures var resumed := Update(Run(b, Ticks(3)), length, nowMs, sinceChunkNs);
            && resumed.secondsWithoutUpdate == 0
            && resumed.stats.speed == SmoothedSpeed(0, length, sinceChunkNs)
            && resumed.stats.remainingTime.Some?
  {
    SilentTicks(b, 2);
    SilentTicks(b, 3);
  }

  /** A cancelled status bar ignores ticks, and a later chunk does not restart
      an elapsed timer that had been created. */
  lemma CancelFreezesTimers(b: StatusBar, length: nat, nowMs: int, sinceChunkNs: nat)
    ensures Tick(Cancel(b)) == Cancel(b)
    ensures RenderTick(Cancel(b)) == Cancel(b)
    ensures b.elapsedTimer.IsSet() ==>
              !Update(Cancel(b), length, nowMs, sinceChunkNs).elapsedTimer.Running?
  {
  }

  /** Cancelling before the first chunk leaves the elapsed handle unset, so
      the first chunk still starts the elapsed timer. */
  lemma CancelBeforeFirstChunk(b: StatusBar, length: nat, nowMs: int, sinceChunkNs: nat)
    requires Valid(b) && !b.chunkTimestamp
    requires length != b.total
    ensures Update(Cancel(b), length, nowMs, sinceChunkNs).elapsedTimer.Running?
  {
  }

  /** A zero-size transfer is born complete: percentage 1, remaining time 0,
      no timer at all, one render, and no event other than a write changes
      it. Its `finish` is never called by the constructor. */
  lemma ZeroSizeIsBornComplete(o: Options, es: seq<Event>)
    requires o.total == Some(0) && o.render
    requires forall k :: 0 <= k < |es| ==> !es[k].Write?
    ensures Create(o).Success?
    ensures var b := Create(o).value;
            && b.stats.percentage.IsOne() && b.stats.remainingTime == Some(0)
            && b.renderTimer == Unset && b.elapsedTimer == Unset
            && b.renders == 1 && b.finishes == 0
            && Run(b, es) == b
  {
    QuietRunChangesNothing(Create(o).value, es);
  }

  /** The three-chunk transfer of 1000 bytes: 250 bytes at clock time `t0`,
      250 bytes one second later, then the last 500 bytes one second after
      that. */
  lemma ThreeChunkTransfer(t0: int)
    requires t0 > 0
    ensures var b := Create(Options(Some(1000), true, None, true)).value;
            var one := Update(b, 250, t0, 0);
            var two := Update(one, 250, t0 + 1000, 1000000000);
            var three := Update(two, 500, t0 + 2000, 1000000000);
            && one.stats.percentage == Fraction(250, 1000)
            && one.stats.speed == 0 && one.stats.remainingTime.None?
            && two.stats.remainingSize == 500
            && two.stats.speed == 250
            && two.stats.remainingTime == Some(2)
            && three.current == 1000 && three.stats.percentage.IsOne()
            && three.stats.speed == 0 && three.stats.remainingTime == Some(0)
            && three.renders == 2 && three.finishes == 1
            && !three.renderTimer.Running? && !three.elapsedTimer.Running?
  {
    var b := Create(Options(Some(1000), true, None, true)).value;
    var one := Update(b, 250, t0, 0);
    FirstOfThree(t0);
    SecondOfThree(one, t0);
    var two := Update(one, 250, t0 + 1000, 1000000000);
    LastOfThree(two, t0);
  }

  lemma FirstOfThree(t0: int)
    requires t0 > 0
    ensures var b := Create(Options(Some(1000), true, None, true)).value;
            var one := Update(b, 250, t0, 0);
            && one.total == 1000 && one.current == 250 && one.start == t0
            && one.chunkTimestamp && one.hasFinish
            && one.stats.percentage == Fraction(250, 1000)
            && one.stats.speed == 0 && one.stats.remainingTime.None?
            && one.renders == 1 && one.finishes == 0
  {
  }

  lemma SecondOfThree(one: StatusBar, t0: int)
    requires one.total == 1000 && one.current == 250 && one.start == t0 && t0 > 0
    requires one.chunkTimestamp && one.stats.speed == 0
    requires one.hasFinish && one.renders == 1 && one.finishes == 0
    ensures var two := Update(one, 250, t0 + 1000, 1000000000);
            && two.total == 1000 && two.current == 500 && two.chunkTimestamp
            && two.hasFinish && two.renders == 1 && two.finishes == 0
            && two.stats.remainingSize == 500
            && two.stats.speed == 250
            && two.stats.remainingTime == Some(2)
  {
    assert LastSpeed(250, 1000000000) == 250.0;
    assert RawSpeed(0, 250, 1000000000) == 250.0;
    assert Eta(1000, 500, 500) == 2;
    assert t0 + 1000 - t0 == 1000;
  }

  lemma LastOfThree(two: StatusBar, t0: int)
    requires two.total == 1000 && two.current == 500 && two.chunkTimestamp
    requires two.hasFinish && two.renders == 1 && two.finishes == 0
    ensures var three := Update(two, 500, t0 + 2000, 1000000000);
            && three.current == 1000 && three.stats.percentage.IsOne()
            && three.stats.speed == 0 && three.stats.remainingTime == Some(0)
            && three.renders == 2 && three.finishes == 1
            && !three.renderTimer.Running? && !three.elapsedTimer.Running?
  {
  }
}
