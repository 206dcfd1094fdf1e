/**
 * `useCountdown`: whole seconds left of a repeating countdown. The clock is a
 * parameter (`now`, in milliseconds, as `Date.now()` would read it), and so is
 * the interval timer: each `Tick` is one firing of the one-second interval.
 */
module Countdown {
  import opened Numbers

  /** `Math.ceil(duration / 1000)`: the value on start, on `reset()` and on every enable. */
  function Full(duration: int): (r: int)
    ensures 1000 * (r - 1) < duration <= 1000 * r
  {
    CeilSeconds(duration)
  }

  /** The per-tick value: `max(0, ceil((duration - elapsed) / 1000))`. */
  function Remaining(duration: int, elapsed: int): (r: nat)
    ensures r > 0 ==> 1000 * (r - 1) < duration - elapsed <= 1000 * r
    ensures r == 0 <==> elapsed >= duration
  {
    Max(0, CeilSeconds(duration - elapsed))
  }

  /** Once time has started to pass, the count never shows more than the full value. */
  lemma RemainingAtMostFull(duration: int, elapsed: int)
    requires elapsed >= 0
    ensures Remaining(duration, elapsed) <= Max(0, Full(duration))
  {
    CeilSecondsMonotone(duration - elapsed, duration);
  }

  /** As more time elapses the count does not go up. */
  lemma RemainingNonIncreasing(duration: int, e1: int, e2: int)
    requires e1 <= e2
    ensures Remaining(duration, e2) <= Remaining(duration, e1)
  {
    CeilSecondsMonotone(duration - e2, duration - e1);
  }

  /** `secondsRemaining` and `startTimeRef`. */
  datatype Timer = Timer(secondsRemaining: int, startTime: int)

  /** The initial state, and what `reset()` and enabling both produce. */
  function Start(duration: int, now: int): (r: Timer)
    ensures r.secondsRemaining == Full(duration) && r.startTime == now
  {
    Timer(Full(duration), now)
  }

  /** One interval firing: the new state and whether `onComplete` was called. */
  function Tick(t: Timer, duration: int, now: int, enabled: bool): (r: (Timer, bool))
    ensures !enabled ==> r == (t, false)
    ensures enabled ==> (r.1 <==> now - t.startTime >= duration)
    ensures enabled && r.1 ==> r.0 == Start(duration, now)
    ensures enabled && !r.1 ==> r.0.startTime == t.startTime
                                && r.0.secondsRemaining == Remaining(duration, now - t.startTime)
                                && r.0.secondsRemaining >= 1
  {
    if !enabled then (t, false)
    else
      var remaining := Remaining(duration, now - t.startTime);
      if remaining == 0 then (Start(duration, now), true)
      else (Timer(remaining, t.startTime), false)
  }

  /** Between restarts, later ticks never show more seconds than earlier ones. */
  lemma TicksCountDown(t: Timer, duration: int, now1: int, now2: int)
    requires now1 <= now2
    requires !Tick(t, duration, now1, true).1
    requires !Tick(Tick(t, duration, now1, true).0, duration, now2, true).1
    ensures var t1 := Tick(t, duration, now1, true).0;
      Tick(t1, duration, now2, true).0.secondsRemaining <= t1.secondsRemaining
  {
    var t1 := Tick(t, duration, now1, true).0;
    RemainingNonIncreasing(duration, now1 - t.startTime, now2 - t.startTime);
  }

  /** A tick at or after the deadline fires once and starts a fresh countdown from that instant. */
  lemma DeadlineRestarts(duration: int, start: int, now: int)
    requires now - start >= duration
    ensures Tick(Start(duration, start), duration, now, true) == (Start(duration, now), true)
  {
  }
}
