/**
 * The engine's repeating `Timer`, as far as `Animation` uses it. The engine
 * source is not part of this model; durations are whole nanoseconds and
 * only the repeating mode, unpaused, is described: a tick adds to the
 * elapsed time, and when it reaches the duration the timer reports
 * `finished` and keeps only the remainder.
 */
module Timers {

  datatype Timer = Timer(duration: nat, elapsed: nat, finished: bool)

  /** What a repeating timer keeps between ticks: less than one period. */
  predicate Valid(t: Timer)
  {
    if t.duration == 0 then t.elapsed == 0 else t.elapsed < t.duration
  }

  /** `Timer::new(duration, TimerMode::Repeating)`. */
  function NewRepeating(duration: nat): (t: Timer)
    ensures Valid(t) && t.duration == duration && t.elapsed == 0 && !t.finished
  {
    Timer(duration, 0, false)
  }

  /** `Timer::tick(delta)` in repeating mode. */
  function Tick(t: Timer, delta: nat): (r: Timer)
    ensures Valid(r) && r.duration == t.duration
    ensures r.finished <==> t.elapsed + delta >= t.duration
    ensures !r.finished ==> r.elapsed == t.elapsed + delta
    ensures r.finished && t.duration > 0 ==> r.elapsed == (t.elapsed + delta) % t.duration
  {
    var elapsed := t.elapsed + delta;
    if elapsed >= t.duration then
      Timer(t.duration, if t.duration == 0 then 0 else elapsed % t.duration, true)
    else
      Timer(t.duration, elapsed, false)
  }

  /** `Timer::remaining()`: the time left in the current period. */
  function Remaining(t: Timer): (r: nat)
    ensures Valid(t) ==> t.elapsed + r == t.duration
  {
    if t.elapsed <= t.duration then t.duration - t.elapsed else 0
  }

  /** Ticking a timer by exactly its remaining time finishes it and starts a new period. */
  lemma TickRemaining(t: Timer)
    requires Valid(t)
    ensures Tick(t, Remaining(t)).finished
    ensures Tick(t, Remaining(t)).elapsed == 0
  {
  }

  /** A tick shorter than the remaining time never finishes the timer. */
  lemma TickShort(t: Timer, delta: nat)
    requires Valid(t) && delta < Remaining(t)
    ensures !Tick(t, delta).finished
    ensures Remaining(Tick(t, delta)) == Remaining(t) - delta
  {
  }
}
