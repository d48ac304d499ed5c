/** Bevy's non-repeating `Timer`, measured in whole milliseconds. `tick`
    advances it while it runs; `just_finished` is true only on the one tick
    on which it reaches its duration. */
module Timer {

  datatype Timer = Timer(duration: nat, elapsed: nat, paused: bool, finished: bool, justFinished: bool)

  /** A timer never runs past its duration, and it has only just finished
      when it has finished. */
  predicate Valid(t: Timer) {
    t.elapsed <= t.duration && (t.justFinished ==> t.finished)
  }

  /** `Timer::new(duration, false)` / `Timer::from_seconds(duration, false)`. */
  function New(duration: nat): (t: Timer)
    ensures Valid(t) && t.duration == duration && t.elapsed == 0
    ensures !t.paused && !t.finished && !t.justFinished
  {
    Timer(duration, 0, false, false, false)
  }

  /** `Timer::default()`: a zero-length timer. */
  function Default(): Timer {
    New(0)
  }

  /** `Timer::tick(delta)` for a non-repeating timer. */
  function Tick(t: Timer, delta: nat): (r: Timer)
    ensures r.duration == t.duration && r.paused == t.paused
    ensures Valid(t) ==> Valid(r)
    ensures r.justFinished <==> !t.paused && !t.finished && t.elapsed + delta >= t.duration
    ensures t.paused ==> r.elapsed == t.elapsed && r.finished == t.finished
    ensures t.finished ==> r.finished && r.elapsed == t.elapsed
    ensures !t.paused && !t.finished ==> r.finished == (t.elapsed + delta >= t.duration)
    ensures !t.paused && !t.finished && !r.finished ==> r.elapsed == t.elapsed + delta
    ensures r.finished ==> r.elapsed == t.elapsed || r.elapsed == t.duration
  {
    if t.paused || t.finished then
      t.(justFinished := false)
    else if t.elapsed + delta >= t.duration then
      t.(elapsed := t.duration, finished := true, justFinished := true)
    else
      t.(elapsed := t.elapsed + delta, finished := false, justFinished := false)
  }

  /** `Timer::reset`: back to zero, the paused flag is kept. */
  function Reset(t: Timer): (r: Timer)
    ensures Valid(r) && r.elapsed == 0 && !r.finished && !r.justFinished
    ensures r.duration == t.duration && r.paused == t.paused
  {
    t.(elapsed := 0, finished := false, justFinished := false)
  }

  function Pause(t: Timer): Timer {
    t.(paused := true)
  }

  function Unpause(t: Timer): Timer {
    t.(paused := false)
  }

  /** Once finished, a timer never reports `just_finished` again until it is
      reset, however it is ticked. */
  lemma {:induction false} FinishesAtMostOnce(t: Timer, deltas: seq<nat>)
    requires t.finished
    ensures TickAll(t, deltas).finished
    ensures |deltas| > 0 ==> !TickAll(t, deltas).justFinished
    decreases |deltas|
  {
    if |deltas| > 0 {
      FinishesAtMostOnce(Tick(t, deltas[0]), deltas[1..]);
    }
  }

  /** Ticks a timer by every delta in turn. */
  function TickAll(t: Timer, deltas: seq<nat>): Timer
    decreases |deltas|
  {
    if |deltas| == 0 then t else TickAll(Tick(t, deltas[0]), deltas[1..])
  }

  /** A running timer that started from zero finishes exactly when the sum of
      its ticks reaches the duration (frame-rate independence of the timers). */
  lemma {:induction false} FinishesWhenTotalReached(t: Timer, deltas: seq<nat>)
    requires !t.paused && !t.finished && Valid(t)
    ensures |deltas| > 0 ==> (TickAll(t, deltas).finished <==> t.elapsed + Sum(deltas) >= t.duration)
    decreases |deltas|
  {
    if |deltas| > 0 {
      var t1 := Tick(t, deltas[0]);
      if t1.finished {
        FinishesAtMostOnce(t1, deltas[1..]);
      } else if |deltas| > 1 {
        FinishesWhenTotalReached(t1, deltas[1..]);
      }
    }
  }

  function Sum(deltas: seq<nat>): nat
    decreases |deltas|
  {
    if |deltas| == 0 then 0 else deltas[0] + Sum(deltas[1..])
  }
}
