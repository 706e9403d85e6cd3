/** The polling front end `MinHeapTimerLoop`: the timer engine plus the
    shortest interval asked for so far, whose tenth is the period at which
    the polling thread runs the expiration sweep. The thread, its start and
    stop, and the sleeping are not part of this model; what remains is the
    tracker that every scheduling request updates. */
module TimerLoop {
  import opened TimerNode
  import opened TimerEngine

  /** The running minimum of the intervals s, starting from init: the value
      of the tracker after the requests s, when it started at init. */
  function MinOf(init: nat, s: seq<nat>): (m: nat)
    ensures m <= init
    ensures forall i :: 0 <= i < |s| ==> m <= s[i]
    ensures m == init || exists i :: 0 <= i < |s| && m == s[i]
    decreases |s|
  {
    if |s| == 0 then init
    else
      var m := MinOf(init, s[..|s| - 1]);
      if m > s[|s| - 1] then s[|s| - 1] else m
  }

  /** One more request updates the running minimum the way the tracker
      does: it is replaced only by a strictly smaller interval. */
  lemma MinOfAppend(init: nat, s: seq<nat>, t: nat)
    ensures MinOf(init, s + [t]) == if MinOf(init, s) > t then t else MinOf(init, s)
  {
    assert (s + [t])[..|s|] == s;
  }

  /** The running minimum never grows as requests come in. */
  lemma {:induction false} MinOfMonotone(init: nat, s: seq<nat>, n: nat)
    requires n <= |s|
    ensures MinOf(init, s) <= MinOf(init, s[..n])
    decreases |s| - n
  {
    if n < |s| {
      MinOfMonotone(init, s, n + 1);
      assert s[..n + 1][..n] == s[..n];
    } else {
      assert s[..n] == s;
    }
  }

  class MinHeapTimerLoop {
    /** The engine the front end extends. */
    const timer: MinHeapTimer
    /** The shortest interval seen (`min_timing_time_ms`). */
    var minTimingMs: nat
    /** The intervals requested through AddTimer, in order. */
    ghost var requested: seq<nat>
    /** The loop period the tracker starts from (`TIMER_LOOP_TIME`). */
    ghost const initialMs: nat

    /** The engine is valid, and the tracker holds the running minimum of
        the starting period and every interval requested. */
    ghost predicate Valid()
      reads this, timer
    {
      timer.Valid() && minTimingMs == MinOf(initialMs, requested)
    }

    /** A front end with no timers whose tracker starts at loopTimeMs. */
    constructor (loopTimeMs: nat)
      ensures Valid() && fresh(timer)
      ensures timer.Timers() == map[] && timer.count == 0
      ensures minTimingMs == loopTimeMs && requested == []
    {
      timer := new MinHeapTimer();
      minTimingMs := loopTimeMs;
      requested := [];
      initialMs := loopTimeMs;
    }

    /** Schedules a timer (the `_addTimer` override): the tracker takes the
        interval if it is shorter than the shortest so far, then the engine
        inserts the timer as usual. */
    method AddTimer(now: nat, timingMs: nat, isLoop: bool) returns (id: int)
      requires Valid()
      modifies this`minTimingMs, this`requested, timer`heap, timer`slot, timer`count
      ensures Valid()
      ensures requested == old(requested) + [timingMs]
      ensures minTimingMs <= old(minTimingMs) && minTimingMs <= timingMs
      ensures minTimingMs == old(minTimingMs) || minTimingMs == timingMs
      ensures id == old(timer.count) + 1 && timer.count == id
      ensures timer.Timers() == old(timer.Timers())[id := Timer(now + timingMs, timingMs, isLoop)]
    {
      MinOfAppend(initialMs, requested, timingMs);
      if minTimingMs > timingMs {
        minTimingMs := timingMs;
      }
      requested := requested + [timingMs];
      id := timer.AddTimer(now, timingMs, isLoop);
    }

    /** The sleep between two sweeps of the polling thread: a tenth of the
        shortest interval, rounded down, so 0 once an interval below 10 ms
        has been requested. */
    function PollPeriodMs(): (ms: nat)
      reads this
      ensures ms * 10 <= minTimingMs < ms * 10 + 10
    {
      minTimingMs / 10
    }

    /** Ten poll periods fit into the starting period and into every
        requested interval. */
    lemma PollPeriodBound()
      requires Valid()
      ensures PollPeriodMs() * 10 <= initialMs
      ensures forall i :: 0 <= i < |requested| ==> PollPeriodMs() * 10 <= requested[i]
    {
    }
  }
}
