/**
 * The frame loop's 20-second window: after each frame the loop compares
 * the clock with the start of the current window and, once the interval
 * has elapsed, hands the store to the plotter, clears it and starts a new
 * window. The clock is a parameter.
 */
module Session {
  import opened Trajectory
  import opened Tracker

  /** Length of a window, in seconds of the loop's clock. */
  const FlushInterval: real := 20.0

  /** The loop flushes once at least a full interval has passed since the window started. */
  predicate ShouldFlush(start: real, now: real)
  {
    now - start >= FlushInterval
  }

  /** The window start after a tick at time now. */
  function NextStart(start: real, now: real): real
  {
    if ShouldFlush(start, now) then now else start
  }

  /** The clock readings, among successive ticks, at which the loop flushes. */
  function FlushTimes(start: real, times: seq<real>): seq<real>
    decreases |times|
  {
    if |times| == 0 then []
    else if ShouldFlush(start, times[0]) then [times[0]] + FlushTimes(times[0], times[1..])
    else FlushTimes(start, times[1..])
  }

  /**
   * One tick of the schedule: the tick flushes exactly when ShouldFlush holds,
   * and the remaining ticks run from the window start NextStart leaves, as
   * Tick leaves it in the start field.
   */
  lemma FlushTimesStep(start: real, now: real, rest: seq<real>)
    ensures FlushTimes(start, [now] + rest)
         == (if ShouldFlush(start, now) then [now] else []) + FlushTimes(NextStart(start, now), rest)
  {
    assert ([now] + rest)[1..] == rest;
  }

  /** A run flushes at least once exactly when some tick is due against the initial window start. */
  lemma {:induction false} FlushIffDue(start: real, times: seq<real>)
    ensures |FlushTimes(start, times)| > 0 <==> exists i :: 0 <= i < |times| && ShouldFlush(start, times[i])
    decreases |times|
  {
    if |times| > 0 && !ShouldFlush(start, times[0]) {
      FlushIffDue(start, times[1..]);
      if exists i :: 0 <= i < |times| && ShouldFlush(start, times[i]) {
        var i :| 0 <= i < |times| && ShouldFlush(start, times[i]);
        assert times[1..][i - 1] == times[i];
      }
      if exists i :: 0 <= i < |times[1..]| && ShouldFlush(start, times[1..][i]) {
        var i :| 0 <= i < |times[1..]| && ShouldFlush(start, times[1..][i]);
        assert times[i + 1] == times[1..][i];
      }
    }
  }

  /**
   * The first flush is the first tick at least one interval after the window
   * start, and the rest of the schedule restarts from that tick.
   */
  lemma {:induction false} FlushAtFirstDue(start: real, times: seq<real>, k: nat)
    requires k < |times| && ShouldFlush(start, times[k])
    requires forall j :: 0 <= j < k ==> !ShouldFlush(start, times[j])
    ensures FlushTimes(start, times) == [times[k]] + FlushTimes(times[k], times[k + 1..])
    decreases k
  {
    if k > 0 {
      assert !ShouldFlush(start, times[0]);
      FlushAtFirstDue(start, times[1..], k - 1);
      assert times[1..][k - 1] == times[k];
      assert times[1..][k..] == times[k + 1..];
    }
  }

  /** Flushes are at least one interval apart, and the first one at least one interval after the start. */
  lemma {:induction false} FlushTimesSpaced(start: real, times: seq<real>)
    ensures var ft := FlushTimes(start, times);
      && (|ft| > 0 ==> ft[0] - start >= FlushInterval)
      && (forall i :: 0 < i < |ft| ==> ft[i] - ft[i - 1] >= FlushInterval)
    decreases |times|
  {
    if |times| > 0 {
      if ShouldFlush(start, times[0]) {
        FlushTimesSpaced(times[0], times[1..]);
      } else {
        FlushTimesSpaced(start, times[1..]);
      }
    }
  }

  /** Every flush happens at one of the ticks. */
  lemma {:induction false} FlushTimesAreTicks(start: real, times: seq<real>)
    ensures forall i :: 0 <= i < |FlushTimes(start, times)| ==> FlushTimes(start, times)[i] in times
    decreases |times|
  {
    if |times| > 0 {
      FlushTimesAreTicks(if ShouldFlush(start, times[0]) then times[0] else start, times[1..]);
    }
  }

  /** At most one flush per interval: n flushes by time horizon need n intervals after the start. */
  lemma {:induction false} FlushCountBound(start: real, times: seq<real>, horizon: real)
    requires forall i :: 0 <= i < |times| ==> times[i] <= horizon
    ensures |FlushTimes(start, times)| > 0 ==> |FlushTimes(start, times)| as real * FlushInterval <= horizon - start
    decreases |times|
  {
    if |times| > 0 {
      var s' := if ShouldFlush(start, times[0]) then times[0] else start;
      FlushCountBound(s', times[1..], horizon);
    }
  }

  /** The frame loop's state: the tracker and the start of the current window. */
  class TrackingSession {
    const tracker: TrajectoryTracker
    var start: real

    ghost predicate Valid()
      reads this, tracker
    {
      tracker.Valid()
    }

    /** A fresh, empty tracker; the first window starts at now. */
    constructor (now: real)
      ensures Valid() && fresh(tracker)
      ensures tracker.trajectory == map[] && start == now
    {
      tracker := new TrajectoryTracker();
      start := now;
    }

    /**
     * The clock check after a frame. Once the interval has elapsed it returns
     * the store as it was (the plotter's input), clears it and restarts the
     * window at now; otherwise nothing changes and nothing is plotted.
     */
    method Tick(now: real) returns (plotted: Option<Store>)
      requires Valid()
      modifies this, tracker
      ensures Valid()
      ensures plotted.Some? <==> ShouldFlush(old(start), now)
      ensures start == NextStart(old(start), now)
      ensures plotted.Some? ==> plotted.value == old(tracker.trajectory) && tracker.trajectory == map[]
      ensures plotted.None? ==> tracker.trajectory == old(tracker.trajectory)
    {
      if now - start >= FlushInterval {
        plotted := Some(tracker.trajectory);
        tracker.Clear();
        start := now;
      } else {
        plotted := None;
      }
    }

    /** One pass of the frame loop: update the tracker with the frame, then check the clock. */
    method Step(frame: Frame, detection: Detection, now: real) returns (plotted: Option<Store>)
      requires Valid()
      modifies this, tracker
      ensures Valid()
      ensures plotted.Some? <==> ShouldFlush(old(start), now)
      ensures start == NextStart(old(start), now)
      ensures plotted.Some? ==> plotted.value == UpdateStore(old(tracker.trajectory), frame, detection)
      ensures tracker.trajectory == if plotted.Some? then map[] else UpdateStore(old(tracker.trajectory), frame, detection)
    {
      tracker.UpdateTrajectory(frame, detection);
      plotted := Tick(now);
    }
  }
}
