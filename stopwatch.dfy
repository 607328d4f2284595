/**
 * Stopwatch (90file.js:958-982). `Date.now()` becomes an explicit `now` argument of
 * `start`, `stop` and `getTimeMs`.
 */
module Stopwatch {

  /** The three fields of a stopwatch. */
  datatype Watch = Watch(running: bool, startTime: int, elapsed: int)

  const Fresh := Watch(false, 0, 0)

  function AfterStart(w: Watch, now: int): Watch {
    if w.running then w else Watch(true, now, w.elapsed)
  }

  function AfterStop(w: Watch, now: int): Watch {
    if !w.running then w else Watch(false, w.startTime, w.elapsed + (now - w.startTime))
  }

  function Reading(w: Watch, now: int): int {
    if w.running then w.elapsed + (now - w.startTime) else w.elapsed
  }

  /** A running watch advances with the clock; a stopped one stands still. */
  lemma ReadingAdvances(w: Watch, t1: int, t2: int)
    ensures Reading(w, t2) - Reading(w, t1) == if w.running then t2 - t1 else 0
  {
  }

  /** Starting and stopping never make the reading jump: at the instant of the step it is unchanged. */
  lemma StartStopContinuous(w: Watch, now: int)
    ensures Reading(AfterStart(w, now), now) == Reading(w, now)
    ensures Reading(AfterStop(w, now), now) == Reading(w, now)
  {
  }

  /** A second `start` while running, or `stop` while stopped, does nothing. */
  lemma StartStopIdempotent(w: Watch, t1: int, t2: int)
    ensures AfterStart(AfterStart(w, t1), t2) == AfterStart(w, t1)
    ensures AfterStop(AfterStop(w, t1), t2) == AfterStop(w, t1)
  {
  }

  /** What a user does to the watch: `start` or `stop` at a clock reading, or `reset`. */
  datatype Op = Press(t: int) | Release(t: int) | Clear

  function Apply(w: Watch, op: Op): Watch {
    match op
    case Press(t) => AfterStart(w, t)
    case Release(t) => AfterStop(w, t)
    case Clear => Fresh
  }

  function ApplyAll(w: Watch, ops: seq<Op>): Watch
    decreases |ops|
  {
    if ops == [] then w else ApplyAll(Apply(w, ops[0]), ops[1..])
  }

  /**
   * Total running time of a session of strictly alternating start/stop pairs at
   * times `spans[k] = (start, stop)`: the sum of the lengths of the intervals.
   */
  function TotalSpan(spans: seq<(int, int)>): int {
    if spans == [] then 0 else TotalSpan(spans[..|spans| - 1]) + (spans[|spans| - 1].1 - spans[|spans| - 1].0)
  }

  function Session(spans: seq<(int, int)>): seq<Op> {
    if spans == [] then []
    else Session(spans[..|spans| - 1]) + [Press(spans[|spans| - 1].0), Release(spans[|spans| - 1].1)]
  }

  lemma {:induction false} ApplyAllAppend(w: Watch, a: seq<Op>, b: seq<Op>)
    ensures ApplyAll(w, a + b) == ApplyAll(ApplyAll(w, a), b)
    decreases |a|
  {
    if a == [] {
      assert a + b == b;
    } else {
      assert (a + b)[0] == a[0] && (a + b)[1..] == a[1..] + b;
      ApplyAllAppend(Apply(w, a[0]), a[1..], b);
    }
  }

  /**
   * After a reset and a session of start/stop pairs the watch is stopped and reads
   * the sum of the lengths of the running intervals, at any later time.
   */
  lemma {:induction false} SessionReading(spans: seq<(int, int)>, now: int)
    ensures var w := ApplyAll(Fresh, Session(spans));
      !w.running && Reading(w, now) == TotalSpan(spans)
  {
    if spans != [] {
      var init := spans[..|spans| - 1];
      var (t1, t2) := spans[|spans| - 1];
      SessionReading(init, now);
      ApplyAllAppend(Fresh, Session(init), [Press(t1), Release(t2)]);
      var w := ApplyAll(Fresh, Session(init));
      assert ApplyAll(w, [Press(t1), Release(t2)]) == AfterStop(AfterStart(w, t1), t2) by {
        var w1 := AfterStart(w, t1);
        assert [Press(t1), Release(t2)][1..] == [Release(t2)];
        assert ApplyAll(w, [Press(t1), Release(t2)]) == ApplyAll(w1, [Release(t2)]);
        assert [Release(t2)][1..] == [];
        assert ApplyAll(w1, [Release(t2)]) == ApplyAll(AfterStop(w1, t2), []);
      }
    }
  }

  /** The stopwatch object. */
  class StopwatchObj {
    var running: bool
    var startTime: int
    var elapsed: int

    function State(): Watch
      reads this
    {
      Watch(running, startTime, elapsed)
    }

    constructor ()
      ensures State() == Fresh
    {
      running, startTime, elapsed := false, 0, 0;
    }

    method Start(now: int)
      modifies this
      ensures State() == AfterStart(old(State()), now)
    {
      if running {
        return;
      }
      running := true;
      startTime := now;
    }

    method Stop(now: int)
      modifies this
      ensures State() == AfterStop(old(State()), now)
    {
      if !running {
        return;
      }
      elapsed := elapsed + (now - startTime);
      running := false;
    }

    method Reset()
      modifies this
      ensures State() == Fresh
    {
      running, startTime, elapsed := false, 0, 0;
    }

    method GetTimeMs(now: int) returns (ms: int)
      ensures ms == Reading(State(), now)
    {
      ms := if running then elapsed + (now - startTime) else elapsed;
    }
  }
}
