/**
 * throttle (90file.js:4-27) with leading and trailing invocation. The wall clock
 * (`Date.now()`) becomes an explicit `now` argument of every step, and the
 * `setTimeout` callback becomes a separate step `Fire`, which the host runs only
 * for an armed timer and no earlier than the time it was armed for. `fn` itself is
 * not modelled; each step says with which arguments it invoked `fn`, if at all.
 */
module Throttle {
  import opened Common

  /**
   * The closure's variables: `last` (time of the last invocation, initially 0),
   * whether `timer` is armed and the time `due` it was armed for, and `lastArgs`.
   */
  datatype ThrottleState<A> = ThrottleState(last: int, armed: bool, due: int, lastArgs: Option<A>)

  function Start<A>(): ThrottleState<A> { ThrottleState(0, false, 0, None) }

  /** An armed timer is due one window after the last invocation and has arguments to pass. */
  predicate Inv<A>(wait: int, s: ThrottleState<A>) {
    s.armed ==> s.due == s.last + wait && s.lastArgs.Some?
  }

  /** A call of the throttled function at time `now`: new state and the arguments `fn` ran with, if it ran. */
  function OnCall<A>(wait: int, s: ThrottleState<A>, now: int, args: A): (ThrottleState<A>, Option<A>) {
    var remaining := wait - (now - s.last);
    if remaining <= 0 then (ThrottleState(now, false, s.due, Some(args)), Some(args))
    else if !s.armed then (ThrottleState(s.last, true, now + remaining, Some(args)), None)
    else (s.(lastArgs := Some(args)), None)
  }

  /** The timer callback at time `now`: the timer is disarmed, `last` is reset and `fn` runs with `lastArgs`. */
  function OnTimer<A>(s: ThrottleState<A>, now: int): (ThrottleState<A>, A)
    requires s.armed && s.lastArgs.Some?
  {
    (ThrottleState(now, false, s.due, s.lastArgs), s.lastArgs.value)
  }

  /**
   * Leading edge: a call at least one window after the last invocation runs `fn`
   * at once with this call's arguments, clears any armed timer and sets `last`.
   * Trailing edge: a call inside the window never runs `fn` synchronously; it
   * remembers its arguments and arms a timer only if none is armed, keeping the
   * armed one's due time otherwise.
   */
  lemma ThrottledEdges<A>(wait: int, s: ThrottleState<A>, now: int, args: A)
    ensures var (s', ran) := OnCall(wait, s, now, args);
      s'.lastArgs == Some(args) &&
      (now - s.last >= wait ==> ran == Some(args) && !s'.armed && s'.last == now) &&
      (now - s.last < wait ==> ran == None && s'.armed && s'.last == s.last &&
                               (s.armed ==> s'.due == s.due))
  {
  }

  /** Both steps keep the timer due one window after the last invocation. */
  lemma StepsKeepInv<A>(wait: int, s: ThrottleState<A>, now: int, args: A)
    requires Inv(wait, s)
    ensures Inv(wait, OnCall(wait, s, now, args).0)
    ensures s.armed ==> Inv(wait, OnTimer(s, now).0)
  {
  }

  /** What the host can do next: call the throttled function, or run the timer callback. */
  datatype Event<A> = CallAt(now: int, args: A) | FireAt(now: int)

  /** The host runs a timer callback only for an armed timer and not before it is due. */
  predicate CanFire<A>(s: ThrottleState<A>, now: int) {
    s.armed && s.lastArgs.Some? && now >= s.due
  }

  /**
   * The state after a run of events, and each invocation of `fn` as (time, arguments).
   * A `FireAt` event the host could not deliver (no timer armed, or not yet due) is dropped.
   */
  function Run<A>(wait: int, events: seq<Event<A>>): (ThrottleState<A>, seq<(int, A)>)
  {
    if events == [] then (Start(), [])
    else
      var (s, fired) := Run(wait, events[..|events| - 1]);
      match events[|events| - 1]
      case CallAt(now, args) =>
        var (s', ran) := OnCall(wait, s, now, args);
        if ran.Some? then (s', fired + [(now, ran.value)]) else (s', fired)
      case FireAt(now) =>
        if CanFire(s, now) then
          var (s', a) := OnTimer(s, now);
          (s', fired + [(now, a)])
        else (s, fired)
  }

  /** Invariant of a run: `last` is the time of the latest invocation, and invocations are a window apart. */
  ghost predicate Spaced<A>(wait: int, s: ThrottleState<A>, fired: seq<(int, A)>) {
    Inv(wait, s) &&
    (fired == [] ==> s.last == 0) &&
    (fired != [] ==> s.last == fired[|fired| - 1].0 && fired[0].0 >= wait) &&
    (forall k :: 0 < k < |fired| ==> fired[k].0 >= fired[k - 1].0 + wait)
  }

  /**
   * `fn` runs at most once per window: whatever the calls and however the host
   * delivers timers, each invocation comes at least `wait` after the previous one.
   */
  lemma {:induction false} RunSpaced<A>(wait: int, events: seq<Event<A>>)
    ensures var (s, fired) := Run(wait, events); Spaced(wait, s, fired)
  {
    if events != [] {
      RunSpaced(wait, events[..|events| - 1]);
    }
  }

  /** Invocations a window apart: the `k`-th comes at least `k` windows after the first. */
  lemma {:induction false} SpacedSpread<A>(wait: int, fired: seq<(int, A)>, k: nat)
    requires forall i :: 0 < i < |fired| ==> fired[i].0 >= fired[i - 1].0 + wait
    requires k < |fired|
    ensures fired[k].0 >= fired[0].0 + k * wait
  {
    if k > 0 {
      SpacedSpread(wait, fired, k - 1);
    }
  }

  /** Integer division bound: `n * w <= span` with a positive `w` gives `n <= span / w`. */
  lemma DivideBound(n: int, w: int, span: int)
    requires w > 0 && n * w <= span
    ensures n <= span / w
  {
    var q := span / w;
    assert n * w < (q + 1) * w;
    FactorOrder(n, q + 1, w);
  }

  lemma FactorOrder(a: int, b: int, w: int)
    requires w > 0 && a * w < b * w
    ensures a < b
  {
  }

  /**
   * The firing bound: when all invocations of a run fall within a span of `span`
   * time units and the window is positive, there are at most `span / wait + 1` of them.
   */
  lemma FiringBound<A>(wait: int, events: seq<Event<A>>, span: int)
    requires wait > 0 && span >= 0
    requires var fired := Run(wait, events).1;
      fired != [] ==> fired[|fired| - 1].0 - fired[0].0 <= span
    ensures |Run(wait, events).1| <= span / wait + 1
  {
    var (s, fired) := Run(wait, events);
    RunSpaced(wait, events);
    if fired != [] {
      var n := |fired| - 1;
      SpacedSpread(wait, fired, n);
      assert n * wait <= span;
      DivideBound(n, wait, span);
    }
  }

  /** The throttled function returned by `throttle(fn, wait)`, with its closure's variables. */
  class ThrottledFn<A> {
    const wait: int
    var last: int
    var armed: bool
    var due: int
    var lastArgs: Option<A>
    /** Every invocation of `fn` as (time, arguments): an observation, not source state. */
    ghost var fired: seq<(int, A)>

    function State(): ThrottleState<A>
      reads this
    {
      ThrottleState(last, armed, due, lastArgs)
    }

    ghost predicate Valid()
      reads this
    {
      Spaced(wait, State(), fired)
    }

    constructor (wait: int)
      ensures Valid() && this.wait == wait && State() == Start() && fired == []
    {
      this.wait := wait;
      last, armed, due, lastArgs := 0, false, 0, None;
      fired := [];
    }

    /** The throttled function called at time `now` with `args`; `ran` is what `fn` ran with, if it ran. */
    method Call(now: int, args: A) returns (ran: Option<A>)
      requires Valid()
      modifies this
      ensures Valid()
      ensures (State(), ran) == OnCall(wait, old(State()), now, args)
      ensures fired == if ran.Some? then old(fired) + [(now, args)] else old(fired)
    {
      lastArgs := Some(args);
      var remaining := wait - (now - last);
      if remaining <= 0 {
        armed := false;
        last := now;
        ran := Some(args);
        fired := fired + [(now, args)];
      } else if !armed {
        armed, due := true, now + remaining;
        ran := None;
      } else {
        ran := None;
      }
    }

    /** The host runs the armed timer's callback at time `now`; `fn` runs with `lastArgs`. */
    method Fire(now: int) returns (ran: A)
      requires Valid() && armed && now >= due
      modifies this
      ensures Valid()
      ensures (State(), ran) == OnTimer(old(State()), now)
      ensures fired == old(fired) + [(now, ran)]
    {
      armed := false;
      last := now;
      ran := lastArgs.value;
      fired := fired + [(now, ran)];
    }
  }
}
