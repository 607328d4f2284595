/**
 * once (90file.js:531-540): the wrapper runs `fn` on its first call only and from
 * then on returns the remembered result. `called` is set before `fn` runs, so if the
 * first call throws, `result` keeps its initial `undefined` and every later call
 * returns `undefined` without running `fn` again.
 */
module Once {
  import opened Common

  /** The closure's two variables; `result == None` is the initial `undefined`. */
  datatype OnceState<R> = OnceState(called: bool, result: Option<R>)

  /** One call: the new state, what the caller gets, and whether `fn` ran. */
  function Call<A, R, E>(fn: A -> Attempt<R, E>, s: OnceState<R>, args: A)
    : (OnceState<R>, Attempt<Option<R>, E>, bool)
  {
    if s.called then (s, Returned(s.result), false)
    else match fn(args)
      case Returned(v) => (OnceState(true, Some(v)), Returned(Some(v)), true)
      case Threw(e) => (OnceState(true, None), Threw(e), true)
  }

  /** State, results and `fn`-invocation flags after the first `n` of `calls` on a fresh wrapper. */
  function Replay<A, R, E>(fn: A -> Attempt<R, E>, calls: seq<A>, n: nat)
    : (r: (OnceState<R>, seq<Attempt<Option<R>, E>>, seq<bool>))
    requires n <= |calls|
    ensures |r.1| == n && |r.2| == n
  {
    if n == 0 then (OnceState(false, None), [], [])
    else
      var (s, results, invoked) := Replay(fn, calls, n - 1);
      var (s', result, ran) := Call(fn, s, calls[n - 1]);
      (s', results + [result], invoked + [ran])
  }

  /** What the first call produced, as the wrapper remembers it. */
  function Remembered<R, E>(first: Attempt<R, E>): Option<R> {
    if first.Returned? then Some(first.value) else None
  }

  /**
   * Over any sequence of calls, `fn` runs on the first call only, with its
   * arguments; every later call returns the first call's value, or `undefined` when
   * the first call threw.
   */
  lemma {:induction false} ReplayRunsOnce<A, R, E>(fn: A -> Attempt<R, E>, calls: seq<A>, n: nat)
    requires 0 < n <= |calls|
    ensures var (s, results, invoked) := Replay(fn, calls, n);
      s == OnceState(true, Remembered(fn(calls[0]))) &&
      invoked[0] && (forall i :: 0 < i < n ==> !invoked[i]) &&
      results[0] == (match fn(calls[0])
                     case Returned(v) => Returned(Some(v))
                     case Threw(e) => Threw(e)) &&
      (forall i :: 0 < i < n ==> results[i] == Returned(Remembered(fn(calls[0]))))
  {
    if n > 1 {
      ReplayRunsOnce(fn, calls, n - 1);
    }
  }

  /** The wrapper returned by `once(fn)`. */
  class OnceWrapper<A, R, E> {
    const fn: A -> Attempt<R, E>
    var called: bool
    var result: Option<R>
    /** How many times `fn` ran: an observation, not source state. */
    ghost var runs: nat

    /** Before the first call `result` is still `undefined`. */
    ghost predicate Valid()
      reads this
    {
      !called ==> result == None
    }

    constructor (fn: A -> Attempt<R, E>)
      ensures Valid()
      ensures this.fn == fn && !called && result == None && runs == 0
    {
      this.fn := fn;
      called := false;
      result := None;
      runs := 0;
    }

    method Invoke(args: A) returns (r: Attempt<Option<R>, E>)
      requires Valid()
      modifies this
      ensures Valid()
      ensures var (s, outcome, ran) := Call(fn, OnceState(old(called), old(result)), args);
        OnceState(called, result) == s && r == outcome &&
        runs == if ran then old(runs) + 1 else old(runs)
    {
      if called {
        return Returned(result);
      }
      called := true;
      runs := runs + 1;
      var outcome := fn(args);
      if outcome.Threw? {
        return Threw(outcome.error);
      }
      result := Some(outcome.value);
      r := Returned(result);
    }
  }
}
