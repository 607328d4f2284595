/**
 * retry (90file.js:706-717): runs `fn` up to `retries + 1` times, returning the
 * first value it resolves with and rethrowing the last rejection otherwise, with
 * an optional `sleep(delayMs)` between attempts. `fn` is modelled as the outcome
 * of each attempt by attempt number, and `sleep` as a recorded step.
 */
module Retry {
  import opened Common

  /** How the promise returned by `retry` settles; `Rejected(None)` is `throw undefined`. */
  datatype Settled<T, E> = Resolved(value: T) | Rejected(reason: Option<E>)

  /** What `retry` does, in order: attempt number `i`, or sleep for `delayMs`. */
  datatype Action = Try(i: nat) | Pause

  /** The first of attempts `0 .. n-1` on which `fn` resolves, if any. */
  function FirstResolved<T, E>(fn: nat -> Attempt<T, E>, n: nat): (r: Option<nat>)
    ensures r.Some? ==> r.value < n && fn(r.value).Returned?
    ensures r.Some? ==> forall i :: 0 <= i < r.value ==> fn(i).Threw?
    ensures r.None? ==> forall i :: 0 <= i < n ==> fn(i).Threw?
  {
    if n == 0 then None
    else
      var earlier := FirstResolved(fn, n - 1);
      if earlier.Some? then earlier
      else if fn(n - 1).Returned? then Some(n - 1)
      else None
  }

  /** The actions of `k` attempts: the attempts in order, with a pause between consecutive ones when `sleeps`. */
  function Schedule(k: nat, sleeps: bool): seq<Action> {
    if k == 0 then []
    else if k == 1 then [Try(0)]
    else Schedule(k - 1, sleeps) + (if sleeps then [Pause] else []) + [Try(k - 1)]
  }

  /**
   * The schedule never ends with a pause and never pauses twice in a row; its
   * attempts are numbered `0 .. k-1` in order, and it pauses `k - 1` times when
   * sleeping is on, never otherwise.
   */
  lemma {:induction false} ScheduleShape(k: nat, sleeps: bool)
    ensures k > 0 ==> Schedule(k, sleeps)[|Schedule(k, sleeps)| - 1] == Try(k - 1)
    ensures |Schedule(k, sleeps)| == if sleeps && k > 0 then 2 * k - 1 else k
    ensures forall j :: 0 <= j < |Schedule(k, sleeps)| ==>
      Schedule(k, sleeps)[j] == if !sleeps then Try(j) else if j % 2 == 0 then Try(j / 2) else Pause
  {
    if k > 1 {
      ScheduleShape(k - 1, sleeps);
    }
  }

  /**
   * `retry(fn, retries, delayMs)`. `calls` counts the attempts and `log` lists the
   * attempts and sleeps in order. `retries < 0` makes no attempt and throws `undefined`.
   */
  method Run<T, E>(fn: nat -> Attempt<T, E>, retries: int, delayMs: int)
    returns (r: Settled<T, E>, calls: nat, log: seq<Action>)
    ensures var attempts := if retries < 0 then 0 else retries + 1;
      match FirstResolved(fn, attempts)
      case Some(i) =>
        r == Resolved(fn(i).value) && calls == i + 1
      case None =>
        calls == attempts &&
        r == Rejected(if attempts == 0 then None else Some(fn(attempts - 1).error))
    ensures log == Schedule(calls, delayMs != 0)
  {
    var lastErr: Option<E> := None;
    var i := 0;
    calls, log := 0, [];
    while i <= retries
      invariant 0 <= i && (retries >= 0 ==> i <= retries + 1) && (retries < 0 ==> i == 0)
      invariant calls == i && log == Schedule(i, delayMs != 0)
      invariant FirstResolved(fn, i) == None
      invariant lastErr == if i == 0 then None else Some(fn(i - 1).error)
    {
      log := log + (if i > 0 && delayMs != 0 then [Pause] else []) + [Try(i)];
      calls := calls + 1;
      var outcome := fn(i);
      if outcome.Returned? {
        return Resolved(outcome.value), calls, log;
      }
      lastErr := Some(outcome.error);
      i := i + 1;
    }
    r := Rejected(lastErr);
  }
}
