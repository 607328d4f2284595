/**
 * memoize (90file.js:32-41): wraps `fn` with a cache keyed by `keyFn(...args)`.
 * The cache is a `Map` private to the wrapper; a key is written only after `fn`
 * returns, so a call whose `fn` throws leaves no entry and the exception reaches
 * the caller. `fn` and `keyFn` are modelled as mathematical functions, which is the
 * deterministic behaviour the wrapper presumes of them.
 */
module Memoize {
  import opened Common

  /**
   * One call of the wrapper on cache `cache`: the new cache, what the call gives its
   * caller, and whether it invoked `fn`.
   */
  function Call<A, Key(==), V, E>(fn: A -> Attempt<V, E>, keyFn: A -> Key, cache: map<Key, V>, args: A)
    : (map<Key, V>, Attempt<V, E>, bool)
  {
    var key := keyFn(args);
    if key in cache then (cache, Returned(cache[key]), false)
    else match fn(args)
      case Returned(v) => (cache[key := v], Returned(v), true)
      case Threw(e) => (cache, Threw(e), true)
  }

  /** State after the first `n` of `calls` on a fresh wrapper: cache, results, and which calls invoked `fn`. */
  function Replay<A, Key(==), V, E>(fn: A -> Attempt<V, E>, keyFn: A -> Key, calls: seq<A>, n: nat)
    : (r: (map<Key, V>, seq<Attempt<V, E>>, seq<bool>))
    requires n <= |calls|
    ensures |r.1| == n && |r.2| == n
  {
    if n == 0 then (map[], [], [])
    else
      var (cache, results, invoked) := Replay(fn, keyFn, calls, n - 1);
      var (cache', result, called) := Call(fn, keyFn, cache, calls[n - 1]);
      (cache', results + [result], invoked + [called])
  }

  /** The first of `calls[..n]` whose key is `key` and on which `fn` returned, if any. */
  function FirstSuccess<A, Key(==), V, E>(fn: A -> Attempt<V, E>, keyFn: A -> Key, calls: seq<A>, n: nat, key: Key)
    : (r: Option<nat>)
    requires n <= |calls|
    ensures r.Some? ==> r.value < n && keyFn(calls[r.value]) == key && fn(calls[r.value]).Returned?
    ensures r.None? ==> forall j :: 0 <= j < n && keyFn(calls[j]) == key ==> fn(calls[j]).Threw?
    ensures r.Some? ==> forall j :: 0 <= j < r.value && keyFn(calls[j]) == key ==> fn(calls[j]).Threw?
  {
    if n == 0 then None
    else
      var earlier := FirstSuccess(fn, keyFn, calls, n - 1, key);
      if earlier.Some? then earlier
      else if keyFn(calls[n - 1]) == key && fn(calls[n - 1]).Returned? then Some(n - 1)
      else None
  }

  /**
   * After `n` calls the cache holds exactly the keys of the calls on which `fn`
   * returned, each with the value of the first such call: entries are written once
   * and never removed or overwritten.
   */
  lemma {:induction false} ReplayCache<A, Key, V, E>(fn: A -> Attempt<V, E>, keyFn: A -> Key, calls: seq<A>, n: nat, key: Key)
    requires n <= |calls|
    ensures var cache := Replay(fn, keyFn, calls, n).0;
      match FirstSuccess(fn, keyFn, calls, n, key)
      case None => key !in cache
      case Some(j) => key in cache && Returned(cache[key]) == fn(calls[j])
  {
    if n > 0 {
      ReplayCache(fn, keyFn, calls, n - 1, key);
      ReplayCache(fn, keyFn, calls, n - 1, keyFn(calls[n - 1]));
    }
  }

  /**
   * Call `i` invokes `fn` exactly when no earlier call with the same key returned;
   * its result is then `fn`'s own outcome, and otherwise the value cached by the
   * first earlier call with that key that returned.
   */
  lemma {:induction false} ReplayResult<A, Key, V, E>(fn: A -> Attempt<V, E>, keyFn: A -> Key, calls: seq<A>, n: nat, i: nat)
    requires i < n <= |calls|
    ensures var (_, results, invoked) := Replay(fn, keyFn, calls, n);
      match FirstSuccess(fn, keyFn, calls, i, keyFn(calls[i]))
      case None => invoked[i] && results[i] == fn(calls[i])
      case Some(j) => !invoked[i] && results[i] == fn(calls[j])
  {
    if i == n - 1 {
      ReplayCache(fn, keyFn, calls, n - 1, keyFn(calls[i]));
    } else {
      ReplayResult(fn, keyFn, calls, n - 1, i);
    }
  }

  /** For two calls with the same key, `fn` runs on the later one only if it threw on the earlier one. */
  lemma InvokedOncePerKey<A, Key, V, E>(fn: A -> Attempt<V, E>, keyFn: A -> Key, calls: seq<A>, i: nat, j: nat)
    requires i < j < |calls| && keyFn(calls[i]) == keyFn(calls[j])
    requires Replay(fn, keyFn, calls, |calls|).2[j]
    ensures fn(calls[i]).Threw?
  {
    ReplayResult(fn, keyFn, calls, |calls|, j);
  }

  /** The wrapper returned by `memoize(fn, keyFn)`, with its closure's cache. */
  class Memoized<A, Key(==), V, E> {
    const fn: A -> Attempt<V, E>
    const keyFn: A -> Key
    var cache: map<Key, V>
    /** The argument lists `fn` has been invoked with, oldest first: an observation, not source state. */
    ghost var invocations: seq<A>

    constructor (fn: A -> Attempt<V, E>, keyFn: A -> Key)
      ensures this.fn == fn && this.keyFn == keyFn && cache == map[] && invocations == []
    {
      this.fn := fn;
      this.keyFn := keyFn;
      cache := map[];
      invocations := [];
    }

    method Invoke(args: A) returns (r: Attempt<V, E>)
      modifies this
      ensures var (cache', result, called) := Call(fn, keyFn, old(cache), args);
        cache == cache' && r == result &&
        invocations == if called then old(invocations) + [args] else old(invocations)
    {
      var key := keyFn(args);
      if key in cache {
        return Returned(cache[key]);
      }
      r := fn(args);
      invocations := invocations + [args];
      if r.Returned? {
        cache := cache[key := r.value];
      }
    }
  }
}
