/**
 * EventEmitter (90file.js:60-81): a `Map` from event name to the `Set` of its
 * handlers. A `Set` iterates in insertion order and `emit` calls the handlers of a
 * snapshot in that order, so each set is modelled as the sequence of its handlers
 * in insertion order. Handlers are identities here; running them is not modelled,
 * `emit` reports which handlers it calls, in order.
 */
module EventEmitter {
  import opened Common

  type Registry<Ev, H> = map<Ev, seq<H>>

  /** No event keeps an empty handler set, and no handler is listed twice for one event. */
  predicate Inv<Ev, H(==)>(m: Registry<Ev, H>) {
    forall e <- m :: m[e] != [] && Distinct(m[e])
  }

  /** `on(event, handler)`: adding a handler already in the set changes nothing. */
  function AfterOn<Ev, H(==)>(m: Registry<Ev, H>, e: Ev, h: H): Registry<Ev, H> {
    var handlers := if e in m then m[e] else [];
    if h in handlers then m else m[e := handlers + [h]]
  }

  /** `off(event, handler)`: an event whose set becomes empty is dropped from the map. */
  function AfterOff<Ev, H(==)>(m: Registry<Ev, H>, e: Ev, h: H): Registry<Ev, H> {
    if e !in m then m
    else
      var rest := Without(m[e], h);
      if rest == [] then m - {e} else m[e := rest]
  }

  /** `emit(event, ...args)`: whether the event has handlers, and the handlers called, in order. */
  function Dispatch<Ev, H>(m: Registry<Ev, H>, e: Ev): (bool, seq<H>) {
    if e !in m then (false, []) else (true, m[e])
  }

  /** `on` and `off` keep the registry free of empty sets and duplicate handlers. */
  lemma StepsKeepInv<Ev, H>(m: Registry<Ev, H>, e: Ev, h: H)
    requires Inv(m)
    ensures Inv(AfterOn(m, e, h)) && Inv(AfterOff(m, e, h))
  {
    var handlers := if e in m then m[e] else [];
    if h !in handlers {
      assert Distinct(handlers + [h]);
    }
  }

  /**
   * After `on`, `emit` reports the event and calls the new handler last, after the
   * handlers already registered; registering a present handler again keeps its place.
   */
  lemma OnThenEmit<Ev, H>(m: Registry<Ev, H>, e: Ev, h: H)
    requires Inv(m)
    ensures var (found, called) := Dispatch(AfterOn(m, e, h), e);
      found && h in called &&
      (e in m && h in m[e] ==> called == m[e]) &&
      (e !in m || h !in m[e] ==> called == Dispatch(m, e).1 + [h])
  {
  }

  /**
   * After `off`, `emit` no longer calls the handler and calls the others in their
   * old order; when it was the last handler, `emit` reports that nobody listens.
   */
  lemma {:induction false} OffThenEmit<Ev, H>(m: Registry<Ev, H>, e: Ev, h: H)
    requires Inv(m)
    ensures var (found, called) := Dispatch(AfterOff(m, e, h), e);
      h !in called && called == Without(Dispatch(m, e).1, h) &&
      found == (e in m && Without(m[e], h) != [])
  {
  }

  /**
   * The unsubscribe helper returned by `on` undoes it: `off` after `on` of a handler
   * that was not registered for the event gives back the registry as it was.
   */
  lemma {:induction false} OffUndoesOn<Ev, H>(m: Registry<Ev, H>, e: Ev, h: H)
    requires Inv(m) && (e !in m || h !in m[e])
    ensures AfterOff(AfterOn(m, e, h), e, h) == m
  {
    var handlers := if e in m then m[e] else [];
    WithoutAppended(handlers, h);
  }

  /** Removing a handler just appended to a list that did not hold it gives the list back. */
  lemma {:induction false} WithoutAppended<H>(s: seq<H>, h: H)
    requires h !in s
    ensures Without(s + [h], h) == s
  {
    if s != [] {
      assert (s + [h])[1..] == s[1..] + [h];
      WithoutAppended(s[1..], h);
    } else {
      assert [h][1..] == [];
    }
  }

  /** The emitter object: its `_events` map. */
  class Emitter<Ev(==), H(==)> {
    var events: Registry<Ev, H>

    ghost predicate Valid()
      reads this
    {
      Inv(events)
    }

    constructor ()
      ensures Valid() && events == map[]
    {
      events := map[];
    }

    method On(e: Ev, h: H)
      requires Valid()
      modifies this
      ensures Valid() && events == AfterOn(old(events), e, h)
    {
      StepsKeepInv(events, e, h);
      if e !in events {
        events := events[e := []];
      }
      if h !in events[e] {
        events := events[e := events[e] + [h]];
      }
    }

    method Off(e: Ev, h: H)
      requires Valid()
      modifies this
      ensures Valid() && events == AfterOff(old(events), e, h)
    {
      StepsKeepInv(events, e, h);
      if e !in events {
        return;
      }
      events := events[e := Without(events[e], h)];
      if events[e] == [] {
        events := events - {e};
      }
    }

    method Emit(e: Ev) returns (found: bool, called: seq<H>)
      ensures (found, called) == Dispatch(events, e)
    {
      if e !in events {
        return false, [];
      }
      called := [];
      var snapshot := events[e];
      for i := 0 to |snapshot|
        invariant called == snapshot[..i]
      {
        called := called + [snapshot[i]];
      }
      assert snapshot[..|snapshot|] == snapshot;
      found := true;
    }
  }
}
