/**
 * LRUCache (90file.js:651-671). The source keeps one JavaScript `Map` and relies on
 * its insertion order as the recency order: `get` and `set` delete a key and
 * re-insert it so that it moves to the end, and eviction removes the first key.
 * Here that `Map` is split into its two observable parts: the key order (least
 * recently used first) and the key-to-value store.
 */
module LruCache {
  import opened Common

  /** The observable contents of the cache's `Map`: its key order and its entries. */
  datatype Cache<K, V> = Cache(order: seq<K>, store: map<K, V>)

  /** The key order lists every stored key exactly once. */
  predicate WellFormed<K, V>(c: Cache<K, V>) {
    Distinct(c.order) && (forall k <- c.order :: k in c.store) && (forall k <- c.store :: k in c.order)
  }

  /** The state after `get(key)` and what it returns (`None` is `undefined`). */
  function Access<K, V>(c: Cache<K, V>, key: K): (Cache<K, V>, Option<V>) {
    if key !in c.store then (c, None)
    else (Cache(Without(c.order, key) + [key], c.store), Some(c.store[key]))
  }

  /** The state after `set(key, val)` on a cache of capacity `cap`. */
  function Write<K, V>(c: Cache<K, V>, cap: int, key: K, val: V): Cache<K, V> {
    var written := Cache(Without(c.order, key) + [key], c.store[key := val]);
    if |written.order| > cap then Cache(written.order[1..], written.store - {written.order[0]})
    else written
  }

  /** `get` keeps the key order a listing of the stored keys. */
  lemma AccessKeepsWellFormed<K, V>(c: Cache<K, V>, key: K)
    requires WellFormed(c)
    ensures WellFormed(Access(c, key).0)
  {
  }

  /**
   * A miss returns `undefined` and changes nothing; a hit returns the stored value,
   * leaves the key/value pairs as they were, moves the key to the most recent end
   * and keeps the relative order of every other key.
   */
  lemma AccessSemantics<K, V>(c: Cache<K, V>, key: K)
    requires WellFormed(c)
    ensures key !in c.store ==> Access(c, key) == (c, None)
    ensures key in c.store ==>
      var (after, r) := Access(c, key);
      r == Some(c.store[key]) && after.store == c.store &&
      |after.order| == |c.order| && after.order[|after.order| - 1] == key &&
      after.order[..|after.order| - 1] == Without(c.order, key)
  {
  }

  /** `set` keeps the key order a listing of the stored keys, whatever the capacity. */
  lemma {:induction false} WriteKeepsWellFormed<K, V>(c: Cache<K, V>, cap: int, key: K, val: V)
    requires WellFormed(c)
    ensures WellFormed(Write(c, cap, key, val))
  {
    var written := Cache(Without(c.order, key) + [key], c.store[key := val]);
    assert WellFormed(written);
    if |written.order| > cap {
      Evict(written);
    }
  }

  /** Evicting the least recently used key keeps the key order a listing of the stored keys. */
  lemma Evict<K, V>(c: Cache<K, V>)
    requires WellFormed(c) && c.order != []
    ensures WellFormed(Cache(c.order[1..], c.store - {c.order[0]}))
  {
    var first, rest := c.order[0], c.order[1..];
    assert first !in rest by {
      forall i | 0 <= i < |rest| ensures rest[i] != first {
        assert rest[i] == c.order[i + 1];
      }
    }
    forall k <- c.store - {first} ensures k in rest {
      var i :| 0 <= i < |c.order| && c.order[i] == k;
      assert rest[i - 1] == k;
    }
  }

  /** A cache that held at most `cap` entries still holds at most `cap` after `set`. */
  lemma WriteWithinCapacity<K, V>(c: Cache<K, V>, cap: int, key: K, val: V)
    requires WellFormed(c) && |c.order| <= cap
    ensures |Write(c, cap, key, val).order| <= cap
  {
  }

  /**
   * Writing a new key into a full cache of capacity at least one evicts exactly one
   * key, the least recently used, and the written key becomes the most recent.
   */
  lemma WriteIntoFullCache<K, V>(c: Cache<K, V>, cap: int, key: K, val: V)
    requires WellFormed(c) && |c.order| == cap >= 1 && key !in c.store
    ensures Write(c, cap, key, val) ==
            Cache(c.order[1..] + [key], (c.store - {c.order[0]})[key := val])
  {
    assert Without(c.order, key) == c.order;
    assert (c.order + [key])[1..] == c.order[1..] + [key];
    assert c.order[0] != key;
  }

  /** With capacity zero, `set` inserts the key and evicts it at once: the cache stays empty. */
  lemma WriteIntoZeroCapacity<K, V>(c: Cache<K, V>, key: K, val: V)
    requires WellFormed(c) && |c.order| == 0
    ensures Write(c, 0, key, val) == c
  {
    assert c.store == map[];
    assert map[key := val] - {key} == map[];
  }

  /**
   * Overwriting a stored key, or writing into a cache with room, evicts nothing: the
   * written key becomes the most recent and every other entry stays.
   */
  lemma WriteWithoutOverflow<K, V>(c: Cache<K, V>, cap: int, key: K, val: V)
    requires WellFormed(c) && |c.order| <= cap
    requires key in c.store || |c.order| < cap
    ensures Write(c, cap, key, val) == Cache(Without(c.order, key) + [key], c.store[key := val])
  {
    if key in c.store {
      assert |Without(c.order, key)| == |c.order| - 1;
    }
  }

  /** `set` then `get` of the same key, on a cache with room for one entry, yields the value written. */
  lemma WriteThenAccess<K, V>(c: Cache<K, V>, cap: int, key: K, val: V)
    requires WellFormed(c) && cap >= 1 && |c.order| <= cap
    ensures Access(Write(c, cap, key, val), key).1 == Some(val)
  {
    if key !in c.store && |c.order| == cap {
      WriteIntoFullCache(c, cap, key, val);
    } else {
      WriteWithoutOverflow(c, cap, key, val);
    }
  }

  /** The cache object: a capacity and the two parts of its `Map`. */
  class LRUCache<K(==), V> {
    const cap: int
    var order: seq<K>
    var store: map<K, V>

    function State(): Cache<K, V>
      reads this
    {
      Cache(order, store)
    }

    ghost predicate Valid()
      reads this
    {
      WellFormed(State())
    }

    /** The source stores the capacity as given: nothing rejects zero or a negative value. */
    constructor (capacity: int)
      ensures Valid() && cap == capacity && State() == Cache([], map[])
    {
      cap := capacity;
      order := [];
      store := map[];
    }

    method Get(key: K) returns (r: Option<V>)
      requires Valid()
      modifies this
      ensures Valid()
      ensures (State(), r) == Access(old(State()), key)
    {
      if key !in store {
        return None;
      }
      var val := store[key];
      order, store := Without(order, key), store - {key};
      order, store := order + [key], store[key := val];
      assert store == old(store);
      r := Some(val);
    }

    method Set(key: K, val: V)
      requires Valid()
      modifies this
      ensures Valid()
      ensures State() == Write(old(State()), cap, key, val)
    {
      WriteKeepsWellFormed(State(), cap, key, val);
      ghost var written := Cache(Without(order, key) + [key], store[key := val]);
      if key in store {
        assert (store - {key})[key := val] == store[key := val];
        order, store := Without(order, key), store - {key};
      } else {
        assert key !in order && Without(order, key) == order;
      }
      order, store := order + [key], store[key := val];
      assert State() == written;
      if |order| > cap {
        var oldestKey := order[0];
        order, store := order[1..], store - {oldestKey};
      }
    }
  }
}
