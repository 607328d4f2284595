/**
 * Set-like utilities of 90file.js over arrays: `intersection` and `difference`
 * (436-451), `uniqueByKey` (1121-1132) and `mostFrequent` (868-877). A
 * JavaScript `Set` or `Map` iterates in insertion order, so a `Set` that is
 * only added to is a sequence without repeats here.
 */
module Collections {
  import opened Common

  /** The position where `x` first occurs in `s`. */
  function FirstIndex<T(==)>(s: seq<T>, x: T): (i: nat)
    requires x in s
    ensures i < |s| && s[i] == x && x !in s[..i]
  {
    if s[0] == x then 0 else
      var i := 1 + FirstIndex(s[1..], x);
      assert s[..i] == [s[0]] + s[1..][..i - 1];
      i
  }

  /** An element first seen at `k` has its first occurrence there. */
  lemma FirstIndexAt<T>(s: seq<T>, k: int)
    requires 0 <= k < |s| && s[k] !in s[..k]
    ensures FirstIndex(s, s[k]) == k
  {
    var i := FirstIndex(s, s[k]);
    assert forall j :: 0 <= j < k ==> s[j] != s[k];
    assert forall j :: 0 <= j < i ==> s[j] != s[i];
  }

  /**
   * The loop shared by `intersection` (`inB` true) and `difference` (`inB`
   * false): the distinct elements of `a` whose membership in `b` is `inB`,
   * in the order of their first occurrence in `a`.
   */
  method KeepUnique<T(==)>(a: seq<T>, b: seq<T>, inB: bool) returns (res: seq<T>)
    ensures Distinct(res)
    ensures forall x :: x in res <==> x in a && (x in b) == inB
    ensures forall i, j :: 0 <= i < j < |res| ==> FirstIndex(a, res[i]) < FirstIndex(a, res[j])
  {
    var sb := set x | x in b;
    res := [];
    for k := 0 to |a|
      invariant Distinct(res)
      invariant forall x :: x in res <==> x in a[..k] && (x in b) == inB
      invariant forall i :: 0 <= i < |res| ==> res[i] in a && FirstIndex(a, res[i]) < k
      invariant forall i, j :: 0 <= i < j < |res| ==> FirstIndex(a, res[i]) < FirstIndex(a, res[j])
    {
      var x := a[k];
      assert a[..k + 1] == a[..k] + [x];
      if (x in sb) == inB && x !in res {
        FirstIndexAt(a, k);
        res := res + [x];
      }
    }
    assert a[..|a|] == a;
  }

  /** `intersection(a, b)`: each value of `a` that `b` also holds, once, in the order `a` first has it. */
  method Intersection<T(==)>(a: seq<T>, b: seq<T>) returns (res: seq<T>)
    ensures Distinct(res)
    ensures forall x :: x in res <==> x in a && x in b
    ensures forall i, j :: 0 <= i < j < |res| ==> FirstIndex(a, res[i]) < FirstIndex(a, res[j])
  {
    res := KeepUnique(a, b, true);
  }

  /** `difference(a, b)`: each value of `a` that `b` lacks, once, in the order `a` first has it. */
  method Difference<T(==)>(a: seq<T>, b: seq<T>) returns (res: seq<T>)
    ensures Distinct(res)
    ensures forall x :: x in res <==> x in a && x !in b
    ensures forall i, j :: 0 <= i < j < |res| ==> FirstIndex(a, res[i]) < FirstIndex(a, res[j])
  {
    res := KeepUnique(a, b, false);
  }

  /** The keys `obj[key]` of a list of objects, with the property lookup as the function `key`. */
  function Keys<T, K>(s: seq<T>, key: T -> K): seq<K> {
    seq(|s|, i requires 0 <= i < |s| => key(s[i]))
  }

  /** `uniqueByKey(arr, key)`: the first object of `arr` with each key, in `arr`'s order. */
  method UniqueByKey<T, K(==)>(arr: seq<T>, key: T -> K) returns (res: seq<T>)
    ensures Distinct(Keys(res, key))
    ensures forall i :: 0 <= i < |arr| ==> key(arr[i]) in Keys(res, key)
    ensures forall i :: 0 <= i < |res| ==>
      key(res[i]) in Keys(arr, key) && res[i] == arr[FirstIndex(Keys(arr, key), key(res[i]))]
    ensures forall i, j :: 0 <= i < j < |res| ==>
      FirstIndex(Keys(arr, key), key(res[i])) < FirstIndex(Keys(arr, key), key(res[j]))
  {
    var seen: set<K> := {};
    res := [];
    for k := 0 to |arr|
      invariant FirstOfEach(arr, key, k, seen, res)
    {
      var obj := arr[k];
      var kk := key(obj);
      if kk !in seen {
        Admit(arr, key, k, seen, res);
        seen := seen + {kk};
        res := res + [obj];
      }
    }
    forall i | 0 <= i < |arr| ensures key(arr[i]) in Keys(res, key) {
      assert key(arr[i]) in seen;
    }
  }

  /**
   * What `uniqueByKey` has built after the first `k` objects: `seen` holds the
   * keys of `res`, which are distinct and cover those objects, and each object
   * of `res` is the first with its key, in order of first occurrence.
   */
  ghost predicate FirstOfEach<T, K>(arr: seq<T>, key: T -> K, k: int, seen: set<K>, res: seq<T>)
    requires 0 <= k <= |arr|
  {
    var ks := Keys(arr, key);
    (forall kk <- seen :: kk in Keys(res, key)) && (forall kk <- Keys(res, key) :: kk in seen) &&
    Distinct(Keys(res, key)) &&
    (forall i :: 0 <= i < k ==> key(arr[i]) in seen) &&
    (forall i :: 0 <= i < |res| ==>
      key(res[i]) in ks && FirstIndex(ks, key(res[i])) < k && res[i] == arr[FirstIndex(ks, key(res[i]))]) &&
    (forall i, j :: 0 <= i < j < |res| ==> FirstIndex(ks, key(res[i])) < FirstIndex(ks, key(res[j])))
  }

  /** An object whose key is new is the first with that key, and is kept. */
  lemma Admit<T, K>(arr: seq<T>, key: T -> K, k: int, seen: set<K>, res: seq<T>)
    requires 0 <= k < |arr| && FirstOfEach(arr, key, k, seen, res) && key(arr[k]) !in seen
    ensures FirstOfEach(arr, key, k + 1, seen + {key(arr[k])}, res + [arr[k]])
  {
    var ks := Keys(arr, key);
    var kk := key(arr[k]);
    assert kk !in ks[..k] by {
      forall i | 0 <= i < k ensures ks[..k][i] != kk {
        assert key(arr[i]) in seen;
      }
    }
    FirstIndexAt(ks, k);
    AdmitKey(res, key, seen, arr[k]);
    AdmitFirst(arr, key, k, res);
  }

  /** The new key joins `seen` and the keys of `res`, which stay distinct. */
  lemma AdmitKey<T, K>(res: seq<T>, key: T -> K, seen: set<K>, obj: T)
    requires (forall kk <- seen :: kk in Keys(res, key)) && (forall kk <- Keys(res, key) :: kk in seen)
    requires Distinct(Keys(res, key)) && key(obj) !in seen
    ensures var res' := res + [obj]; var seen' := seen + {key(obj)};
      (forall kk <- seen' :: kk in Keys(res', key)) && (forall kk <- Keys(res', key) :: kk in seen') &&
      Distinct(Keys(res', key))
  {
    var res', kk := res + [obj], key(obj);
    assert Keys(res', key) == Keys(res, key) + [kk];
    assert kk !in Keys(res, key);
    forall i, j | 0 <= i < j < |res'| ensures Keys(res', key)[i] != Keys(res', key)[j] {
      if j == |res| {
        assert Keys(res', key)[i] == Keys(res, key)[i] && Keys(res, key)[i] in Keys(res, key);
      } else {
        assert Keys(res', key)[i] == Keys(res, key)[i] && Keys(res', key)[j] == Keys(res, key)[j];
      }
    }
  }

  /** The object at `k`, first with its key, keeps `res` made of first occurrences in order. */
  lemma AdmitFirst<T, K>(arr: seq<T>, key: T -> K, k: int, res: seq<T>)
    requires 0 <= k < |arr| && key(arr[k]) in Keys(arr, key) && FirstIndex(Keys(arr, key), key(arr[k])) == k
    requires forall i :: 0 <= i < |res| ==> var ks := Keys(arr, key);
      key(res[i]) in ks && FirstIndex(ks, key(res[i])) < k && res[i] == arr[FirstIndex(ks, key(res[i]))]
    requires forall i, j :: 0 <= i < j < |res| ==>
      FirstIndex(Keys(arr, key), key(res[i])) < FirstIndex(Keys(arr, key), key(res[j]))
    ensures var res', ks := res + [arr[k]], Keys(arr, key);
      (forall i :: 0 <= i < |res'| ==>
        key(res'[i]) in ks && FirstIndex(ks, key(res'[i])) < k + 1 && res'[i] == arr[FirstIndex(ks, key(res'[i]))]) &&
      (forall i, j :: 0 <= i < j < |res'| ==> FirstIndex(ks, key(res'[i])) < FirstIndex(ks, key(res'[j])))
  {
    var res', ks := res + [arr[k]], Keys(arr, key);
    forall i | 0 <= i < |res'| ensures
      key(res'[i]) in ks && FirstIndex(ks, key(res'[i])) < k + 1 && res'[i] == arr[FirstIndex(ks, key(res'[i]))]
    {
      if i < |res| {
        assert res'[i] == res[i];
      }
    }
    forall i, j | 0 <= i < j < |res'| ensures FirstIndex(ks, key(res'[i])) < FirstIndex(ks, key(res'[j])) {
      assert res'[i] == res[i];
      if j < |res| {
        assert res'[j] == res[j];
      }
    }
  }

  /** How many times `s[q]` has occurred once the scan reaches position `q`. */
  function RunningCount<T(==)>(s: seq<T>, q: int): nat
    requires 0 <= q < |s|
  {
    multiset(s[..q + 1])[s[q]]
  }

  /** At position `p` some value's count reaches `c` for the first time in the scan. */
  predicate FirstToReach<T(==)>(s: seq<T>, p: int, c: nat)
    requires 0 <= p < |s|
  {
    RunningCount(s, p) == c && forall q :: 0 <= q < p ==> RunningCount(s, q) < c
  }

  /**
   * `mostFrequent(arr)`: the highest number of occurrences of any value, and
   * the value that reached it first (`undefined` and 0 for an empty array).
   */
  method MostFrequent<T(==)>(arr: seq<T>) returns (value: Option<T>, count: nat)
    ensures value.None? <==> arr == []
    ensures forall x :: multiset(arr)[x] <= count
    ensures value.Some? ==> multiset(arr)[value.value] == count
    ensures value.Some? ==> exists p :: 0 <= p < |arr| && arr[p] == value.value && FirstToReach(arr, p, count)
  {
    var m: map<T, nat> := map[];
    value, count := None, 0;
    ghost var bp := 0;
    for k := 0 to |arr|
      invariant forall x :: multiset(arr[..k])[x] == if x in m then m[x] else 0
      invariant forall x :: multiset(arr[..k])[x] <= count
      invariant value.None? <==> k == 0
      invariant value.None? ==> count == 0
      invariant value.Some? ==> 0 <= bp < k && arr[bp] == value.value && FirstToReach(arr, bp, count)
      invariant value.Some? ==> multiset(arr[..k])[value.value] == count
      invariant forall q :: 0 <= q < k ==> RunningCount(arr, q) <= count
    {
      var x := arr[k];
      assert arr[..k + 1] == arr[..k] + [x];
      var c := (if x in m then m[x] else 0) + 1;
      m := m[x := c];
      assert RunningCount(arr, k) == c;
      if c > count {
        count, value := c, Some(x);
        bp := k;
      }
    }
    assert arr[..|arr|] == arr;
  }
}
