/**
 * `subsets(arr)` (90file.js:395-402): the power set, built by doubling. For
 * each element `x` in turn, every subset found so far is copied with `x`
 * appended, after all of the existing ones.
 */
module Subsets {
  import opened Common

  function Pow2(n: nat): nat {
    if n == 0 then 1 else 2 * Pow2(n - 1)
  }

  /** The elements of `a` at the positions `idx`, in that order. */
  function Select<T>(a: seq<T>, idx: seq<int>): seq<T>
    requires forall i :: 0 <= i < |idx| ==> 0 <= idx[i] < |a|
  {
    seq(|idx|, i requires 0 <= i < |idx| => a[idx[i]])
  }

  /** The subsets found so far, each with `x` appended: what the inner loop pushes. */
  function Grown<T>(r: seq<seq<T>>, x: T): (g: seq<seq<T>>)
    ensures |g| == |r| && forall i :: 0 <= i < |r| ==> g[i] == r[i] + [x]
  {
    seq(|r|, i requires 0 <= i < |r| => r[i] + [x])
  }

  /** `res` once the outer loop has run over the first `k` elements of `a`. */
  function PowerSet<T>(a: seq<T>, k: nat): (r: seq<seq<T>>)
    requires k <= |a|
    ensures |r| == Pow2(k)
    ensures |r| >= 1 && r[0] == []
  {
    if k == 0 then [[]] else
      var r := PowerSet(a, k - 1);
      r + Grown(r, a[k - 1])
  }

  /** `subsets(arr)`. */
  method Subsets<T>(arr: seq<T>) returns (res: seq<seq<T>>)
    ensures res == PowerSet(arr, |arr|)
    ensures |res| == Pow2(|arr|)
    ensures forall p :: p in res ==> exists idx :: IncreasingIndices(idx, |arr|) && p == Select(arr, idx)
    ensures forall idx :: IncreasingIndices(idx, |arr|) ==> Select(arr, idx) in res
  {
    res := [[]];
    for k := 0 to |arr|
      invariant res == PowerSet(arr, k)
    {
      var x := arr[k];
      var size := |res|;
      ghost var prev := res;
      for i := 0 to size
        invariant res == prev + Grown(prev, x)[..i]
      {
        res := res + [res[i] + [x]];
      }
    }
    SubsetsMeaning(arr);
  }

  /** Where the `j`-th subset comes from: an earlier subset, with `a[k - 1]` appended in the second half. */
  lemma PowerSetAt<T>(a: seq<T>, k: nat, j: int)
    requires 0 < k <= |a| && 0 <= j < |PowerSet(a, k)|
    ensures var r := PowerSet(a, k - 1);
      |PowerSet(a, k)| == 2 * |r| &&
      (j < |r| ==> PowerSet(a, k)[j] == r[j]) &&
      (j >= |r| ==> PowerSet(a, k)[j] == r[j - |r|] + [a[k - 1]])
  {
    var r := PowerSet(a, k - 1);
    var g := Grown(r, a[k - 1]);
    assert PowerSet(a, k) == r + g;
    if j >= |r| {
      assert PowerSet(a, k)[j] == g[j - |r|];
    }
  }

  /** Appending position `k - 1` to positions below it appends `a[k - 1]` to what they select. */
  lemma SelectSnoc<T>(a: seq<T>, k: nat, idx: seq<int>)
    requires 0 < k <= |a| && IncreasingIndices(idx, k - 1)
    ensures IncreasingIndices(idx + [k - 1], k)
    ensures Select(a, idx + [k - 1]) == Select(a, idx) + [a[k - 1]]
  {
  }

  /** Every subset in the result picks elements of `a` at increasing positions. */
  lemma {:induction false} PowerSetSound<T>(a: seq<T>, k: nat, j: int)
    requires k <= |a| && 0 <= j < |PowerSet(a, k)|
    ensures exists idx :: IncreasingIndices(idx, k) && PowerSet(a, k)[j] == Select(a, idx)
  {
    if k == 0 {
      assert IncreasingIndices([], 0) && PowerSet(a, k)[j] == Select(a, []);
    } else {
      var r := PowerSet(a, k - 1);
      PowerSetAt(a, k, j);
      var j' := if j < |r| then j else j - |r|;
      PowerSetSound(a, k - 1, j');
      var idx :| IncreasingIndices(idx, k - 1) && r[j'] == Select(a, idx);
      SelectSnoc(a, k, idx);
      if j < |r| {
        assert IncreasingIndices(idx, k);
      } else {
        assert PowerSet(a, k)[j] == Select(a, idx + [k - 1]);
      }
    }
  }

  /** Every choice of elements at increasing positions is in the result. */
  lemma {:induction false} PowerSetComplete<T>(a: seq<T>, k: nat, idx: seq<int>)
    requires k <= |a| && IncreasingIndices(idx, k)
    ensures Select(a, idx) in PowerSet(a, k)
  {
    if idx == [] {
      assert Select(a, idx) == PowerSet(a, k)[0];
    } else if idx[|idx| - 1] == k - 1 {
      var front := idx[..|idx| - 1];
      assert idx == front + [k - 1];
      SelectSnoc(a, k, front);
      PowerSetComplete(a, k - 1, front);
      InSecondHalf(a, k, Select(a, front));
    } else {
      assert forall i :: 0 <= i < |idx| ==> idx[i] <= idx[|idx| - 1] < k - 1;
      PowerSetComplete(a, k - 1, idx);
      InFirstHalf(a, k, Select(a, idx));
    }
  }

  /** What the first `k - 1` elements give is kept in the first half. */
  lemma InFirstHalf<T>(a: seq<T>, k: nat, p: seq<T>)
    requires 0 < k <= |a| && p in PowerSet(a, k - 1)
    ensures p in PowerSet(a, k)
  {
    var r := PowerSet(a, k - 1);
    var q :| 0 <= q < |r| && r[q] == p;
    PowerSetAt(a, k, q);
  }

  /** What the first `k - 1` elements give, with `a[k - 1]` appended, is in the second half. */
  lemma InSecondHalf<T>(a: seq<T>, k: nat, p: seq<T>)
    requires 0 < k <= |a| && p in PowerSet(a, k - 1)
    ensures p + [a[k - 1]] in PowerSet(a, k)
  {
    var r := PowerSet(a, k - 1);
    var q :| 0 <= q < |r| && r[q] == p;
    PowerSetAt(a, k, |r| + q);
  }

  /** `subsets(arr)` lists exactly the choices of elements at increasing positions, `2^n` entries in all. */
  lemma SubsetsMeaning<T>(arr: seq<T>)
    ensures |PowerSet(arr, |arr|)| == Pow2(|arr|)
    ensures forall p :: p in PowerSet(arr, |arr|) ==> exists idx :: IncreasingIndices(idx, |arr|) && p == Select(arr, idx)
    ensures forall idx :: IncreasingIndices(idx, |arr|) ==> Select(arr, idx) in PowerSet(arr, |arr|)
  {
    var r := PowerSet(arr, |arr|);
    forall p | p in r ensures exists idx :: IncreasingIndices(idx, |arr|) && p == Select(arr, idx) {
      var j :| 0 <= j < |r| && r[j] == p;
      PowerSetSound(arr, |arr|, j);
    }
    forall idx | IncreasingIndices(idx, |arr|) ensures Select(arr, idx) in r {
      PowerSetComplete(arr, |arr|, idx);
    }
  }
}
