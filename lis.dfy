/**
 * `lisLength(nums)` (90file.js:1024-1036): length of the longest strictly
 * increasing subsequence, by patience sorting. `tails[L]` is the smallest value
 * that ends an increasing subsequence of length `L + 1` seen so far.
 */
module Lis {
  import opened Common

  /** `idx` picks a strictly increasing subsequence of `s`. */
  predicate IncSub(s: seq<int>, idx: seq<int>) {
    (forall p :: 0 <= p < |idx| ==> 0 <= idx[p] < |s|) &&
    forall p :: 0 < p < |idx| ==> idx[p - 1] < idx[p] && s[idx[p - 1]] < s[idx[p]]
  }

  predicate StrictlyIncreasing(t: seq<int>) {
    forall p, q :: 0 <= p < q < |t| ==> t[p] < t[q]
  }

  /** Each `tails[L]` ends some increasing subsequence of length `L + 1` within the first `k` elements. */
  ghost predicate Witnessed(s: seq<int>, k: int, tails: seq<int>, wit: seq<seq<int>>) {
    |wit| == |tails| &&
    forall L :: 0 <= L < |tails| ==>
      |wit[L]| == L + 1 && IncSub(s, wit[L]) && wit[L][L] < k && s[wit[L][L]] == tails[L]
  }

  /** No increasing subsequence within the first `k` elements is longer than `tails` or ends lower than its entry. */
  ghost predicate Bounded(s: seq<int>, k: int, tails: seq<int>) {
    forall idx :: IncSub(s, idx) && idx != [] && idx[|idx| - 1] < k ==>
      |idx| <= |tails| && tails[|idx| - 1] <= s[idx[|idx| - 1]]
  }

  /** Dropping the last index of an increasing subsequence leaves one. */
  lemma DropLast(s: seq<int>, idx: seq<int>)
    requires IncSub(s, idx) && idx != []
    ensures IncSub(s, idx[..|idx| - 1])
  {
  }

  /** `tails[l] = x` in JavaScript: overwrite an entry, or append when `l` is one past the end. */
  function Write(tails: seq<int>, l: int, x: int): seq<int>
    requires 0 <= l <= |tails|
  {
    if l == |tails| then tails + [x] else tails[l := x]
  }

  /** The witness for the new entry: the witness one shorter, then `k`. */
  function Grow(wit: seq<seq<int>>, l: int, k: int): seq<seq<int>>
    requires 0 <= l <= |wit|
  {
    var w := (if l == 0 then [] else wit[l - 1]) + [k];
    if l == |wit| then wit + [w] else wit[l := w]
  }

  /** Writing `x` at its lower-bound position keeps `tails` strictly increasing. */
  lemma PlaceIncreasing(tails: seq<int>, l: int, x: int)
    requires 0 <= l <= |tails| && StrictlyIncreasing(tails)
    requires forall q :: 0 <= q < l ==> tails[q] < x
    requires forall q :: l <= q < |tails| ==> tails[q] >= x
    ensures StrictlyIncreasing(Write(tails, l, x))
  {
  }

  /** The new entry is witnessed by the subsequence one shorter extended by `k`. */
  lemma PlaceWitnessed(s: seq<int>, k: int, tails: seq<int>, wit: seq<seq<int>>, l: int)
    requires 0 <= k < |s| && 0 <= l <= |tails|
    requires Witnessed(s, k, tails, wit)
    requires forall q :: 0 <= q < l ==> tails[q] < s[k]
    ensures Witnessed(s, k + 1, Write(tails, l, s[k]), Grow(wit, l, k))
  {
    var v := if l == 0 then [] else wit[l - 1];
    var t, wit' := Write(tails, l, s[k]), Grow(wit, l, k);
    Extend(s, v, k);
    assert wit'[l] == v + [k];
    forall L | 0 <= L < |t|
      ensures |wit'[L]| == L + 1 && IncSub(s, wit'[L]) && wit'[L][L] < k + 1 && s[wit'[L][L]] == t[L]
    {
      if L != l {
        assert wit'[L] == wit[L] && t[L] == tails[L];
      }
    }
  }

  /** An increasing subsequence ending below `k`, on a value below `s[k]`, extends by `k`. */
  lemma Extend(s: seq<int>, v: seq<int>, k: int)
    requires 0 <= k < |s| && IncSub(s, v)
    requires v != [] ==> v[|v| - 1] < k && s[v[|v| - 1]] < s[k]
    ensures IncSub(s, v + [k])
  {
  }

  /** No increasing subsequence ending at `k` beats the updated `tails`; older ones only gain. */
  lemma PlaceBounded(s: seq<int>, k: int, tails: seq<int>, l: int)
    requires 0 <= k < |s| && 0 <= l <= |tails|
    requires Bounded(s, k, tails)
    requires forall q :: 0 <= q < l ==> tails[q] < s[k]
    requires forall q :: l <= q < |tails| ==> tails[q] >= s[k]
    ensures Bounded(s, k + 1, Write(tails, l, s[k]))
  {
    var t := Write(tails, l, s[k]);
    forall idx | IncSub(s, idx) && idx != [] && idx[|idx| - 1] < k + 1
      ensures |idx| <= |t| && t[|idx| - 1] <= s[idx[|idx| - 1]]
    {
      var n := |idx|;
      if idx[n - 1] == k && n > 1 {
        var pre := idx[..n - 1];
        DropLast(s, idx);
        assert pre[n - 2] == idx[n - 2] < k;
        assert tails[n - 2] <= s[pre[n - 2]] < s[k];
      }
    }
  }

  /**
   * The first position of `t` whose entry is not below `x`, or `|t|` when
   * there is none: what the binary search of `lisLength` finds.
   */
  function FirstNotBelow(t: seq<int>, x: int): (l: nat)
    ensures l <= |t|
    ensures forall q :: 0 <= q < l ==> t[q] < x
    ensures l < |t| ==> t[l] >= x
  {
    if t == [] || t[0] >= x then 0 else 1 + FirstNotBelow(t[1..], x)
  }

  /** In a strictly increasing `t`, every entry from `FirstNotBelow` on is at least `x`. */
  lemma FirstNotBelowSplit(t: seq<int>, x: int)
    requires StrictlyIncreasing(t)
    ensures forall q :: FirstNotBelow(t, x) <= q < |t| ==> t[q] >= x
  {
  }

  /** A position with everything before it below `x` and its own entry not below `x` is `FirstNotBelow`. */
  lemma {:induction false} FirstNotBelowUnique(t: seq<int>, x: int, l: int)
    requires 0 <= l <= |t|
    requires forall q :: 0 <= q < l ==> t[q] < x
    requires l < |t| ==> t[l] >= x
    ensures l == FirstNotBelow(t, x)
  {
    if t != [] && t[0] < x {
      assert l > 0;
      FirstNotBelowUnique(t[1..], x, l - 1);
    }
  }

  /** The `tails` array after the first `k` elements of `s` have been placed. */
  function TailsOf(s: seq<int>, k: int): seq<int>
    requires 0 <= k <= |s|
  {
    if k == 0 then [] else
      var t := TailsOf(s, k - 1);
      Write(t, FirstNotBelow(t, s[k - 1]), s[k - 1])
  }

  /** For each entry of `TailsOf(s, k)`, the indices of an increasing subsequence that it ends. */
  ghost function WitnessesOf(s: seq<int>, k: int): (wit: seq<seq<int>>)
    requires 0 <= k <= |s|
    ensures |wit| == |TailsOf(s, k)|
  {
    if k == 0 then [] else
      var t := TailsOf(s, k - 1);
      Grow(WitnessesOf(s, k - 1), FirstNotBelow(t, s[k - 1]), k - 1)
  }

  /** After any number of elements, `tails` is strictly increasing. */
  lemma {:induction false} TailsIncreasing(s: seq<int>, k: int)
    requires 0 <= k <= |s|
    ensures StrictlyIncreasing(TailsOf(s, k))
  {
    if k > 0 {
      TailsIncreasing(s, k - 1);
      var t := TailsOf(s, k - 1);
      FirstNotBelowSplit(t, s[k - 1]);
      PlaceIncreasing(t, FirstNotBelow(t, s[k - 1]), s[k - 1]);
    }
  }

  /** After `k` elements, each entry of `tails` ends an increasing subsequence of its length plus one. */
  lemma {:induction false} TailsWitnessed(s: seq<int>, k: int)
    requires 0 <= k <= |s|
    ensures Witnessed(s, k, TailsOf(s, k), WitnessesOf(s, k))
  {
    if k > 0 {
      TailsWitnessed(s, k - 1);
      var t := TailsOf(s, k - 1);
      PlaceWitnessed(s, k - 1, t, WitnessesOf(s, k - 1), FirstNotBelow(t, s[k - 1]));
    }
  }

  /** After `k` elements, no increasing subsequence among them is longer than `tails` or ends lower. */
  lemma {:induction false} TailsBounded(s: seq<int>, k: int)
    requires 0 <= k <= |s|
    ensures Bounded(s, k, TailsOf(s, k))
  {
    if k == 0 {
      Start(s);
    } else {
      var t, x := TailsOf(s, k - 1), s[k - 1];
      var l := FirstNotBelow(t, x);
      assert TailsOf(s, k) == Write(t, l, x);
      TailsIncreasing(s, k - 1);
      FirstNotBelowSplit(t, x);
      TailsBounded(s, k - 1);
      PlaceBounded(s, k - 1, t, l);
    }
  }

  /** Once all of `s` is placed, `tails` is as long as a longest increasing subsequence. */
  lemma TailsLength(s: seq<int>)
    ensures exists idx :: IncSub(s, idx) && |idx| == |TailsOf(s, |s|)|
    ensures forall idx :: IncSub(s, idx) ==> |idx| <= |TailsOf(s, |s|)|
  {
    TailsWitnessed(s, |s|);
    TailsBounded(s, |s|);
    Conclude(s, TailsOf(s, |s|), WitnessesOf(s, |s|));
  }

  /** `lisLength(nums)`: the length of a longest strictly increasing subsequence. */
  method LisLength(s: seq<int>) returns (r: nat)
    ensures exists idx :: IncSub(s, idx) && |idx| == r
    ensures forall idx :: IncSub(s, idx) ==> |idx| <= r
  {
    var tails: seq<int> := [];
    for k := 0 to |s|
      invariant tails == TailsOf(s, k)
    {
      var x := s[k];
      TailsIncreasing(s, k);
      var l := LowerBound(tails, x);
      tails := Write(tails, l, x);
    }
    TailsLength(s);
    return |tails|;
  }

  /** The inner loop of `lisLength`: the first position whose entry is not below `x`. */
  method LowerBound(tails: seq<int>, x: int) returns (l: int)
    requires StrictlyIncreasing(tails)
    ensures l == FirstNotBelow(tails, x)
  {
    l := 0;
    var hi := |tails|;
    while l < hi
      invariant 0 <= l <= hi <= |tails|
      invariant forall q :: 0 <= q < l ==> tails[q] < x
      invariant forall q :: hi <= q < |tails| ==> tails[q] >= x
    {
      var m := (l + hi) / 2;
      if tails[m] < x {
        l := m + 1;
      } else {
        hi := m;
      }
    }
    FirstNotBelowUnique(tails, x, l);
  }

  /** Before any element is placed, no subsequence ends early enough to exceed the empty `tails`. */
  lemma Start(s: seq<int>)
    ensures Bounded(s, 0, [])
  {
    forall idx | IncSub(s, idx) && idx != [] ensures idx[|idx| - 1] >= 0 {
    }
  }

  /** Once every element is placed, `tails` is exactly as long as the longest increasing subsequence. */
  lemma Conclude(s: seq<int>, tails: seq<int>, wit: seq<seq<int>>)
    requires Witnessed(s, |s|, tails, wit) && Bounded(s, |s|, tails)
    ensures exists idx :: IncSub(s, idx) && |idx| == |tails|
    ensures forall idx :: IncSub(s, idx) ==> |idx| <= |tails|
  {
    if tails == [] {
      assert IncSub(s, []);
    } else {
      assert IncSub(s, wit[|tails| - 1]);
    }
  }
}
