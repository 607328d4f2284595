/**
 * `firstMissingPositive(nums)` (90file.js:512-526): the smallest positive integer
 * missing from the array, found by swapping every value `v` in `1..n` to index `v - 1`.
 */
module FirstMissing {

  /** How many of the first `m` positions hold their own index plus one. */
  function Placed(s: seq<int>, m: nat): nat
    requires m <= |s|
  {
    if m == 0 then 0 else Placed(s, m - 1) + (if s[m - 1] == m then 1 else 0)
  }

  /** Placed values stay placed and one more position gets placed: the count goes up. */
  lemma {:induction false} PlacedGrows(s: seq<int>, t: seq<int>, m: nat, q: int)
    requires m <= |s| == |t|
    requires forall p :: 0 <= p < m && s[p] == p + 1 ==> t[p] == p + 1
    ensures Placed(t, m) >= Placed(s, m)
    ensures 0 <= q < m && s[q] != q + 1 && t[q] == q + 1 ==> Placed(t, m) > Placed(s, m)
  {
    if m > 0 {
      PlacedGrows(s, t, m - 1, q);
    }
  }

  lemma {:induction false} PlacedBound(s: seq<int>, m: nat)
    requires m <= |s|
    ensures Placed(s, m) <= m
  {
    if m > 0 {
      PlacedBound(s, m - 1);
    }
  }

  /** Every value in `1..|s|` at the first `i` positions sits at its home position (value minus one) too. */
  predicate Homed(s: seq<int>, i: int)
    requires 0 <= i <= |s|
  {
    forall p :: 0 <= p < i && 1 <= s[p] <= |s| ==> s[s[p] - 1] == s[p]
  }

  /** The swap of the inner loop sends `s[i]` home: placements only grow, and earlier positions stay homed. */
  lemma SwapStep(s: seq<int>, i: int)
    requires 0 <= i < |s| && 1 <= s[i] <= |s| && s[s[i] - 1] != s[i]
    requires Homed(s, i)
    ensures var j := s[i] - 1; var t := s[i := s[j]][j := s[i]];
      Homed(t, i) && Placed(s, |s|) < Placed(t, |s|) <= |s| && multiset(t) == multiset(s)
  {
    var j := s[i] - 1;
    var t := s[i := s[j]][j := s[i]];
    PlacedGrows(s, t, |s|, j);
    PlacedBound(t, |s|);
  }

  /** After the placing pass, the first position not holding its index plus one gives the missing value. */
  lemma FirstGap(s: seq<int>, i: int)
    requires 0 <= i <= |s| && Homed(s, |s|)
    requires forall p :: 0 <= p < i ==> s[p] == p + 1
    requires i < |s| ==> s[i] != i + 1
    ensures i + 1 !in s
    ensures forall v :: 1 <= v < i + 1 ==> v in s
  {
    forall v | 1 <= v < i + 1 ensures v in s {
      assert s[v - 1] == v;
    }
  }

  /**
   * The result is the smallest positive integer that the array did not hold; the
   * array ends up a permutation of what it held.
   */
  method FirstMissingPositive(a: array<int>) returns (r: int)
    modifies a
    ensures multiset(a[..]) == multiset(old(a[..]))
    ensures 1 <= r <= a.Length + 1
    ensures r !in old(a[..])
    ensures forall v :: 1 <= v < r ==> v in old(a[..])
  {
    var n := a.Length;
    for i := 0 to n
      invariant multiset(a[..]) == multiset(old(a[..]))
      invariant Homed(a[..], i)
    {
      while 0 < a[i] <= n && a[a[i] - 1] != a[i]
        invariant multiset(a[..]) == multiset(old(a[..]))
        invariant Homed(a[..], i)
        decreases n - Placed(a[..], n)
      {
        var j := a[i] - 1;
        SwapStep(a[..], i);
        a[i], a[j] := a[j], a[i];
      }
    }
    r := n + 1;
    for i := 0 to n
      invariant forall p :: 0 <= p < i ==> a[p] == p + 1
    {
      if a[i] != i + 1 {
        r := i + 1;
        break;
      }
    }
    FirstGap(a[..], r - 1);
    assert forall x :: x in a[..] <==> x in old(a[..]) by {
      assert forall x :: x in a[..] <==> x in multiset(a[..]);
    }
  }
}
