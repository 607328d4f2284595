/**
 * The interval utilities of 90file.js: `mergeIntervals` (577-588),
 * `insertInterval` (593-607) and `canAttendMeetings` (947-953). An interval
 * `[s, e]` is the pair `(s, e)`; it covers the real points from `s` to `e`.
 */
module Intervals {
  import opened Common

  type Interval = (int, int)

  predicate AllValid(ivs: seq<Interval>) {
    forall k :: 0 <= k < |ivs| ==> ivs[k].0 <= ivs[k].1
  }

  /**
   * The interval `iv` covers the point `p`. Points are real numbers, so two
   * intervals that only touch on the integers (`[1,2]` and `[3,4]`) still leave
   * a gap between them.
   */
  predicate In(iv: Interval, p: real) {
    iv.0 as real <= p <= iv.1 as real
  }

  /** Some interval of `ivs` covers `p`. */
  predicate Covered(ivs: seq<Interval>, p: real) {
    exists iv :: iv in ivs && In(iv, p)
  }

  /** `a` and `b` cover the same points. */
  ghost predicate SameCover(a: seq<Interval>, b: seq<Interval>) {
    forall p :: Covered(a, p) <==> Covered(b, p)
  }

  /** Each interval ends before the next one starts: sorted, and no two overlap or touch. */
  predicate Separated(ivs: seq<Interval>) {
    forall k :: 0 < k < |ivs| ==> ivs[k - 1].1 < ivs[k].0
  }

  predicate SortedByStart(ivs: seq<Interval>) {
    forall i, j :: 0 <= i < j < |ivs| ==> ivs[i].0 <= ivs[j].0
  }

  /** Places `x` after every interval of `t` that starts no later, so that equal starts keep their order. */
  function InsertByStart(t: seq<Interval>, x: Interval): (r: seq<Interval>)
    ensures multiset(r) == multiset(t) + multiset{x}
  {
    if t == [] then [x]
    else if t[|t| - 1].0 <= x.0 then t + [x]
    else
      assert t == t[..|t| - 1] + [t[|t| - 1]];
      InsertByStart(t[..|t| - 1], x) + [t[|t| - 1]]
  }

  /** Inserting into a sorted sequence keeps it sorted. */
  lemma {:induction false} InsertSorted(t: seq<Interval>, x: Interval)
    requires SortedByStart(t)
    ensures SortedByStart(InsertByStart(t, x))
  {
    if t != [] && t[|t| - 1].0 > x.0 {
      var init, last := t[..|t| - 1], t[|t| - 1];
      InsertSorted(init, x);
      var r0 := InsertByStart(init, x);
      forall k | 0 <= k < |r0| ensures r0[k].0 <= last.0 {
        assert r0[k] in multiset(init) + multiset{x};
      }
      SnocSorted(r0, last);
    }
  }

  lemma SnocSorted(a: seq<Interval>, x: Interval)
    requires SortedByStart(a) && forall k :: 0 <= k < |a| ==> a[k].0 <= x.0
    ensures SortedByStart(a + [x])
  {
  }

  /**
   * `intervals.sort((a, b) => a[0] - b[0])`: a stable sort by start, as
   * JavaScript's `Array.prototype.sort` is.
   */
  function SortByStart(ivs: seq<Interval>): (r: seq<Interval>)
    ensures multiset(r) == multiset(ivs)
    ensures SortedByStart(r)
  {
    if ivs == [] then []
    else
      assert ivs == ivs[..|ivs| - 1] + [ivs[|ivs| - 1]];
      var t := SortByStart(ivs[..|ivs| - 1]);
      InsertSorted(t, ivs[|ivs| - 1]);
      InsertByStart(t, ivs[|ivs| - 1])
  }

  /** Sorting keeps the intervals, so it keeps what they cover and whether they are valid. */
  lemma SortKeeps(ivs: seq<Interval>)
    ensures forall p :: Covered(SortByStart(ivs), p) <==> Covered(ivs, p)
    ensures AllValid(ivs) ==> AllValid(SortByStart(ivs))
  {
    var r := SortByStart(ivs);
    assert forall iv :: iv in r <==> iv in ivs by {
      forall iv ensures iv in r <==> iv in ivs {
        assert iv in r <==> iv in multiset(r);
        assert iv in ivs <==> iv in multiset(ivs);
      }
    }
    if AllValid(ivs) {
      forall k | 0 <= k < |r| ensures r[k].0 <= r[k].1 {
        assert r[k] in ivs;
      }
    }
  }

  /** Covering by `a + [x]` is covering by `a` or by `x`. */
  lemma CoveredSnoc(a: seq<Interval>, x: Interval, p: real)
    ensures Covered(a + [x], p) <==> Covered(a, p) || In(x, p)
  {
    if Covered(a + [x], p) {
      var iv :| iv in a + [x] && In(iv, p);
      assert iv in a || iv == x;
    }
    if In(x, p) {
      assert x in a + [x];
    }
    if Covered(a, p) {
      var iv :| iv in a && In(iv, p);
      assert iv in a + [x];
    }
  }

  /**
   * `last[1] = Math.max(last[1], e)` for an interval `iv` that starts within
   * the last one: the widened last interval covers exactly both.
   */
  lemma Widen(res: seq<Interval>, iv: Interval)
    requires res != [] && iv.0 <= iv.1
    requires res[|res| - 1].0 <= iv.0 <= res[|res| - 1].1
    ensures var l := res[|res| - 1];
      forall p :: Covered(res[|res| - 1 := (l.0, Max(l.1, iv.1))], p) <==> Covered(res, p) || In(iv, p)
  {
    var n, l := |res|, res[|res| - 1];
    var w := (l.0, Max(l.1, iv.1));
    assert res == res[..n - 1] + [l];
    assert res[n - 1 := w] == res[..n - 1] + [w];
    forall p ensures Covered(res[n - 1 := w], p) <==> Covered(res, p) || In(iv, p) {
      CoveredSnoc(res[..n - 1], l, p);
      CoveredSnoc(res[..n - 1], w, p);
    }
  }

  /** One step of `mergeIntervals` that widens the last merged interval keeps the loop's facts. */
  lemma MergeInto(res: seq<Interval>, done: seq<Interval>, iv: Interval)
    requires res != [] && iv.0 <= iv.1 && res[|res| - 1].0 <= iv.0 <= res[|res| - 1].1
    requires AllValid(res) && Separated(res)
    requires SameCover(res, done)
    ensures var l := res[|res| - 1]; var r := res[|res| - 1 := (l.0, Max(l.1, iv.1))];
      AllValid(r) && Separated(r) && SameCover(r, done + [iv])
  {
    Widen(res, iv);
    forall p ensures Covered(done + [iv], p) <==> Covered(done, p) || In(iv, p) {
      CoveredSnoc(done, iv, p);
    }
  }

  /** One step of `mergeIntervals` that opens a new interval keeps the loop's facts. */
  lemma MergeAfter(res: seq<Interval>, done: seq<Interval>, iv: Interval)
    requires res != [] && iv.0 <= iv.1 && res[|res| - 1].1 < iv.0
    requires AllValid(res) && Separated(res)
    requires SameCover(res, done)
    ensures AllValid(res + [iv]) && Separated(res + [iv])
    ensures SameCover(res + [iv], done + [iv])
  {
    forall p ensures Covered(res + [iv], p) <==> Covered(done + [iv], p) {
      CoveredSnoc(done, iv, p);
      CoveredSnoc(res, iv, p);
    }
  }

  /**
   * `mergeIntervals(intervals)`: after sorting by start, each interval either
   * extends the last merged one, when it starts no later than that one ends,
   * or opens a new one. For valid intervals the result covers exactly what
   * the input covers, with gaps between its intervals.
   */
  method MergeIntervals(ivs: seq<Interval>) returns (res: seq<Interval>)
    ensures ivs == [] ==> res == []
    ensures ivs != [] ==> res != []
    ensures AllValid(ivs) ==> AllValid(res) && Separated(res)
    ensures AllValid(ivs) ==> forall p :: Covered(res, p) <==> Covered(ivs, p)
  {
    if ivs == [] {
      return [];
    }
    var sorted := SortByStart(ivs);
    SortKeeps(ivs);
    res := MergeSorted(sorted, AllValid(ivs));
  }

  /** The loop of `mergeIntervals`, over the intervals sorted by start. */
  method MergeSorted(sorted: seq<Interval>, ghost valid: bool) returns (res: seq<Interval>)
    requires sorted != [] && SortedByStart(sorted) && (valid ==> AllValid(sorted))
    ensures res != []
    ensures valid ==> AllValid(res) && Separated(res) && SameCover(res, sorted)
  {
    res := [sorted[0]];
    assert sorted[..1] == [sorted[0]];
    for i := 1 to |sorted|
      invariant res != [] && res[|res| - 1].0 <= sorted[i - 1].0
      invariant valid ==> AllValid(res) && Separated(res)
      invariant valid ==> SameCover(res, sorted[..i])
    {
      var iv := sorted[i];
      var last := res[|res| - 1];
      assert sorted[..i + 1] == sorted[..i] + [iv];
      if iv.0 <= last.1 {
        if valid {
          MergeInto(res, sorted[..i], iv);
        }
        res := res[|res| - 1 := (last.0, Max(last.1, iv.1))];
      } else {
        if valid {
          MergeAfter(res, sorted[..i], iv);
        }
        res := res + [iv];
      }
    }
    assert sorted[..|sorted|] == sorted;
  }

  /** Covering by `a + b` is covering by `a` or by `b`. */
  lemma CoveredConcat(a: seq<Interval>, b: seq<Interval>, p: real)
    ensures Covered(a + b, p) <==> Covered(a, p) || Covered(b, p)
  {
    if Covered(a + b, p) {
      var iv :| iv in a + b && In(iv, p);
      assert iv in a || iv in b;
    }
    if Covered(a, p) {
      var iv :| iv in a && In(iv, p);
      assert iv in a + b;
    }
    if Covered(b, p) {
      var iv :| iv in b && In(iv, p);
      assert iv in a + b;
    }
  }

  /** Intervals of a separated, valid sequence end in increasing order, so every later one ends after an earlier one. */
  lemma SeparatedEnds(ivs: seq<Interval>, i: int, j: int)
    requires AllValid(ivs) && Separated(ivs) && 0 <= i < j < |ivs|
    ensures ivs[i].1 < ivs[j].0
    decreases j - i
  {
    if i < j - 1 {
      SeparatedEnds(ivs, i, j - 1);
    }
  }

  /** A valid, separated list covers its first start, and nothing before it. */
  lemma FirstStart(a: seq<Interval>, p: real)
    requires a != [] && AllValid(a) && Separated(a)
    ensures Covered(a, a[0].0 as real)
    ensures Covered(a, p) ==> a[0].0 as real <= p
  {
    assert a[0] in a && In(a[0], a[0].0 as real);
    if Covered(a, p) {
      var iv :| iv in a && In(iv, p);
      var j :| 0 <= j < |a| && a[j] == iv;
      if j > 0 {
        SeparatedEnds(a, 0, j);
      }
    }
  }

  /** When two separated lists with the same cover start alike, the first one's first interval ends no earlier. */
  lemma EndNoEarlier(a: seq<Interval>, b: seq<Interval>)
    requires AllValid(a) && Separated(a) && AllValid(b) && Separated(b) && SameCover(a, b)
    requires a != [] && b != [] && a[0].0 == b[0].0
    ensures b[0].1 <= a[0].1
  {
    if a[0].1 < b[0].1 {
      var e, f := a[0].1 as real, b[0].1 as real;
      var q := if |a| > 1 && (a[1].0 as real) < f then (e + a[1].0 as real) / 2.0 else (e + f) / 2.0;
      assert b[0] in b && In(b[0], q);
      assert Covered(a, q);
      var iv :| iv in a && In(iv, q);
      var j :| 0 <= j < |a| && a[j] == iv;
      if j > 0 {
        assert a[1..][j - 1] == iv;
        FirstStart(a[1..], q);
      }
      assert false;
    }
  }

  /** A point beyond the common first interval is covered by the rest of one list exactly when by the rest of the other. */
  lemma TailCovered(a: seq<Interval>, b: seq<Interval>, p: real)
    requires AllValid(a) && Separated(a) && AllValid(b) && Separated(b) && SameCover(a, b)
    requires a != [] && b != [] && a[0].1 == b[0].1 && Covered(a[1..], p)
    ensures Covered(b[1..], p)
  {
    var iv :| iv in a[1..] && In(iv, p);
    var j :| 0 <= j < |a| - 1 && a[1..][j] == iv;
    SeparatedEnds(a, 0, j + 1);
    assert iv in a && Covered(a, p);
    var jv :| jv in b && In(jv, p);
    var k :| 0 <= k < |b| && b[k] == jv;
    assert k != 0;
    assert b[1..][k - 1] == jv;
  }

  /**
   * Valid, separated lists that cover the same points are equal: the results
   * of `mergeIntervals` and `insertInterval` are fixed by the points they cover.
   */
  lemma {:induction false} CoverDetermines(a: seq<Interval>, b: seq<Interval>)
    requires AllValid(a) && Separated(a) && AllValid(b) && Separated(b) && SameCover(a, b)
    ensures a == b
    decreases |a|
  {
    if a == [] && b != [] {
      FirstStart(b, 0.0);
      assert false;
    } else if a != [] && b == [] {
      FirstStart(a, 0.0);
      assert false;
    } else if a != [] {
      FirstStart(a, b[0].0 as real);
      FirstStart(b, a[0].0 as real);
      assert a[0].0 == b[0].0;
      EndNoEarlier(a, b);
      EndNoEarlier(b, a);
      forall p ensures Covered(a[1..], p) <==> Covered(b[1..], p) {
        if Covered(a[1..], p) {
          TailCovered(a, b, p);
        }
        if Covered(b[1..], p) {
          TailCovered(b, a, p);
        }
      }
      CoverDetermines(a[1..], b[1..]);
      assert a == [a[0]] + a[1..] && b == [b[0]] + b[1..];
    }
  }

  /** `[1,2]` and `[3,4]` only touch on the integers, so a merge must keep them apart. */
  lemma TouchingKeptApart(res: seq<Interval>)
    requires AllValid(res) && Separated(res) && SameCover(res, [(1, 2), (3, 4)])
    ensures res == [(1, 2), (3, 4)]
  {
    CoverDetermines(res, [(1, 2), (3, 4)]);
  }

  /** Slices and concatenations of separated, valid sequences. */
  lemma SeparatedJoin(a: seq<Interval>, x: Interval, b: seq<Interval>)
    requires AllValid(a) && Separated(a) && AllValid(b) && Separated(b) && x.0 <= x.1
    requires a != [] ==> a[|a| - 1].1 < x.0
    requires b != [] ==> x.1 < b[0].0
    ensures AllValid(a + [x] + b) && Separated(a + [x] + b)
  {
  }

  /**
   * `insertInterval(intervals, newInt)`: copy the intervals that end before
   * the new one starts, absorb those that start no later than it ends, then
   * copy the rest. For a separated, valid input and a valid new interval,
   * the result is separated and covers exactly the input and the new interval.
   */
  method InsertInterval(ivs: seq<Interval>, newInt: Interval) returns (res: seq<Interval>)
    ensures AllValid(ivs) && Separated(ivs) && newInt.0 <= newInt.1 ==> AllValid(res) && Separated(res)
    ensures AllValid(ivs) && Separated(ivs) && newInt.0 <= newInt.1 ==>
      forall p :: Covered(res, p) <==> Covered(ivs, p) || In(newInt, p)
  {
    ghost var pre := AllValid(ivs) && Separated(ivs) && newInt.0 <= newInt.1;
    res := [];
    var ns, ne := newInt.0, newInt.1;
    var i := 0;
    while i < |ivs| && ivs[i].1 < ns
      invariant 0 <= i <= |ivs| && res == ivs[..i]
      invariant forall k :: 0 <= k < i ==> ivs[k].1 < newInt.0
    {
      res := res + [ivs[i]];
      i := i + 1;
    }
    ghost var i0 := i;
    ns, ne, i := AbsorbOverlapping(ivs, newInt, i);
    ghost var i1 := i;
    res := res + [(ns, ne)];
    while i < |ivs|
      invariant i1 <= i <= |ivs| && res == ivs[..i0] + [(ns, ne)] + ivs[i1..i]
    {
      res := res + [ivs[i]];
      i := i + 1;
    }
    if pre {
      InsertFinish(ivs, newInt, i0, i1, ns, ne, res);
    }
  }

  /**
   * The second loop of `insertInterval`: widen `[ns, ne]` over every interval
   * from `i0` on that starts no later than it ends.
   */
  method AbsorbOverlapping(ivs: seq<Interval>, newInt: Interval, i0: int) returns (ns: int, ne: int, i: int)
    requires 0 <= i0 <= |ivs|
    ensures i0 <= i <= |ivs| && newInt.1 <= ne && (i < |ivs| ==> ne < ivs[i].0)
    ensures AllValid(ivs) && Separated(ivs) && newInt.0 <= newInt.1 && (i0 < |ivs| ==> newInt.0 <= ivs[i0].1) ==>
      (ns == if i0 < i then Min(newInt.0, ivs[i0].0) else newInt.0) &&
      forall p :: In((ns, ne), p) <==> In(newInt, p) || Covered(ivs[i0..i], p)
  {
    ghost var pre := AllValid(ivs) && Separated(ivs) && newInt.0 <= newInt.1 && (i0 < |ivs| ==> newInt.0 <= ivs[i0].1);
    ns, ne, i := newInt.0, newInt.1, i0;
    while i < |ivs| && ivs[i].0 <= ne
      invariant i0 <= i <= |ivs| && newInt.1 <= ne
      invariant pre ==> ns == if i0 < i then Min(newInt.0, ivs[i0].0) else newInt.0
      invariant pre ==> forall p :: In((ns, ne), p) <==> In(newInt, p) || Covered(ivs[i0..i], p)
    {
      var iv := ivs[i];
      if pre {
        Absorb(ivs, newInt, i0, i, ns, ne);
      }
      ns := Min(ns, iv.0);
      ne := Max(ne, iv.1);
      i := i + 1;
    }
  }

  /** Absorbing the next interval into `[ns, ne]` keeps it equal to the new interval and those absorbed so far. */
  lemma Absorb(ivs: seq<Interval>, newInt: Interval, i0: int, i: int, ns: int, ne: int)
    requires AllValid(ivs) && Separated(ivs) && newInt.0 <= newInt.1
    requires 0 <= i0 <= i < |ivs| && ivs[i].0 <= ne && newInt.0 <= ivs[i0].1
    requires newInt.1 <= ne && ns == if i0 < i then Min(newInt.0, ivs[i0].0) else newInt.0
    requires forall p :: In((ns, ne), p) <==> In(newInt, p) || Covered(ivs[i0..i], p)
    ensures Min(ns, ivs[i].0) == Min(newInt.0, ivs[i0].0)
    ensures forall p :: In((Min(ns, ivs[i].0), Max(ne, ivs[i].1)), p) <==>
      In(newInt, p) || Covered(ivs[i0..i + 1], p)
  {
    var iv := ivs[i];
    if i0 < i {
      SeparatedEnds(ivs, i0, i);
    }
    assert iv.0 <= iv.1 && newInt.0 <= iv.1;
    forall p ensures Covered(ivs[i0..i + 1], p) <==> Covered(ivs[i0..i], p) || In(iv, p) {
      assert ivs[i0..i + 1] == ivs[i0..i] + [iv];
      CoveredSnoc(ivs[i0..i], iv, p);
    }
  }

  /** Putting the three parts of `insertInterval` together. */
  lemma InsertFinish(ivs: seq<Interval>, newInt: Interval, i0: int, i1: int, ns: int, ne: int, res: seq<Interval>)
    requires AllValid(ivs) && Separated(ivs) && newInt.0 <= newInt.1
    requires 0 <= i0 <= i1 <= |ivs|
    requires forall k :: 0 <= k < i0 ==> ivs[k].1 < newInt.0
    requires newInt.1 <= ne && ns == if i0 < i1 then Min(newInt.0, ivs[i0].0) else newInt.0
    requires i1 < |ivs| ==> ne < ivs[i1].0
    requires forall p :: In((ns, ne), p) <==> In(newInt, p) || Covered(ivs[i0..i1], p)
    requires res == ivs[..i0] + [(ns, ne)] + ivs[i1..|ivs|]
    ensures AllValid(res) && Separated(res)
    ensures forall p :: Covered(res, p) <==> Covered(ivs, p) || In(newInt, p)
  {
    assert ivs[i1..|ivs|] == ivs[i1..];
    InsertShape(ivs, newInt, i0, i1, ns, ne);
    InsertCover(ivs, newInt, i0, i1, ns, ne);
  }

  /** The copied intervals, the widened one and the rest stay valid and separated. */
  lemma InsertShape(ivs: seq<Interval>, newInt: Interval, i0: int, i1: int, ns: int, ne: int)
    requires AllValid(ivs) && Separated(ivs) && newInt.0 <= newInt.1
    requires 0 <= i0 <= i1 <= |ivs|
    requires forall k :: 0 <= k < i0 ==> ivs[k].1 < newInt.0
    requires newInt.1 <= ne && ns == if i0 < i1 then Min(newInt.0, ivs[i0].0) else newInt.0
    requires i1 < |ivs| ==> ne < ivs[i1].0
    ensures AllValid(ivs[..i0] + [(ns, ne)] + ivs[i1..]) && Separated(ivs[..i0] + [(ns, ne)] + ivs[i1..])
  {
    var a, b := ivs[..i0], ivs[i1..];
    assert ns <= ne;
    if a != [] && i0 < i1 {
      SeparatedEnds(ivs, i0 - 1, i0);
    }
    assert AllValid(a) && Separated(a) by {
      forall k | 0 < k < |a| ensures a[k - 1].1 < a[k].0 {
        assert a[k - 1] == ivs[k - 1] && a[k] == ivs[k];
      }
    }
    assert AllValid(b) && Separated(b) by {
      forall k | 0 < k < |b| ensures b[k - 1].1 < b[k].0 {
        assert b[k - 1] == ivs[i1 + k - 1] && b[k] == ivs[i1 + k];
      }
    }
    SeparatedJoin(a, (ns, ne), b);
  }

  /** The widened interval stands for the new one and the intervals it absorbed. */
  lemma InsertCover(ivs: seq<Interval>, newInt: Interval, i0: int, i1: int, ns: int, ne: int)
    requires 0 <= i0 <= i1 <= |ivs|
    requires forall p :: In((ns, ne), p) <==> In(newInt, p) || Covered(ivs[i0..i1], p)
    ensures forall p :: Covered(ivs[..i0] + [(ns, ne)] + ivs[i1..], p) <==> Covered(ivs, p) || In(newInt, p)
  {
    var a, m, b := ivs[..i0], ivs[i0..i1], ivs[i1..];
    assert ivs == a + m + b;
    forall p ensures Covered(a + [(ns, ne)] + b, p) <==> Covered(ivs, p) || In(newInt, p) {
      CoveredConcat(a + [(ns, ne)], b, p);
      CoveredSnoc(a, (ns, ne), p);
      CoveredConcat(a + m, b, p);
      CoveredConcat(a, m, p);
    }
  }

  /** Neighbours in the sorted order do not overlap: each meeting ends no later than the next starts. */
  predicate ConsecutiveApart(ivs: seq<Interval>) {
    forall i :: 1 <= i < |ivs| ==> ivs[i - 1].1 <= ivs[i].0
  }

  /** `canAttendMeetings(intervals)`: sort by start, then compare each meeting with the one before. */
  method CanAttendMeetings(ivs: seq<Interval>) returns (ok: bool)
    ensures ok <==> ConsecutiveApart(SortByStart(ivs))
    ensures AllPositive(ivs) ==> (ok <==> NoClash(multiset(ivs)))
  {
    var sorted := SortByStart(ivs);
    ok := EachAfterPrevious(sorted);
    CanAttendMeaning(ivs);
  }

  /** The loop of `canAttendMeetings`: it stops at the first meeting that starts before the previous one ends. */
  method EachAfterPrevious(sorted: seq<Interval>) returns (ok: bool)
    ensures ok <==> ConsecutiveApart(sorted)
  {
    ok := true;
    var i := 1;
    while i < |sorted|
      invariant 1 <= i && forall k :: 1 <= k < i && k < |sorted| ==> sorted[k - 1].1 <= sorted[k].0
    {
      if sorted[i].0 < sorted[i - 1].1 {
        ok := false;
        break;
      }
      i := i + 1;
    }
  }

  predicate AllPositive(ivs: seq<Interval>) {
    forall k :: 0 <= k < |ivs| ==> ivs[k].0 < ivs[k].1
  }

  /** Two meetings do not clash: one ends no later than the other starts. */
  predicate Compatible(a: Interval, b: Interval) {
    a.1 <= b.0 || b.1 <= a.0
  }

  /** No two of the meetings clash; a meeting listed twice clashes with itself unless it takes no time. */
  predicate NoClash(m: multiset<Interval>) {
    (forall a, b :: a in m && b in m && a != b ==> Compatible(a, b)) &&
    (forall a :: a in m && m[a] >= 2 ==> Compatible(a, a))
  }

  /** Every two positions hold compatible meetings. */
  predicate PairwiseCompatible(ivs: seq<Interval>) {
    forall i, j :: 0 <= i < j < |ivs| ==> Compatible(ivs[i], ivs[j])
  }

  /**
   * For meetings of positive length, the sorted check of `canAttendMeetings`
   * answers whether any two of the meetings clash, whatever order they come in.
   */
  lemma CanAttendMeaning(ivs: seq<Interval>)
    ensures AllPositive(ivs) ==> (ConsecutiveApart(SortByStart(ivs)) <==> NoClash(multiset(ivs)))
  {
    if AllPositive(ivs) {
      var sorted := SortByStart(ivs);
      assert AllPositive(sorted) by {
        forall k | 0 <= k < |sorted| ensures sorted[k].0 < sorted[k].1 {
          assert sorted[k] in multiset(ivs);
        }
      }
      SortedApart(sorted);
      PairwiseIsNoClash(sorted);
    }
  }

  /** In a sorted sequence of positive-length meetings, neighbours apart is every two apart. */
  lemma SortedApart(s: seq<Interval>)
    requires SortedByStart(s) && AllPositive(s)
    ensures ConsecutiveApart(s) <==> PairwiseCompatible(s)
  {
    if ConsecutiveApart(s) {
      forall i, j | 0 <= i < j < |s| ensures Compatible(s[i], s[j]) {
        ChainApart(s, i, j);
      }
    }
    if PairwiseCompatible(s) {
      forall i | 1 <= i < |s| ensures s[i - 1].1 <= s[i].0 {
        assert Compatible(s[i - 1], s[i]);
      }
    }
  }

  lemma {:induction false} ChainApart(s: seq<Interval>, i: int, j: int)
    requires AllPositive(s) && ConsecutiveApart(s) && 0 <= i < j < |s|
    ensures s[i].1 <= s[j].0
    decreases j - i
  {
    if i < j - 1 {
      ChainApart(s, i, j - 1);
    }
  }

  /** Asking every two positions is asking every two meetings, with a repeated meeting paired with itself. */
  lemma PairwiseIsNoClash(s: seq<Interval>)
    ensures PairwiseCompatible(s) <==> NoClash(multiset(s))
  {
    var m := multiset(s);
    if PairwiseCompatible(s) {
      forall a, b | a in m && b in m && a != b ensures Compatible(a, b) {
        var i :| 0 <= i < |s| && s[i] == a;
        var j :| 0 <= j < |s| && s[j] == b;
        if i < j {
          assert Compatible(s[i], s[j]);
        } else {
          assert Compatible(s[j], s[i]);
        }
      }
      forall a | a in m && m[a] >= 2 ensures Compatible(a, a) {
        var i, j := TwoCopies(s, a);
        assert Compatible(s[i], s[j]);
      }
    }
    if NoClash(m) {
      forall i, j | 0 <= i < j < |s| ensures Compatible(s[i], s[j]) {
        if s[i] == s[j] {
          RepeatCounted(s, i, j);
        }
      }
    }
  }

  /** A value counted twice sits at two positions. */
  lemma TwoCopies(s: seq<Interval>, a: Interval) returns (i: int, j: int)
    requires multiset(s)[a] >= 2
    ensures 0 <= i < j < |s| && s[i] == a && s[j] == a
  {
    assert a in multiset(s);
    var k :| 0 <= k < |s| && s[k] == a;
    assert s == s[..k] + [a] + s[k + 1..];
    assert multiset(s[..k] + s[k + 1..])[a] >= 1;
    var rest := s[..k] + s[k + 1..];
    assert a in rest;
    if a in s[..k] {
      var p :| 0 <= p < k && s[..k][p] == a;
      i, j := p, k;
    } else {
      assert a in s[k + 1..];
      var p :| 0 <= p < |s| - k - 1 && s[k + 1..][p] == a;
      i, j := k, k + 1 + p;
    }
  }

  /** A value at two positions is counted at least twice. */
  lemma RepeatCounted(s: seq<Interval>, i: int, j: int)
    requires 0 <= i < j < |s| && s[i] == s[j]
    ensures multiset(s)[s[i]] >= 2
  {
    assert s == s[..j] + [s[j]] + s[j + 1..];
    assert s[..j][i] == s[i];
  }

  /**
   * With a meeting that takes no time, the answer depends on the input order:
   * `[5, 5]` and `[5, 7]` may both be attended when listed in that order, not
   * in the other, since the stable sort keeps equal starts as they came.
   */
  lemma ZeroLengthOrder()
    ensures ConsecutiveApart(SortByStart([(5, 5), (5, 7)]))
    ensures !ConsecutiveApart(SortByStart([(5, 7), (5, 5)]))
  {
    assert [(5, 5), (5, 7)][..1] == [(5, 5)];
    assert [(5, 7), (5, 5)][..1] == [(5, 7)];
  }
}
