/** `mergeSorted(a, b)` (90file.js:421-431): the merge step of merge sort, without `sort()`. */
module MergeSorted {
  import opened Search

  /**
   * The main loop takes the smaller head, `a`'s on a tie. The result holds
   * exactly the elements of both inputs, and it is sorted when both inputs are.
   */
  method Merge(a: seq<int>, b: seq<int>) returns (res: seq<int>)
    ensures multiset(res) == multiset(a) + multiset(b)
    ensures Sorted(a) && Sorted(b) ==> Sorted(res)
  {
    res := [];
    var i, j := 0, 0;
    while i < |a| && j < |b|
      invariant 0 <= i <= |a| && 0 <= j <= |b|
      invariant multiset(res) == multiset(a[..i]) + multiset(b[..j])
      invariant Sorted(a) && Sorted(b) ==> Sorted(res) && MergeFront(res, a, i, b, j)
    {
      if a[i] <= b[j] {
        Take(res, a, i, b, j);
        res := res + [a[i]];
        PrefixStep(a, i);
        i := i + 1;
      } else {
        Take(res, b, j, a, i);
        res := res + [b[j]];
        PrefixStep(b, j);
        j := j + 1;
      }
    }
    Finish(res, a, i, b, j);
    res := AppendRest(res, a, i);
    res := AppendRest(res, b, j);
  }

  /** The two tail loops: push what is left of `s`, from index `i0` on, onto `res0`. */
  method AppendRest(res0: seq<int>, s: seq<int>, i0: int) returns (res: seq<int>)
    requires 0 <= i0 <= |s|
    ensures res == res0 + s[i0..]
  {
    res := res0;
    var i := i0;
    while i < |s|
      invariant i0 <= i <= |s| && res == res0 + s[i0..i]
    {
      assert s[i0..i + 1] == s[i0..i] + [s[i]];
      res := res + [s[i]];
      i := i + 1;
    }
  }

  /** Once one input is used up, the rest of the other completes the merge. */
  lemma Finish(res: seq<int>, a: seq<int>, i: int, b: seq<int>, j: int)
    requires 0 <= i <= |a| && 0 <= j <= |b| && (i == |a| || j == |b|)
    requires multiset(res) == multiset(a[..i]) + multiset(b[..j])
    requires Sorted(a) && Sorted(b) ==> Sorted(res) && MergeFront(res, a, i, b, j)
    ensures multiset(res + a[i..] + b[j..]) == multiset(a) + multiset(b)
    ensures Sorted(a) && Sorted(b) ==> Sorted(res + a[i..] + b[j..])
  {
    assert a[..i] + a[i..] == a && b[..j] + b[j..] == b;
    if i == |a| {
      assert res + a[i..] + b[j..] == res + b[j..];
      if Sorted(a) && Sorted(b) {
        Tail(b, j);
        Concat(res, b[j..]);
      }
    } else {
      assert res + a[i..] + b[j..] == res + a[i..];
      if Sorted(a) && Sorted(b) {
        Tail(a, i);
        Concat(res, a[i..]);
      }
    }
  }

  lemma Tail(s: seq<int>, i: int)
    requires Sorted(s) && 0 <= i <= |s|
    ensures Sorted(s[i..]) && (i < |s| ==> s[i..][0] == s[i])
  {
  }

  /** Two sorted sequences, the first ending no higher than the second starts, concatenate to a sorted one. */
  lemma Concat(x: seq<int>, y: seq<int>)
    ensures Sorted(x) && Sorted(y) && (x != [] && y != [] ==> x[|x| - 1] <= y[0]) ==> Sorted(x + y)
  {
    if Sorted(x) && Sorted(y) && (x != [] && y != [] ==> x[|x| - 1] <= y[0]) {
      forall p, q | 0 <= p < q < |x + y| ensures (x + y)[p] <= (x + y)[q] {
        if p < |x| && q >= |x| {
          assert x[p] <= x[|x| - 1];
          assert y[0] <= y[q - |x|];
        }
      }
    }
  }

  lemma PrefixStep(s: seq<int>, i: int)
    requires 0 <= i < |s|
    ensures multiset(s[..i + 1]) == multiset(s[..i]) + multiset{s[i]}
  {
    assert s[..i + 1] == s[..i] + [s[i]];
  }

  /** Appending an element no smaller than the last keeps a sequence sorted. */
  lemma Push(res: seq<int>, x: int)
    ensures Sorted(res) && (res != [] ==> res[|res| - 1] <= x) ==> Sorted(res + [x])
  {
  }

  /** Taking the next element of `s`, when it is no larger than the next of `t`, keeps the merge in order. */
  lemma Take(res: seq<int>, s: seq<int>, i: int, t: seq<int>, j: int)
    requires 0 <= i < |s| && 0 <= j <= |t| && (j < |t| ==> s[i] <= t[j])
    ensures Sorted(s) && Sorted(t) && Sorted(res) && MergeFront(res, s, i, t, j) ==>
      Sorted(res + [s[i]]) && MergeFront(res + [s[i]], s, i + 1, t, j)
  {
    Push(res, s[i]);
  }

  /** The last element merged so far is no larger than the next element of either input. */
  predicate MergeFront(res: seq<int>, a: seq<int>, i: int, b: seq<int>, j: int)
    requires 0 <= i <= |a| && 0 <= j <= |b|
  {
    res != [] ==> (i < |a| ==> res[|res| - 1] <= a[i]) && (j < |b| ==> res[|res| - 1] <= b[j])
  }
}
