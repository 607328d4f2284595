/** `rotateArray(nums, k)` (90file.js:261-274): rotate right by `k` in place with three reversals. */
module RotateArray {
  import opened Common

  /** What rotating right by `k` means: the last `k mod n` elements move to the front. */
  function RotateRight<T>(s: seq<T>, k: nat): seq<T> {
    if |s| == 0 then s else s[|s| - k % |s|..] + s[..|s| - k % |s|]
  }

  /** Every element moves `k` places to the right, wrapping round at the end. */
  lemma RotateMoves<T>(s: seq<T>, k: nat, i: int)
    requires 0 <= i < |s|
    ensures RotateRight(s, k)[(i + k) % |s|] == s[i]
  {
    var n := |s|;
    var d := k % n;
    ModShift(i, k, n);
    if i + d < n {
      DivModUnique(i + d, 0, i + d, n);
      RotationIndex(s, d, i + d);
    } else {
      DivModUnique(i + d, 1, i + d - n, n);
      RotationIndex(s, d, i + d - n);
    }
  }

  /** Where each position of the rotation takes its element from. */
  lemma RotationIndex<T>(s: seq<T>, d: int, j: int)
    requires 0 <= d < |s| && 0 <= j < |s|
    ensures (s[|s| - d..] + s[..|s| - d])[j] == if j < d then s[|s| - d + j] else s[j - d]
  {
  }

  lemma ModShift(i: nat, k: nat, n: nat)
    requires n > 0
    ensures (i + k) % n == (i + k % n) % n
  {
    var q := k / n;
    assert k == q * n + k % n;
    assert i + k == (i + k % n) + q * n;
    AddMultiple(i + k % n, q, n);
  }

  lemma AddMultiple(x: nat, q: nat, n: nat)
    requires n > 0
    ensures (x + q * n) % n == x % n
  {
    assert x == (x / n) * n + x % n;
    assert (x / n + q) * n == (x / n) * n + q * n;
    DivModUnique(x + q * n, x / n + q, x % n, n);
  }

  /** Reversing the whole, then the first `d` and the remaining elements separately, rotates right by `d`. */
  lemma ThreeReversals<T>(s: seq<T>, d: nat)
    requires d <= |s|
    ensures Reversed(Reversed(s)[..d]) + Reversed(Reversed(s)[d..]) == s[|s| - d..] + s[..|s| - d]
  {
    var n := |s|;
    assert s == s[..n - d] + s[n - d..];
    ReversedConcat(s[..n - d], s[n - d..]);
    var r := Reversed(s);
    assert r[..d] == Reversed(s[n - d..]);
    assert r[d..] == Reversed(s[..n - d]);
    ReversedTwice(s[n - d..]);
    ReversedTwice(s[..n - d]);
  }

  /** The three reversals `rotateArray` performs rotate right by `k`. */
  lemma RotateByReversals<T>(s: seq<T>, k: nat)
    requires |s| > 0
    ensures var n, d := |s|, k % |s|;
      ReverseRange(ReverseRange(ReverseRange(s, 0, n - 1), 0, d - 1), d, n - 1) == RotateRight(s, k)
  {
    var n, d := |s|, k % |s|;
    ReverseWhole(s);
    TwoHalves(Reversed(s), d);
    ThreeReversals(s, d);
  }

  /** Reversing the first `d` elements and then the rest reverses each half on its own. */
  lemma TwoHalves<T>(r: seq<T>, d: int)
    requires 0 <= d <= |r|
    ensures ReverseRange(ReverseRange(r, 0, d - 1), d, |r| - 1) == Reversed(r[..d]) + Reversed(r[d..])
  {
    ReverseFront(r, d);
    var r2 := Reversed(r[..d]) + r[d..];
    assert r2[..d] == Reversed(r[..d]) && r2[d..] == r[d..];
    ReverseBack(r2, d);
  }

  /** The `reverse(i, j)` helper: swap inwards until the ends meet. */
  method Reverse(a: array<int>, i: int, j: int)
    requires 0 <= i <= j + 1 <= a.Length
    modifies a
    ensures a[..] == ReverseRange(old(a[..]), i, j)
  {
    var lo, hi := i, j;
    while lo < hi
      invariant i <= lo && hi <= j && lo - i == j - hi && lo <= hi + 1
      invariant forall p :: 0 <= p < i || j < p < a.Length || lo <= p <= hi ==> a[p] == old(a[p])
      invariant forall p :: i <= p < lo ==> a[p] == old(a[i + j - p]) && a[i + j - p] == old(a[p])
    {
      a[lo], a[hi] := a[hi], a[lo];
      lo, hi := lo + 1, hi - 1;
    }
    assert forall p :: i <= p <= j ==> a[p] == old(a[i + j - p]);
    assert a[..] == ReverseRange(old(a[..]), i, j);
  }

  /** `s` with the elements from `i` to `j` inclusive in reverse order. */
  function ReverseRange<T>(s: seq<T>, i: int, j: int): seq<T>
    requires 0 <= i <= j + 1 <= |s|
  {
    s[..i] + Reversed(s[i..j + 1]) + s[j + 1..]
  }

  /** The three calls `rotateArray` makes, on the sequences they see: the whole, the first `d`, the rest. */
  lemma ReverseWhole<T>(s: seq<T>)
    ensures ReverseRange(s, 0, |s| - 1) == Reversed(s)
  {
    assert s[..0] == [] && s[0..|s|] == s && s[|s|..] == [];
  }

  lemma ReverseFront<T>(s: seq<T>, d: int)
    requires 0 <= d <= |s|
    ensures ReverseRange(s, 0, d - 1) == Reversed(s[..d]) + s[d..]
  {
    assert s[..0] == [] && s[0..d] == s[..d];
  }

  lemma ReverseBack<T>(s: seq<T>, d: int)
    requires 0 <= d <= |s|
    ensures ReverseRange(s, d, |s| - 1) == s[..d] + Reversed(s[d..])
  {
    assert s[d..|s|] == s[d..] && s[|s|..] == [];
  }

  /** `rotateArray(nums, k)` for a non-negative `k`. */
  method Rotate(a: array<int>, k: nat)
    modifies a
    ensures a[..] == RotateRight(old(a[..]), k)
  {
    var n := a.Length;
    if n == 0 {
      return;
    }
    var d := k % n;
    RotateByReversals(a[..], k);
    Reverse(a, 0, n - 1);
    Reverse(a, 0, d - 1);
    Reverse(a, d, n - 1);
  }
}
