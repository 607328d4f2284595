/**
 * Searching an array of numbers: `binarySearch` (90file.js:407-416),
 * `searchRotated` (90file.js:918-933) and `allIndices` (90file.js:938-942).
 * The numbers are taken to be integers.
 */
module Search {

  /** Non-decreasing order, the order `binarySearch` assumes. */
  predicate Sorted(s: seq<int>) {
    forall i, j :: 0 <= i < j < |s| ==> s[i] <= s[j]
  }

  /** `binarySearch(arr, target)`: an index holding `target`, or -1. */
  method BinarySearch(a: array<int>, target: int) returns (idx: int)
    ensures idx == -1 || (0 <= idx < a.Length && a[idx] == target)
    ensures Sorted(a[..]) ==> (idx == -1 <==> target !in a[..])
  {
    var l, r := 0, a.Length - 1;
    while l <= r
      invariant 0 <= l <= r + 1 <= a.Length
      invariant Sorted(a[..]) ==> forall k :: 0 <= k < l ==> a[k] < target
      invariant Sorted(a[..]) ==> forall k :: r < k < a.Length ==> a[k] > target
    {
      var m := l + (r - l) / 2;
      if a[m] == target {
        return m;
      }
      if a[m] < target {
        l := m + 1;
      } else {
        r := m - 1;
      }
    }
    return -1;
  }

  /**
   * Position of index `i` when the array is read from index `k` round to `k - 1`:
   * a rotated sorted array is sorted in this reading.
   */
  function Rank(n: int, k: int, i: int): int {
    if i >= k then i - k else i + n - k
  }

  /** `s` is a strictly increasing sequence rotated so that its smallest element sits at `k`. */
  predicate RotatedAt(s: seq<int>, k: int) {
    0 <= k <= |s| &&
    forall i, j :: 0 <= i < |s| && 0 <= j < |s| && Rank(|s|, k, i) < Rank(|s|, k, j) ==> s[i] < s[j]
  }

  /**
   * One step of `searchRotated` on the window `l..r` keeps every occurrence of
   * `target` inside the half it goes on with.
   */
  lemma RotatedStep(s: seq<int>, k: int, target: int, l: int, m: int, r: int, x: int)
    requires RotatedAt(s, k) && 0 <= l <= m <= r < |s|
    requires l <= x <= r && s[x] == target && s[m] != target
    ensures s[l] <= s[m] ==> (s[l] <= target < s[m] <==> x < m)
    ensures s[l] > s[m] ==> (s[m] < target <= s[r] <==> x > m)
  {
    var n := |s|;
    if s[l] <= s[m] {
      // No wrap between l and m: the window from l to m is sorted.
      assert !(l < k <= m);
      assert x < m ==> s[l] <= s[x] < s[m];
      assert x > m && (k <= m || x < k) ==> s[x] > s[m];
      assert x > m && k > m && x >= k ==> s[x] < s[l];
    } else {
      // The wrap lies between l and m: the window from m to r is sorted.
      assert l < k <= m;
      assert x > m ==> s[m] < s[x] <= s[r];
      assert x < m && x >= k ==> s[x] < s[m];
      assert x < m && x < k ==> s[x] >= s[l] && s[l] > s[r];
    }
  }

  /** `searchRotated(nums, target)`: binary search that works out which half of the window is sorted. */
  method SearchRotated(a: array<int>, target: int) returns (idx: int)
    ensures idx == -1 || (0 <= idx < a.Length && a[idx] == target)
    ensures forall k :: RotatedAt(a[..], k) ==> (idx == -1 <==> target !in a[..])
  {
    var l, r := 0, a.Length - 1;
    while l <= r
      invariant 0 <= l <= r + 1 <= a.Length
      invariant forall k :: RotatedAt(a[..], k) ==>
        forall x :: 0 <= x < a.Length && a[x] == target ==> l <= x <= r
    {
      var m := l + (r - l) / 2;
      if a[m] == target {
        return m;
      }
      forall k, x | RotatedAt(a[..], k) && 0 <= x < a.Length && a[x] == target && l <= x <= r
        ensures a[l] <= a[m] ==> (a[l] <= target < a[m] <==> x < m)
        ensures a[l] > a[m] ==> (a[m] < target <= a[r] <==> x > m)
      {
        RotatedStep(a[..], k, target, l, m, r, x);
      }
      if a[l] <= a[m] {
        if a[l] <= target && target < a[m] {
          r := m - 1;
        } else {
          l := m + 1;
        }
      } else {
        if a[m] < target && target <= a[r] {
          l := m + 1;
        } else {
          r := m - 1;
        }
      }
    }
    return -1;
  }

  /** `allIndices(arr, value)`: every index holding `value`, in increasing order. */
  method AllIndices(a: array<int>, value: int) returns (res: seq<int>)
    ensures forall i :: 0 <= i < |res| ==> 0 <= res[i] < a.Length && a[res[i]] == value
    ensures forall i, j :: 0 <= i < j < |res| ==> res[i] < res[j]
    ensures forall p :: 0 <= p < a.Length && a[p] == value ==> p in res
  {
    res := [];
    for i := 0 to a.Length
      invariant forall q :: 0 <= q < |res| ==> 0 <= res[q] < i && a[res[q]] == value
      invariant forall q, t :: 0 <= q < t < |res| ==> res[q] < res[t]
      invariant forall p :: 0 <= p < i && a[p] == value ==> p in res
    {
      if a[i] == value {
        res := res + [i];
      }
    }
  }
}
