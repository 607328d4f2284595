/** `pairsSum(nums, target)` (90file.js:208-225): the distinct value pairs of two array entries adding up to `target`. */
module PairsSum {
  import opened Common

  /** Entries at two different positions of `nums` make up the pair `p`, smaller value first. */
  predicate FromEntries(nums: seq<int>, p: (int, int)) {
    exists i, j :: 0 <= i < j < |nums| && p == (Min(nums[i], nums[j]), Max(nums[i], nums[j]))
  }

  /** Every reported pair is ordered, adds up to `target` and comes from two entries. */
  predicate Sound(nums: seq<int>, target: int, res: seq<(int, int)>) {
    forall k :: 0 <= k < |res| ==>
      res[k].0 <= res[k].1 && res[k].0 + res[k].1 == target && FromEntries(nums, res[k])
  }

  /** Every pair of entries before position `n` that adds up to `target` is reported. */
  predicate Complete(nums: seq<int>, target: int, n: int, res: seq<(int, int)>)
    requires n <= |nums|
  {
    forall i, j :: 0 <= i < j < n && nums[i] + nums[j] == target ==>
      (Min(nums[i], nums[j]), Max(nums[i], nums[j])) in res
  }

  /** The state of the scan after the first `k` entries. */
  ghost predicate Scanned(nums: seq<int>, target: int, k: int, seen: set<int>, used: set<(int, int)>, res: seq<(int, int)>)
    requires k <= |nums|
  {
    seen == (set i | 0 <= i < k :: nums[i]) && (forall p :: p in used <==> p in res) &&
    Distinct(res) && Sound(nums, target, res) && Complete(nums, target, k, res)
  }

  /**
   * Each pair is reported once, as `[smaller, larger]` (the string key
   * `${a},${b}` of `used` identifies it), exactly when two entries add up to
   * `target`.
   */
  method PairsSum(nums: seq<int>, target: int) returns (res: seq<(int, int)>)
    ensures Distinct(res)
    ensures forall k :: 0 <= k < |res| ==>
      res[k].0 <= res[k].1 && res[k].0 + res[k].1 == target && FromEntries(nums, res[k])
    ensures forall i, j :: 0 <= i < j < |nums| && nums[i] + nums[j] == target ==>
      (Min(nums[i], nums[j]), Max(nums[i], nums[j])) in res
  {
    var seen: set<int> := {};
    var used: set<(int, int)> := {};
    res := [];
    for k := 0 to |nums|
      invariant Scanned(nums, target, k, seen, used, res)
    {
      seen, used, res := Consider(nums, target, k, seen, used, res);
    }
    assert Sound(nums, target, res) && Complete(nums, target, |nums|, res);
  }

  /** One turn of the loop: entry `k` against the values seen before it. */
  method Consider(nums: seq<int>, target: int, k: int, seen0: set<int>, used0: set<(int, int)>, res0: seq<(int, int)>)
    returns (seen: set<int>, used: set<(int, int)>, res: seq<(int, int)>)
    requires 0 <= k < |nums| && Scanned(nums, target, k, seen0, used0, res0)
    ensures Scanned(nums, target, k + 1, seen, used, res)
  {
    used, res := used0, res0;
    var x := nums[k];
    var y := target - x;
    if y in seen0 {
      ghost var i :| 0 <= i < k && nums[i] == y;
      var key := (Min(x, y), Max(x, y));
      assert key == (Min(nums[i], nums[k]), Max(nums[i], nums[k]));
      if key !in used {
        Append(nums, target, res, key, i, k);
        used := used + {key};
        res := res + [key];
      }
    }
    Extend(nums, target, k, seen0, res0, res);
    seen := seen0 + {x};
    SeenOneMore(nums, k);
  }

  /** The values among the first `k + 1` entries are those among the first `k` and entry `k`. */
  lemma SeenOneMore(nums: seq<int>, k: int)
    requires 0 <= k < |nums|
    ensures (set i | 0 <= i < k + 1 :: nums[i]) == (set i | 0 <= i < k :: nums[i]) + {nums[k]}
  {
  }

  /** Reporting a new pair made of entries `i` and `k` keeps the report distinct and sound. */
  lemma Append(nums: seq<int>, target: int, res: seq<(int, int)>, key: (int, int), i: int, k: int)
    requires Distinct(res) && Sound(nums, target, res) && key !in res
    requires 0 <= i < k < |nums| && nums[i] + nums[k] == target
    requires key == (Min(nums[i], nums[k]), Max(nums[i], nums[k]))
    ensures Distinct(res + [key]) && Sound(nums, target, res + [key])
  {
    assert FromEntries(nums, key);
  }

  /** The pairs that entry `k` closes with earlier entries are reported after step `k`. */
  lemma Extend(nums: seq<int>, target: int, k: int, seen: set<int>, res0: seq<(int, int)>, res: seq<(int, int)>)
    requires 0 <= k < |nums| && forall i :: 0 <= i < k ==> nums[i] in seen
    requires Complete(nums, target, k, res0) && forall p <- res0 :: p in res
    requires target - nums[k] in seen ==>
      (Min(nums[k], target - nums[k]), Max(nums[k], target - nums[k])) in res
    ensures Complete(nums, target, k + 1, res)
  {
    forall i, j | 0 <= i < j < k + 1 && nums[i] + nums[j] == target
      ensures (Min(nums[i], nums[j]), Max(nums[i], nums[j])) in res
    {
      if j == k {
        assert nums[i] in seen;
      } else {
        assert (Min(nums[i], nums[j]), Max(nums[i], nums[j])) in res0;
      }
    }
  }
}
