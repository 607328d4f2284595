/**
 * `longestConsecutive(nums)` (90file.js:1265-1276): the length of the longest
 * run of consecutive integers all present in `nums`, found by counting up
 * only from values whose predecessor is absent.
 */
module Consecutive {
  import opened Common

  function Elements(nums: seq<int>): set<int> {
    set x | x in nums
  }

  /** `x`, `x + 1`, ..., `x + len - 1` are all in `s`. */
  ghost predicate RunIn(s: set<int>, x: int, len: nat) {
    forall y :: x <= y < x + len ==> y in s
  }

  /** The length of the run of `s` that starts at `x`. */
  ghost function RunFrom(s: set<int>, x: int): nat
    decreases |set y | y in s && y >= x|
  {
    if x in s then
      var above, from := set y | y in s && y >= x + 1, set y | y in s && y >= x;
      SmallerWithout(above, from, x);
      1 + RunFrom(s, x + 1)
    else 0
  }

  /** Leaving out one member makes a set smaller. */
  lemma SmallerWithout(a: set<int>, b: set<int>, x: int)
    requires a <= b && x in b && x !in a
    ensures |a| < |b|
  {
    assert a <= b - {x};
    assert b - {x} == a + ((b - {x}) - a);
  }

  /** No run from `x` is longer than `RunFrom(s, x)`. */
  lemma {:induction false} RunBound(s: set<int>, x: int, len: nat)
    requires RunIn(s, x, len)
    ensures len <= RunFrom(s, x)
    decreases len
  {
    if len > 0 {
      assert x in s;
      RunBound(s, x + 1, len - 1);
    }
  }

  /** Walking down from a member of `s` reaches a value whose predecessor is missing and whose run covers more. */
  lemma {:induction false} RunStart(s: set<int>, x: int)
    requires x in s
    ensures exists x0 :: x0 <= x && x0 in s && x0 - 1 !in s && RunFrom(s, x0) >= RunFrom(s, x)
    decreases |set y | y in s && y < x|
  {
    if x - 1 in s {
      var below, upTo := set y | y in s && y < x - 1, set y | y in s && y < x;
      SmallerWithout(below, upTo, x - 1);
      RunStart(s, x - 1);
      var x0 :| x0 <= x - 1 && x0 in s && x0 - 1 !in s && RunFrom(s, x0) >= RunFrom(s, x - 1);
      assert RunFrom(s, x - 1) == 1 + RunFrom(s, x);
    }
  }

  /**
   * `new Set(nums)`: its members, and an order `for (const x of set)` may visit
   * them in, each once.
   */
  method ToSet(nums: seq<int>) returns (s: set<int>, order: seq<int>)
    ensures s == Elements(nums)
    ensures Distinct(order) && forall x :: x in order <==> x in s
    ensures |order| <= |nums|
  {
    s, order := {}, [];
    for k := 0 to |nums|
      invariant s == Elements(nums[..k])
      invariant Distinct(order) && forall x :: x in order <==> x in s
      invariant |order| <= k
    {
      assert Elements(nums[..k + 1]) == Elements(nums[..k]) + {nums[k]} by {
        assert nums[..k + 1] == nums[..k] + [nums[k]];
      }
      if nums[k] !in s {
        s, order := s + {nums[k]}, order + [nums[k]];
      }
    }
    assert nums[..|nums|] == nums;
  }

  /** `longestConsecutive(nums)`. */
  method LongestConsecutive(nums: seq<int>) returns (best: nat)
    ensures forall x, len: nat :: RunIn(Elements(nums), x, len) ==> len <= best
    ensures nums != [] ==> best > 0 && exists x :: RunIn(Elements(nums), x, best)
    ensures nums == [] ==> best == 0
  {
    var s, order := ToSet(nums);
    best := 0;
    ghost var bx := 0;
    for i := 0 to |order|
      invariant forall x :: x in order[..i] && x - 1 !in s ==> RunFrom(s, x) <= best
      invariant RunIn(s, bx, best)
      invariant i == 0 ==> best == 0
    {
      var x := order[i];
      assert x in s;
      if x - 1 !in s {
        var cur, len := x, 1;
        while cur + 1 in s
          invariant len == cur - x + 1 && RunIn(s, x, len)
          invariant RunFrom(s, x) == len - 1 + RunFrom(s, cur)
          decreases RunFrom(s, cur)
        {
          cur, len := cur + 1, len + 1;
        }
        if len > best {
          best, bx := len, x;
        }
      }
      assert order[..i + 1] == order[..i] + [x];
    }
    assert order[..|order|] == order;
    forall x, len: nat | RunIn(s, x, len) ensures len <= best {
      if len > 0 {
        assert x in s;
        RunBound(s, x, len);
        RunStart(s, x);
      }
    }
    if nums != [] {
      assert RunIn(s, nums[0], 1);
    }
  }
}
