/**
 * `permutations(arr)` (90file.js:369-390): backtracking over a `used` flag
 * per position. `backtrack` tries every unused position in increasing order,
 * marks it, extends `path`, recurses and then undoes both.
 */
module Permutations {
  import opened Common
  import opened Subsets

  /** How many positions are still free. */
  function Unused(used: seq<bool>): nat {
    if used == [] then 0 else Unused(used[..|used| - 1]) + (if used[|used| - 1] then 0 else 1)
  }

  /** The elements at the free positions. */
  function UnusedElems<T>(arr: seq<T>, used: seq<bool>): multiset<T>
    requires |used| == |arr|
  {
    if used == [] then multiset{} else
      var last := if used[|used| - 1] then multiset{} else multiset{arr[|arr| - 1]};
      UnusedElems(arr[..|arr| - 1], used[..|used| - 1]) + last
  }

  /** Marking a free position leaves one fewer, and removes its element from the free ones. */
  lemma {:induction false} Take<T>(arr: seq<T>, used: seq<bool>, i: int)
    requires |used| == |arr| && 0 <= i < |used| && !used[i]
    ensures Unused(used[i := true]) == Unused(used) - 1
    ensures UnusedElems(arr, used[i := true]) + multiset{arr[i]} == UnusedElems(arr, used)
  {
    var n := |used|;
    var u := used[i := true];
    if i < n - 1 {
      assert u[..n - 1] == used[..n - 1][i := true];
      Take(arr[..n - 1], used[..n - 1], i);
      assert arr[..n - 1][i] == arr[i];
    } else {
      assert u[..n - 1] == used[..n - 1];
    }
  }

  /** With no position marked, every position is free. */
  lemma {:induction false} NoneUsed<T>(arr: seq<T>)
    ensures Unused(seq(|arr|, _ => false)) == |arr|
    ensures UnusedElems(arr, seq(|arr|, _ => false)) == multiset(arr)
  {
    var n := |arr|;
    if n > 0 {
      var init := arr[..n - 1];
      NoneUsed(init);
      assert seq(n, _ => false)[..n - 1] == seq(n - 1, _ => false);
      assert arr == init + [arr[n - 1]];
    }
  }

  /** With no position free, there are no free elements. */
  lemma {:induction false} AllUsed<T>(arr: seq<T>, used: seq<bool>)
    requires |used| == |arr| && Unused(used) == 0
    ensures UnusedElems(arr, used) == multiset{}
  {
    if used != [] {
      AllUsed(arr[..|arr| - 1], used[..|used| - 1]);
    }
  }

  /** What `backtrack` appends to `res`, given the flags and the path. */
  function PermsFrom<T>(arr: seq<T>, used: seq<bool>, path: seq<T>): seq<seq<T>>
    requires |used| == |arr|
    decreases Unused(used), 1, 0
  {
    if |path| == |arr| then [path] else Branches(arr, used, path, |arr|)
  }

  /** What the `for` loop of `backtrack` appends over the positions before `i`. */
  function Branches<T>(arr: seq<T>, used: seq<bool>, path: seq<T>, i: int): seq<seq<T>>
    requires |used| == |arr| && 0 <= i <= |arr|
    decreases Unused(used), 0, i
  {
    if i == 0 then [] else
      Branches(arr, used, path, i - 1) +
      if used[i - 1] then [] else
        Take(arr, used, i - 1);
        PermsFrom(arr, used[i - 1 := true], path + [arr[i - 1]])
  }

  /** `backtrack()`, with `res` as its result, `path` as a value and `used` restored on return. */
  method Backtrack<T>(arr: seq<T>, used: array<bool>, path: seq<T>) returns (found: seq<seq<T>>)
    requires used.Length == |arr|
    modifies used
    ensures used[..] == old(used[..])
    ensures found == PermsFrom(arr, old(used[..]), path)
    decreases Unused(used[..])
  {
    if |path| == |arr| {
      return [path];
    }
    found := [];
    ghost var u := used[..];
    for i := 0 to |arr|
      invariant used[..] == u
      invariant found == Branches(arr, u, path, i)
    {
      if used[i] {
        continue;
      }
      used[i] := true;
      Take(arr, u, i);
      assert used[..] == u[i := true];
      var more := Backtrack(arr, used, path + [arr[i]]);
      used[i] := false;
      assert used[..] == u;
      found := found + more;
    }
  }

  /** Positions `0 .. n - 1`, each exactly once. */
  predicate IndexPermutation(q: seq<int>, n: int) {
    |q| == n && Distinct(q) && forall k :: 0 <= k < |q| ==> 0 <= q[k] < n
  }

  function Factorial(n: nat): nat {
    if n == 0 then 1 else n * Factorial(n - 1)
  }

  /**
   * `permutations(arr)`: `n!` arrangements, each holding exactly the elements
   * of `arr`, and among them the arrangement for every ordering of the positions.
   */
  method AllPermutations<T>(arr: seq<T>) returns (res: seq<seq<T>>)
    ensures res == AllPerms(arr)
    ensures |res| == Factorial(|arr|)
    ensures forall p :: p in res ==> multiset(p) == multiset(arr)
    ensures forall q :: IndexPermutation(q, |arr|) ==> Select(arr, q) in res
  {
    var used := new bool[|arr|](_ => false);
    assert used[..] == seq(|arr|, _ => false);
    res := Backtrack(arr, used, []);
    PermutationsMeaning(arr);
  }

  /** What the top-level call `backtrack()` appends to the empty `res`. */
  function AllPerms<T>(arr: seq<T>): seq<seq<T>> {
    PermsFrom(arr, seq(|arr|, _ => false), [])
  }

  /** The three properties of the top-level call. */
  lemma PermutationsMeaning<T>(arr: seq<T>)
    ensures |AllPerms(arr)| == Factorial(|arr|)
    ensures forall p :: p in AllPerms(arr) ==> multiset(p) == multiset(arr)
    ensures forall q :: IndexPermutation(q, |arr|) ==> Select(arr, q) in AllPerms(arr)
  {
    var none := seq(|arr|, _ => false);
    NoneUsed(arr);
    PermsCount(arr, none, []);
    PermsSound(arr, none, []);
    forall q | IndexPermutation(q, |arr|) ensures Select(arr, q) in PermsFrom(arr, none, []) {
      PermsComplete(arr, none, [], q);
      assert [] + Select(arr, q) == Select(arr, q);
    }
  }

  /** From a path and flags that agree in size, there are as many completions as orderings of the free positions. */
  lemma {:induction false} PermsCount<T>(arr: seq<T>, used: seq<bool>, path: seq<T>)
    requires |used| == |arr| && |path| + Unused(used) == |arr|
    ensures |PermsFrom(arr, used, path)| == Factorial(Unused(used))
    decreases Unused(used), 1, 0
  {
    if |path| < |arr| {
      BranchesCount(arr, used, path, |arr|);
      assert used[..|arr|] == used;
    }
  }

  lemma {:induction false} BranchesCount<T>(arr: seq<T>, used: seq<bool>, path: seq<T>, i: int)
    requires |used| == |arr| && 0 <= i <= |arr| && |path| + Unused(used) == |arr| && |path| < |arr|
    ensures |Branches(arr, used, path, i)| == Unused(used[..i]) * Factorial(Unused(used) - 1)
    decreases Unused(used), 0, i
  {
    if i > 0 {
      BranchesCount(arr, used, path, i - 1);
      assert used[..i][..i - 1] == used[..i - 1];
      var a, f := Unused(used[..i - 1]), Factorial(Unused(used) - 1);
      var d := if used[i - 1] then 0 else 1;
      assert Unused(used[..i]) == a + d;
      if !used[i - 1] {
        Take(arr, used, i - 1);
        PermsCount(arr, used[i - 1 := true], path + [arr[i - 1]]);
        assert |Branches(arr, used, path, i)| == a * f + f;
        MulSucc(a, f);
      }
    }
  }

  lemma MulSucc(a: nat, f: nat)
    ensures (a + 1) * f == a * f + f
  {
  }

  /** Every completion holds the path's elements and the free ones, nothing else. */
  lemma {:induction false} PermsSound<T>(arr: seq<T>, used: seq<bool>, path: seq<T>)
    requires |used| == |arr| && |path| + Unused(used) == |arr|
    ensures forall p :: p in PermsFrom(arr, used, path) ==> multiset(p) == multiset(path) + UnusedElems(arr, used)
    decreases Unused(used), 1, 0
  {
    if |path| == |arr| {
      AllUsed(arr, used);
    } else {
      BranchesSound(arr, used, path, |arr|);
    }
  }

  lemma {:induction false} BranchesSound<T>(arr: seq<T>, used: seq<bool>, path: seq<T>, i: int)
    requires |used| == |arr| && 0 <= i <= |arr| && |path| + Unused(used) == |arr| && |path| < |arr|
    ensures forall p :: p in Branches(arr, used, path, i) ==> multiset(p) == multiset(path) + UnusedElems(arr, used)
    decreases Unused(used), 0, i
  {
    if i > 0 {
      BranchesSound(arr, used, path, i - 1);
      if !used[i - 1] {
        Take(arr, used, i - 1);
        PermsSound(arr, used[i - 1 := true], path + [arr[i - 1]]);
      }
    }
  }

  /** Each earlier stretch of the loop's output is a prefix of a later one. */
  lemma {:induction false} BranchesGrow<T>(arr: seq<T>, used: seq<bool>, path: seq<T>, i: int, j: int)
    requires |used| == |arr| && 0 <= i <= j <= |arr|
    ensures forall p :: p in Branches(arr, used, path, i) ==> p in Branches(arr, used, path, j)
    decreases j
  {
    if i < j {
      BranchesGrow(arr, used, path, i, j - 1);
    }
  }

  /** Every ordering of the free positions, appended to the path, is among the completions. */
  lemma {:induction false} PermsComplete<T>(arr: seq<T>, used: seq<bool>, path: seq<T>, q: seq<int>)
    requires |used| == |arr| && |path| + Unused(used) == |arr|
    requires |q| == Unused(used) && Distinct(q)
    requires forall k :: 0 <= k < |q| ==> 0 <= q[k] < |arr| && !used[q[k]]
    ensures path + Select(arr, q) in PermsFrom(arr, used, path)
    decreases Unused(used)
  {
    if |path| == |arr| {
      assert path + Select(arr, q) == path;
    } else {
      var j := q[0];
      var used' := used[j := true];
      Take(arr, used, j);
      assert forall k :: 1 <= k < |q| ==> q[k] != j;
      PermsComplete(arr, used', path + [arr[j]], q[1..]);
      SelectCons(arr, q);
      InBranch(arr, used, path, j, path + Select(arr, q));
    }
  }

  lemma SelectCons<T>(arr: seq<T>, q: seq<int>)
    requires q != [] && forall k :: 0 <= k < |q| ==> 0 <= q[k] < |arr|
    ensures forall p: seq<T> :: p + Select(arr, q) == p + [arr[q[0]]] + Select(arr, q[1..])
  {
    assert Select(arr, q) == [arr[q[0]]] + Select(arr, q[1..]);
  }

  /** A completion that starts by marking the free position `j` is among all completions. */
  lemma InBranch<T>(arr: seq<T>, used: seq<bool>, path: seq<T>, j: int, p: seq<T>)
    requires |used| == |arr| && 0 <= j < |arr| && !used[j] && |path| < |arr|
    requires p in PermsFrom(arr, used[j := true], path + [arr[j]])
    ensures p in PermsFrom(arr, used, path)
  {
    assert p in Branches(arr, used, path, j + 1);
    BranchesGrow(arr, used, path, j + 1, |arr|);
  }
}
