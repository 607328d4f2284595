/**
 * `largestIsland(grid)` (90file.js:1321-1347): the size of the largest group of
 * cells holding 1 that are joined up, down, left or right, found by a
 * depth-first flood fill that marks cells in the `seen` matrix.
 */
module LargestIsland {
  import opened Common

  /** A cell as (row, column). */
  type Cell = (int, int)

  /** `n`: the length of the first row, or 0 for an empty grid. */
  function Width(g: seq<seq<int>>): nat {
    if |g| == 0 then 0 else |g[0]|
  }

  /**
   * A cell the search counts: inside the `m` by `n` box and holding exactly 1.
   * An entry past the end of a short row is `undefined`, which is not 1.
   */
  predicate Land(g: seq<seq<int>>, p: Cell) {
    0 <= p.0 < |g| && 0 <= p.1 < Width(g) && p.1 < |g[p.0]| && g[p.0][p.1] == 1
  }

  /** `dirs`: down, up, right, left, in the order `dfs` tries them. */
  const Dirs: seq<Cell> := [(1, 0), (-1, 0), (0, 1), (0, -1)]

  /** The four cells `dfs` tries from `p`, in the order of `dirs`. */
  function Nbrs(p: Cell): seq<Cell> {
    [(p.0 + 1, p.1), (p.0 - 1, p.1), (p.0, p.1 + 1), (p.0, p.1 - 1)]
  }

  /** Stepping from `p` in direction `k` reaches the `k`-th neighbour. */
  lemma Direction(p: Cell, k: int)
    requires 0 <= k < 4
    ensures (p.0 + Dirs[k].0, p.1 + Dirs[k].1) == Nbrs(p)[k]
  {
  }

  /** A walk over land, each step to one of the four neighbours. */
  ghost predicate IsWalk(g: seq<seq<int>>, w: seq<Cell>) {
    w != [] && (forall i :: 0 <= i < |w| ==> Land(g, w[i])) &&
    forall i, j :: 0 <= i && j == i + 1 && j < |w| ==> w[j] in Nbrs(w[i])
  }

  ghost predicate Connected(g: seq<seq<int>>, p: Cell, q: Cell) {
    exists w :: IsWalk(g, w) && w[0] == p && w[|w| - 1] == q
  }

  /** The island of `p`: every cell a walk over land reaches from `p`. */
  ghost function Island(g: seq<seq<int>>, p: Cell): set<Cell> {
    set r, c | 0 <= r < |g| && 0 <= c < Width(g) && Connected(g, p, (r, c)) :: (r, c)
  }

  /** Every cell of the box, the cells `seen` has room for. */
  ghost function Box(g: seq<seq<int>>): set<Cell> {
    set r, c | 0 <= r < |g| && 0 <= c < Width(g) :: (r, c)
  }

  /** All land neighbours of `x` are in `s`. */
  ghost predicate Shut(g: seq<seq<int>>, x: Cell, s: set<Cell>) {
    forall y <- Nbrs(x) :: Land(g, y) ==> y in s
  }

  /**
   * Each cell of `t` has all its land neighbours in `s`. The trigger keeps the
   * solver from chasing neighbours of neighbours when `t` and `s` are the same.
   */
  ghost predicate ClosedOn(g: seq<seq<int>>, t: set<Cell>, s: set<Cell>) {
    forall x {:trigger Shut(g, x, s)} :: x in t ==> Shut(g, x, s)
  }

  ghost predicate AllLand(g: seq<seq<int>>, s: set<Cell>) {
    forall x <- s :: Land(g, x)
  }

  /** `seen` is the `m` by `n` matrix of the grid and is true exactly on the cells of `s`. */
  ghost predicate Mirrors(g: seq<seq<int>>, seen: array2<bool>, s: set<Cell>)
    reads seen
  {
    seen.Length0 == |g| && seen.Length1 == Width(g) &&
    forall r, c :: 0 <= r < |g| && 0 <= c < Width(g) ==> (seen[r, c] <==> (r, c) in s)
  }

  /** Neighbouring is symmetric. */
  lemma NbrSym(x: Cell, y: Cell)
    requires y in Nbrs(x)
    ensures x in Nbrs(y)
  {
  }

  /** A land cell reaches itself. */
  lemma Itself(g: seq<seq<int>>, p: Cell)
    requires Land(g, p)
    ensures Connected(g, p, p)
  {
    assert IsWalk(g, [p]);
  }

  /** A land cell lies on its own island, which is therefore never empty. */
  lemma OwnIsland(g: seq<seq<int>>, p: Cell)
    requires Land(g, p)
    ensures p in Island(g, p) && |Island(g, p)| >= 1
  {
    Itself(g, p);
    Reached(g, p, p);
  }

  /** A cell reached from `p` lies on the island of `p`. */
  lemma Reached(g: seq<seq<int>>, p: Cell, q: Cell)
    requires Connected(g, p, q)
    ensures q in Island(g, p)
  {
    var w :| IsWalk(g, w) && w[0] == p && w[|w| - 1] == q;
    assert Land(g, w[|w| - 1]);
    assert q == (q.0, q.1);
  }

  /** A cell on the island of `p` is reached from `p`. */
  lemma Member(g: seq<seq<int>>, p: Cell, q: Cell)
    requires q in Island(g, p)
    ensures Connected(g, p, q)
  {
  }

  /** Stepping from `p` to a neighbour `v` that reaches `q` makes `p` reach `q`. */
  lemma Prepend(g: seq<seq<int>>, p: Cell, v: Cell, q: Cell)
    requires Land(g, p) && v in Nbrs(p) && Connected(g, v, q)
    ensures Connected(g, p, q)
  {
    var w :| IsWalk(g, w) && w[0] == v && w[|w| - 1] == q;
    Cons(g, p, w);
    assert ([p] + w)[0] == p && ([p] + w)[|w|] == q;
  }

  /** A land cell followed by a walk from one of its neighbours is a walk. */
  lemma Cons(g: seq<seq<int>>, p: Cell, w: seq<Cell>)
    requires Land(g, p) && IsWalk(g, w) && w[0] in Nbrs(p)
    ensures IsWalk(g, [p] + w)
  {
    var w' := [p] + w;
    forall i | 0 <= i < |w'| ensures Land(g, w'[i]) {
      if i > 0 {
        assert w'[i] == w[i - 1];
      }
    }
    forall i, j | 0 <= i && j == i + 1 && j < |w'| ensures w'[j] in Nbrs(w'[i]) {
      if i > 0 {
        assert w'[i] == w[i - 1] && w'[j] == w[i];
      }
    }
  }

  /** A walk read backwards is a walk. */
  lemma Backwards(g: seq<seq<int>>, p: Cell, q: Cell)
    requires Connected(g, p, q)
    ensures Connected(g, q, p)
  {
    var w :| IsWalk(g, w) && w[0] == p && w[|w| - 1] == q;
    var v := Reversed(w);
    assert |v| == |w| && forall i :: 0 <= i < |v| ==> v[i] == w[|w| - 1 - i];
    forall i | 0 <= i < |v| ensures Land(g, v[i]) {
      assert v[i] == w[|w| - 1 - i];
    }
    forall i | 0 <= i < |v| - 1 ensures v[i + 1] in Nbrs(v[i]) {
      var k := |w| - 2 - i;
      assert v[i] == w[k + 1] && v[i + 1] == w[k];
      NbrSym(w[k], w[k + 1]);
    }
    assert v[0] == q && v[|v| - 1] == p;
    assert IsWalk(g, v);
  }

  /** Two walks that meet join into one. */
  lemma Join(g: seq<seq<int>>, p: Cell, q: Cell, r: Cell)
    requires Connected(g, p, q) && Connected(g, q, r)
    ensures Connected(g, p, r)
  {
    var w1 :| IsWalk(g, w1) && w1[0] == p && w1[|w1| - 1] == q;
    var w2 :| IsWalk(g, w2) && w2[0] == q && w2[|w2| - 1] == r;
    var w := w1 + w2[1..];
    forall i | 0 <= i < |w| - 1 ensures w[i + 1] in Nbrs(w[i]) {
      if i + 1 < |w1| {
        assert w[i] == w1[i] && w[i + 1] == w1[i + 1];
      } else {
        assert w[i] == w2[i + 1 - |w1|] && w[i + 1] == w2[i + 2 - |w1|];
      }
    }
    assert IsWalk(g, w);
  }

  /** Every cell on an island has that same island. */
  lemma SameIsland(g: seq<seq<int>>, p: Cell, q: Cell)
    requires Connected(g, p, q)
    ensures Island(g, q) == Island(g, p)
  {
    Backwards(g, p, q);
    forall x | x in Island(g, q) ensures x in Island(g, p) {
      Join(g, p, q, x);
    }
    forall x | x in Island(g, p) ensures x in Island(g, q) {
      Join(g, q, p, x);
    }
  }

  /** A walk that starts inside a set closed under land neighbours never leaves it. */
  lemma {:induction false} Stays(g: seq<seq<int>>, s: set<Cell>, w: seq<Cell>, k: int)
    requires IsWalk(g, w) && w[0] in s && ClosedOn(g, s, s) && 0 <= k < |w|
    ensures w[k] in s
  {
    if k > 0 {
      Stays(g, s, w, k - 1);
      assert Shut(g, w[k - 1], s);
      assert w[k] in Nbrs(w[k - 1]) && Land(g, w[k]);
    }
  }

  /** A set closed under land neighbours holds all or none of each island. */
  lemma Whole(g: seq<seq<int>>, s: set<Cell>, p: Cell, q: Cell)
    requires ClosedOn(g, s, s) && p in s && Connected(g, p, q)
    ensures q in s
  {
    var w :| IsWalk(g, w) && w[0] == p && w[|w| - 1] == q;
    Stays(g, s, w, |w| - 1);
  }

  /**
   * After `dfs(p)` from the outer loop, the cells it marked are exactly the
   * island of `p`, and `seen` is again closed under land neighbours.
   */
  lemma Flooded(g: seq<seq<int>>, s0: set<Cell>, s: set<Cell>, p: Cell)
    requires ClosedOn(g, s0, s0) && Land(g, p) && p !in s0 && s0 + {p} <= s
    requires ClosedOn(g, s - s0, s) && s - s0 <= Island(g, p)
    ensures ClosedOn(g, s, s) && s - s0 == Island(g, p)
  {
    forall x | x in s ensures Shut(g, x, s) {
      if x in s0 {
        assert Shut(g, x, s0);
      }
    }
    forall q | q in Island(g, p) ensures q in s - s0 {
      Member(g, p, q);
      Whole(g, s, p, q);
      if q in s0 {
        Backwards(g, p, q);
        Whole(g, s0, q, p);
      }
    }
  }

  /** `|c - a| = |b - a| + |c - b|` for `a <= b <= c`. */
  lemma CardSplit(a: set<Cell>, b: set<Cell>, c: set<Cell>)
    requires a <= b <= c
    ensures |c - a| == |b - a| + |c - b|
  {
    assert c - a == (b - a) + (c - b) && (b - a) !! (c - b);
  }

  /**
   * `dfs(r, c)` on an unseen land cell `p`: marks `p` and, through the
   * neighbours tried in turn, every unseen land cell reachable from it, and
   * returns how many cells it marked.
   */
  method Dfs(g: seq<seq<int>>, seen: array2<bool>, p: Cell, ghost s0: set<Cell>)
      returns (size: nat, ghost s: set<Cell>)
    requires Mirrors(g, seen, s0) && AllLand(g, s0) && Land(g, p) && p !in s0
    modifies seen
    ensures Mirrors(g, seen, s) && AllLand(g, s) && s0 + {p} <= s
    ensures s - s0 <= Island(g, p)
    ensures ClosedOn(g, s - s0, s)
    ensures size == |s - s0|
    decreases |Box(g) - s0|, 2
  {
    seen[p.0, p.1] := true;
    OwnIsland(g, p);
    size, s := Spread(g, seen, p, s0);
  }

  /** Every land neighbour of `p` in the first `k` directions is in `s`. */
  ghost predicate Tried(g: seq<seq<int>>, p: Cell, k: int, s: set<Cell>)
    requires 0 <= k <= 4
  {
    forall j :: 0 <= j < k ==> Land(g, Nbrs(p)[j]) ==> Nbrs(p)[j] in s
  }

  /** The loop of `dfs(p)` over the four directions, once `p` is marked. */
  method Spread(g: seq<seq<int>>, seen: array2<bool>, p: Cell, ghost s0: set<Cell>)
      returns (size: nat, ghost s: set<Cell>)
    requires Mirrors(g, seen, s0 + {p}) && AllLand(g, s0) && Land(g, p) && p !in s0
    requires p in Island(g, p)
    modifies seen
    ensures Mirrors(g, seen, s) && AllLand(g, s) && s0 + {p} <= s
    ensures s - s0 <= Island(g, p)
    ensures ClosedOn(g, s - s0, s)
    ensures size == |s - s0|
    decreases |Box(g) - s0|, 1
  {
    s := s0 + {p};
    size := 1;
    assert s - s0 == {p} && s - s0 - {p} == {};
    for k := 0 to 4
      invariant Mirrors(g, seen, s) && AllLand(g, s) && s0 + {p} <= s
      invariant s - s0 <= Island(g, p)
      invariant ClosedOn(g, s - s0 - {p}, s)
      invariant Tried(g, p, k, s)
      invariant size == |s - s0|
    {
      var more;
      more, s := Try(g, seen, p, k, s0, s);
      size := size + more;
    }
    assert Shut(g, p, s);
  }

  /**
   * One turn of the loop in `dfs(p)`, for direction `k`: when the neighbour
   * is inside the box, unseen and land, search from it and return how many
   * cells that marked.
   */
  method Try(g: seq<seq<int>>, seen: array2<bool>, p: Cell, k: int, ghost s0: set<Cell>, ghost s1: set<Cell>)
      returns (more: nat, ghost s: set<Cell>)
    requires Mirrors(g, seen, s1) && AllLand(g, s1) && Land(g, p) && 0 <= k < 4
    requires p !in s0 && s0 + {p} <= s1
    requires s1 - s0 <= Island(g, p)
    requires ClosedOn(g, s1 - s0 - {p}, s1) && Tried(g, p, k, s1)
    modifies seen
    ensures Mirrors(g, seen, s) && AllLand(g, s) && s1 <= s
    ensures s - s0 <= Island(g, p)
    ensures ClosedOn(g, s - s0 - {p}, s)
    ensures Tried(g, p, k + 1, s)
    ensures |s - s0| == |s1 - s0| + more
    decreases |Box(g) - s0|, 0
  {
    var v := (p.0 + Dirs[k].0, p.1 + Dirs[k].1);
    Direction(p, k);
    if 0 <= v.0 < |g| && 0 <= v.1 < Width(g) && !seen[v.0, v.1] && Land(g, v) {
      assert p == (p.0, p.1) && p in Box(g);
      Shrinks(Box(g), s0, s1, p);
      more, s := Dfs(g, seen, v, s1);
      Step(g, p, v, s0, s1, s);
    } else {
      more, s := 0, s1;
    }
  }

  /** What one recursive call inside `dfs(p)` adds keeps the loop's invariant. */
  lemma Step(g: seq<seq<int>>, p: Cell, v: Cell, s0: set<Cell>, s1: set<Cell>, s: set<Cell>)
    requires Land(g, p) && v in Nbrs(p) && s0 + {p} <= s1 <= s
    requires s1 - s0 <= Island(g, p) && s - s1 <= Island(g, v)
    requires ClosedOn(g, s1 - s0 - {p}, s1) && ClosedOn(g, s - s1, s)
    ensures s - s0 <= Island(g, p)
    ensures ClosedOn(g, s - s0 - {p}, s)
    ensures |s - s0| == |s1 - s0| + |s - s1|
  {
    forall q | q in s - s1 ensures q in Island(g, p) {
      Member(g, v, q);
      Prepend(g, p, v, q);
      Reached(g, p, q);
    }
    forall x | x in s - s0 - {p} ensures Shut(g, x, s) {
      if x in s1 {
        assert Shut(g, x, s1);
      }
    }
    CardSplit(s0, s1, s);
  }

  /** The inner loop of `largestIsland`, over the columns of row `i`. */
  method ScanRow(g: seq<seq<int>>, seen: array2<bool>, i: int, best0: nat, ghost s0: set<Cell>)
      returns (best: nat, ghost s: set<Cell>)
    requires 0 <= i < |g| && Mirrors(g, seen, s0) && AllLand(g, s0) && ClosedOn(g, s0, s0)
    requires Scanned(g, s0, best0) && forall q :: Land(g, q) && q.0 < i ==> q in s0
    modifies seen
    ensures Mirrors(g, seen, s) && AllLand(g, s) && ClosedOn(g, s, s)
    ensures Scanned(g, s, best) && forall q :: Land(g, q) && q.0 <= i ==> q in s
  {
    best, s := best0, s0;
    for j := 0 to Width(g)
      invariant Mirrors(g, seen, s) && AllLand(g, s) && ClosedOn(g, s, s)
      invariant Scanned(g, s, best)
      invariant forall q :: Land(g, q) && (q.0 < i || (q.0 == i && q.1 < j)) ==> q in s
    {
      if !seen[i, j] && Land(g, (i, j)) {
        ghost var s1 := s;
        var size;
        size, s := Dfs(g, seen, (i, j), s1);
        Flooded(g, s1, s, (i, j));
        Record(g, s1, s, (i, j), best);
        best := Max(best, size);
      }
    }
  }

  /** The cells seen so far are land, and `best` is the size of the largest of their islands, or 0 for none. */
  ghost predicate Scanned(g: seq<seq<int>>, s: set<Cell>, best: int) {
    (forall q <- s :: |Island(g, q)| <= best) &&
    (best == 0 || exists q <- s :: |Island(g, q)| == best)
  }

  /** Taking the maximum with the size of a newly flooded island keeps `best` the largest seen. */
  lemma Record(g: seq<seq<int>>, s0: set<Cell>, s: set<Cell>, p: Cell, best: int)
    requires Scanned(g, s0, best) && s0 + {p} <= s && s - s0 == Island(g, p)
    ensures Scanned(g, s, Max(best, |s - s0|))
  {
    forall q | q in s - s0 ensures |Island(g, q)| == |Island(g, p)| {
      SameIsland(g, p, q);
    }
    if best > |s - s0| && best != 0 {
      var q :| q in s0 && |Island(g, q)| == best;
      assert q in s;
    }
  }

  /** `largestIsland(grid)`: the size of the largest island, or 0 when no cell holds 1. */
  method LargestIsland(g: seq<seq<int>>) returns (best: nat)
    ensures forall q :: Land(g, q) ==> |Island(g, q)| <= best
    ensures best == 0 || exists q :: Land(g, q) && |Island(g, q)| == best
  {
    var seen := new bool[|g|, Width(g)]((_, _) => false);
    ghost var s: set<Cell> := {};
    best := 0;
    for i := 0 to |g|
      invariant Mirrors(g, seen, s) && AllLand(g, s) && ClosedOn(g, s, s)
      invariant Scanned(g, s, best) && forall q :: Land(g, q) && q.0 < i ==> q in s
    {
      best, s := ScanRow(g, seen, i, best, s);
    }
  }
}
