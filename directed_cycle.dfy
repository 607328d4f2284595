/**
 * `hasDirectedCycle(adj)` (90file.js:1186-1204): depth-first search with a
 * colour per node (absent = unvisited, 1 = on the current path, 2 = done),
 * started from each key of `adj` in turn. Meeting a node of colour 1 closes a
 * cycle. The search state is the `state` map, threaded through the recursion.
 */
module DirectedCycle {
  import opened Common

  /** `adj[u] || []`: the successors of `u`; a node that is not a key has none. */
  function Succ<N>(adj: map<N, seq<N>>, u: N): seq<N> {
    if u in adj then adj[u] else []
  }

  /** Each node of `p` after the first is a successor of the one before it. */
  predicate IsPath<N>(adj: map<N, seq<N>>, p: seq<N>) {
    forall i :: 0 <= i < |p| - 1 ==> p[i + 1] in Succ(adj, p[i])
  }

  /** A walk of at least one edge that ends where it starts. */
  predicate IsCycle<N>(adj: map<N, seq<N>>, p: seq<N>) {
    |p| >= 2 && p[0] == p[|p| - 1] && IsPath(adj, p)
  }

  /** Every node the search can meet: the keys and every listed successor. */
  ghost function Nodes<N>(adj: map<N, seq<N>>): set<N> {
    adj.Keys + set u, v | u in adj && v in adj[u] :: v
  }

  /** Each finished node's successors all finished before it. */
  ghost predicate Finished<N>(adj: map<N, seq<N>>, fin: seq<N>) {
    forall i :: 0 <= i < |fin| ==> forall w <- Succ(adj, fin[i]) :: w in fin[..i]
  }

  /**
   * The search state: colour 1 marks exactly the nodes of the current path
   * `stack`, colour 2 exactly the finished nodes `fin`, listed in the order
   * they finished; no node is both.
   */
  ghost predicate Inv<N>(adj: map<N, seq<N>>, state: map<N, int>, stack: seq<N>, fin: seq<N>) {
    Distinct(stack + fin) &&
    (forall x <- stack :: x in state && state[x] == 1) &&
    (forall x <- fin :: x in state && state[x] == 2) &&
    (forall x <- state.Keys :: x in Nodes(adj) && (x in stack || x in fin)) &&
    IsPath(adj, stack) && Finished(adj, fin)
  }

  /** `dfs(u)` on a node not yet visited, whose predecessor ends the current path. */
  method Dfs<N(==)>(adj: map<N, seq<N>>, u: N, state0: map<N, int>, ghost stack: seq<N>, ghost fin0: seq<N>)
      returns (found: bool, state: map<N, int>, ghost fin: seq<N>)
    requires Inv(adj, state0, stack, fin0) && u !in state0 && u in Nodes(adj)
    requires stack != [] ==> u in Succ(adj, stack[|stack| - 1])
    ensures found ==> exists p :: IsCycle(adj, p)
    ensures !found ==> Inv(adj, state, stack, fin) && state0.Keys + {u} <= state.Keys
    ensures !found ==> |fin| > |fin0| && fin[..|fin0|] == fin0 && u in fin
    decreases |Nodes(adj) - state0.Keys|, 3
  {
    Enter(adj, state0, stack, fin0, u);
    found, state, fin := VisitAll(adj, u, state0[u := 1], stack + [u], fin0, state0.Keys);
    if found {
      return;
    }
    Finish(adj, state, stack, fin, u, state0.Keys, fin0);
    state := state[u := 2];
    fin := fin + [u];
  }

  /** Marking `u` done, once its successors are, ends `dfs(u)` in the state its contract promises. */
  lemma Finish<N>(adj: map<N, seq<N>>, state: map<N, int>, stack: seq<N>, fin: seq<N>, u: N,
                  before: set<N>, fin0: seq<N>)
    requires Inv(adj, state, stack + [u], fin) && forall w <- Succ(adj, u) :: w in fin
    requires before + {u} <= state.Keys && |fin| >= |fin0| && fin[..|fin0|] == fin0
    ensures Inv(adj, state[u := 2], stack, fin + [u]) && before + {u} <= state[u := 2].Keys
    ensures |fin + [u]| > |fin0| && (fin + [u])[..|fin0|] == fin0 && u in fin + [u]
  {
    Leave(adj, state, stack, fin, u);
    assert (fin + [u])[..|fin0|] == fin[..|fin0|];
  }

  /**
   * Progress of the loop in `dfs(u)` after its first `i` successors: nothing
   * coloured before is uncoloured, the finishing order only grows, and those
   * successors have finished.
   */
  ghost predicate Tried<N>(adj: map<N, seq<N>>, u: N, i: int, keys0: set<N>, state: map<N, int>,
                           fin0: seq<N>, fin: seq<N>)
    requires 0 <= i <= |Succ(adj, u)|
  {
    keys0 <= state.Keys && |fin| >= |fin0| && fin[..|fin0|] == fin0 &&
    forall j :: 0 <= j < i ==> Succ(adj, u)[j] in fin
  }

  /** The loop of `dfs(u)` over the successors of `u`, the last node of `path`. */
  method VisitAll<N(==)>(adj: map<N, seq<N>>, u: N, state0: map<N, int>, ghost path: seq<N>, ghost fin0: seq<N>,
                         ghost outer: set<N>)
      returns (found: bool, state: map<N, int>, ghost fin: seq<N>)
    requires Inv(adj, state0, path, fin0) && path != [] && path[|path| - 1] == u
    requires outer + {u} <= state0.Keys && u !in outer
    ensures found ==> exists p :: IsCycle(adj, p)
    ensures !found ==> Inv(adj, state, path, fin) && state0.Keys <= state.Keys
    ensures !found ==> |fin| >= |fin0| && fin[..|fin0|] == fin0 && forall w <- Succ(adj, u) :: w in fin
    decreases |Nodes(adj) - outer|, 2
  {
    state, fin := state0, fin0;
    var succ := Succ(adj, u);
    for i := 0 to |succ|
      invariant Inv(adj, state, path, fin) && Tried(adj, u, i, state0.Keys, state, fin0, fin)
    {
      found, state, fin := Visit(adj, u, i, state, path, fin, outer, state0.Keys, fin0);
      if found {
        return;
      }
    }
    found := false;
  }

  /**
   * One turn of the loop in `dfs(u)`, for its `i`-th successor `v`: colour 1
   * closes a cycle, no colour searches from `v`, colour 2 needs nothing.
   */
  method Visit<N(==)>(adj: map<N, seq<N>>, u: N, i: int, state1: map<N, int>, ghost path: seq<N>,
                      ghost fin1: seq<N>, ghost outer: set<N>, ghost keys0: set<N>, ghost fin0: seq<N>)
      returns (found: bool, state: map<N, int>, ghost fin: seq<N>)
    requires Inv(adj, state1, path, fin1) && path != [] && path[|path| - 1] == u
    requires 0 <= i < |Succ(adj, u)| && Tried(adj, u, i, keys0, state1, fin0, fin1)
    requires outer + {u} <= state1.Keys && u !in outer
    ensures found ==> exists p :: IsCycle(adj, p)
    ensures !found ==> Inv(adj, state, path, fin) && Tried(adj, u, i + 1, keys0, state, fin0, fin)
    decreases |Nodes(adj) - outer|, 1
  {
    var v := Succ(adj, u)[i];
    Successor(adj, u, v);
    state, fin := state1, fin1;
    var st := if v in state then state[v] else 0;
    if st == 1 {
      ClosesCycle(adj, path, v);
      return true, state, fin;
    }
    if st == 0 {
      Shrinks(Nodes(adj), outer, state.Keys, u);
      found, state, fin := Dfs(adj, v, state, path, fin);
      if found {
        return;
      }
      assert fin[..|fin0|] == fin[..|fin1|][..|fin0|];
    }
    found := false;
  }

  /** A successor is one of the nodes the search can meet. */
  lemma Successor<N>(adj: map<N, seq<N>>, u: N, v: N)
    requires v in Succ(adj, u)
    ensures v in Nodes(adj)
  {
    assert u in adj && v in adj[u];
  }

  /** `state.set(u, 1)`: `u` joins the end of the current path. */
  lemma Enter<N>(adj: map<N, seq<N>>, state: map<N, int>, stack: seq<N>, fin: seq<N>, u: N)
    requires Inv(adj, state, stack, fin) && u !in state && u in Nodes(adj)
    requires stack != [] ==> u in Succ(adj, stack[|stack| - 1])
    ensures Inv(adj, state[u := 1], stack + [u], fin)
  {
    assert u !in stack + fin;
    PushDistinct(stack, fin, u);
  }

  /** `state.set(u, 2)`: `u`, all of whose successors are finished, leaves the path and finishes. */
  lemma Leave<N>(adj: map<N, seq<N>>, state: map<N, int>, stack: seq<N>, fin: seq<N>, u: N)
    requires Inv(adj, state, stack + [u], fin)
    requires forall w <- Succ(adj, u) :: w in fin
    ensures Inv(adj, state[u := 2], stack, fin + [u])
  {
    var s := stack + [u];
    var f := fin + [u];
    assert s + fin == stack + [u] + fin;
    assert u in s;
    PopDistinct(stack, fin, u);
    assert f[..|fin|] == fin;
    forall k | 0 <= k < |f| ensures forall w <- Succ(adj, f[k]) :: w in f[..k] {
      if k < |fin| {
        assert f[..k] == fin[..k];
      }
    }
    forall k | 0 <= k < |stack| ensures stack[k] != u {
      assert (s + fin)[k] == stack[k] && (s + fin)[|stack|] == u;
    }
    forall k | 0 <= k < |stack| - 1 ensures stack[k + 1] in Succ(adj, stack[k]) {
      assert s[k] == stack[k] && s[k + 1] == stack[k + 1];
    }
  }

  /** A new node at the end of the path keeps the path and the finished nodes distinct. */
  lemma PushDistinct<N>(stack: seq<N>, fin: seq<N>, u: N)
    requires Distinct(stack + fin) && u !in stack + fin
    ensures Distinct(stack + [u] + fin)
  {
    var s, t := stack + [u], stack + fin;
    forall i, j | 0 <= i < j < |s + fin| ensures (s + fin)[i] != (s + fin)[j] {
      if i < |stack| && j < |stack| {
        assert (s + fin)[i] == t[i] && (s + fin)[j] == t[j];
      } else if i < |stack| && j == |stack| {
        assert (s + fin)[i] == t[i] && t[i] in t;
      } else if i < |stack| {
        assert (s + fin)[i] == t[i] && (s + fin)[j] == t[j - 1];
      } else if i == |stack| {
        assert (s + fin)[j] == t[j - 1] && t[j - 1] in t;
      } else {
        assert (s + fin)[i] == t[i - 1] && (s + fin)[j] == t[j - 1];
      }
    }
  }

  /** Moving the last node of the path to the end of the finished nodes keeps them all distinct. */
  lemma PopDistinct<N>(stack: seq<N>, fin: seq<N>, u: N)
    requires Distinct(stack + [u] + fin)
    ensures Distinct(stack + (fin + [u]))
  {
    var f, t := fin + [u], stack + [u] + fin;
    forall i, j | 0 <= i < j < |stack + f| ensures (stack + f)[i] != (stack + f)[j] {
      if j < |stack + f| - 1 {
        var i', j' := (if i < |stack| then i else i + 1), (if j < |stack| then j else j + 1);
        assert (stack + f)[i] == t[i'] && (stack + f)[j] == t[j'];
      } else {
        assert (stack + f)[j] == t[|stack|];
        var i' := if i < |stack| then i else i + 1;
        assert (stack + f)[i] == t[i'];
      }
    }
  }

  /** Meeting `v` on the current path: the path from `v` on, then `v` again, is a cycle. */
  lemma ClosesCycle<N>(adj: map<N, seq<N>>, path: seq<N>, v: N)
    requires IsPath(adj, path) && path != [] && v in path && v in Succ(adj, path[|path| - 1])
    ensures exists p :: IsCycle(adj, p)
  {
    var j :| 0 <= j < |path| && path[j] == v;
    var p := path[j..] + [v];
    assert p[0] == v && p[|p| - 1] == v;
    forall i | 0 <= i < |p| - 1 ensures p[i + 1] in Succ(adj, p[i]) {
      if i + 1 < |p| - 1 {
        assert p[i] == path[j + i] && p[i + 1] == path[j + i + 1];
      } else {
        assert p[i] == path[|path| - 1];
      }
    }
    assert IsCycle(adj, p);
  }

  /** Along a path from a finished node, every later node finished strictly earlier. */
  lemma {:induction false} FinishedEarlier<N>(adj: map<N, seq<N>>, fin: seq<N>, p: seq<N>, a: int, m: int)
    requires Finished(adj, fin) && IsPath(adj, p)
    requires 1 <= m < |p| && 0 <= a < |fin| && fin[a] == p[0]
    ensures exists b :: 0 <= b < a && fin[b] == p[m]
  {
    if m == 1 {
      assert p[1] in Succ(adj, fin[a]);
      assert p[1] in fin[..a];
    } else {
      FinishedEarlier(adj, fin, p, a, m - 1);
      var b' :| 0 <= b' < a && fin[b'] == p[m - 1];
      assert p[m] in Succ(adj, fin[b']);
      assert p[m] in fin[..b'];
      var b :| 0 <= b < b' && fin[b] == p[m];
    }
  }

  /** Once every key has finished, in an order where successors finish first, there is no cycle. */
  lemma NoCycle<N>(adj: map<N, seq<N>>, fin: seq<N>)
    requires Finished(adj, fin) && Distinct(fin) && forall x <- adj.Keys :: x in fin
    ensures forall p :: !IsCycle(adj, p)
  {
    forall p | IsCycle(adj, p) ensures false {
      assert p[1] in Succ(adj, p[0]);
      var a :| 0 <= a < |fin| && fin[a] == p[0];
      FinishedEarlier(adj, fin, p, a, |p| - 1);
    }
  }

  /** `hasDirectedCycle(adj)`, with `keys` standing for `Object.keys(adj)`. */
  method HasDirectedCycle<N(==)>(adj: map<N, seq<N>>, keys: seq<N>) returns (b: bool)
    requires (forall x <- keys :: x in adj) && forall x <- adj.Keys :: x in keys
    ensures b <==> exists p :: IsCycle(adj, p)
  {
    var state: map<N, int> := map[];
    ghost var fin: seq<N> := [];
    for k := 0 to |keys|
      invariant Inv(adj, state, [], fin)
      invariant forall x <- keys[..k] :: x in fin
    {
      var u := keys[k];
      if (if u in state then state[u] else 0) == 0 {
        var f;
        ghost var fin0 := fin;
        f, state, fin := Dfs(adj, u, state, [], fin);
        if f {
          return true;
        }
        assert forall x <- fin0 :: x in fin[..|fin0|];
      } else {
        assert u in fin;
      }
      assert keys[..k + 1] == keys[..k] + [u];
    }
    assert keys[..|keys|] == keys;
    assert [] + fin == fin;
    NoCycle(adj, fin);
    return false;
  }
}
