/**
 * `topoSort(nodes, edges)` (90file.js:1161-1181): Kahn's algorithm. An
 * adjacency list and an in-degree per node are built from the edges; nodes
 * of in-degree zero are queued; each dequeued node is emitted and lowers the
 * in-degree of its successors, queueing those that reach zero. The result is
 * `null` unless as many nodes were emitted as were listed.
 */
module TopoSort {
  import opened Common

  /** An edge `[from, to]`. */
  type Edge<N> = (N, N)

  /** `s` without repetitions, first occurrences kept in order: the keys of a `Map` built from `s`. */
  function Dedup<N(==)>(s: seq<N>): (r: seq<N>)
    ensures Distinct(r) && |r| <= |s|
    ensures (forall x <- r :: x in s) && (forall x <- s :: x in r)
    ensures Distinct(s) ==> r == s
    ensures |r| == |s| ==> Distinct(s)
  {
    if s == [] then [] else
      var d := Dedup(s[..|s| - 1]);
      var x := s[|s| - 1];
      assert s == s[..|s| - 1] + [x];
      if x in d then d else d + [x]
  }

  /** The keys of `indeg` once the edges are read: the listed nodes, then each unlisted target, in order. */
  function KeysOf<N(==)>(nodes: seq<N>, edges: seq<Edge<N>>): (r: seq<N>)
    ensures Distinct(r)
    ensures forall x <- r :: x in nodes || exists i :: 0 <= i < |edges| && edges[i].1 == x
    ensures (forall x <- nodes :: x in r) && (forall i :: 0 <= i < |edges| ==> edges[i].1 in r)
  {
    if edges == [] then Dedup(nodes) else
      var ks := KeysOf(nodes, edges[..|edges| - 1]);
      var v := edges[|edges| - 1].1;
      if v in ks then ks else ks + [v]
  }

  /** When every edge ends at a listed node, the keys are just the listed nodes, repeats dropped. */
  lemma {:induction false} KeysOfListed<N>(nodes: seq<N>, edges: seq<Edge<N>>)
    requires forall i :: 0 <= i < |edges| ==> edges[i].1 in nodes
    ensures KeysOf(nodes, edges) == Dedup(nodes)
  {
    if edges != [] {
      var init := edges[..|edges| - 1];
      assert forall i :: 0 <= i < |init| ==> init[i] == edges[i];
      KeysOfListed(nodes, init);
    }
  }

  /** `adj.get(u)` once the edges are read: the targets of the edges from `u`, in edge order. */
  function Adj<N(==)>(edges: seq<Edge<N>>, u: N): seq<N> {
    if edges == [] then [] else
      var e := edges[|edges| - 1];
      Adj(edges[..|edges| - 1], u) + if e.0 == u then [e.1] else []
  }

  /** Each successor listed for `u` is the end of an edge from `u`. */
  lemma {:induction false} AdjEdge<N>(edges: seq<Edge<N>>, u: N, x: N)
    requires x in Adj(edges, u)
    ensures (u, x) in edges
  {
    var init := edges[..|edges| - 1];
    assert forall i :: 0 <= i < |init| ==> init[i] == edges[i];
    if x !in Adj(init, u) {
      assert edges[|edges| - 1] == (u, x);
    } else {
      AdjEdge(init, u, x);
      assert (u, x) in init;
    }
  }

  /** A node no edge starts from has nothing in its list. */
  lemma {:induction false} AdjNone<N>(edges: seq<Edge<N>>, u: N)
    requires forall i :: 0 <= i < |edges| ==> edges[i].0 != u
    ensures Adj(edges, u) == []
  {
    if edges != [] {
      var init := edges[..|edges| - 1];
      assert forall i :: 0 <= i < |init| ==> init[i] == edges[i];
      AdjNone(init, u);
    }
  }

  /** How many edges lead into `v` from nodes not in `done`. */
  function InDeg<N(==)>(edges: seq<Edge<N>>, done: set<N>, v: N): nat {
    if edges == [] then 0 else
      var e := edges[|edges| - 1];
      InDeg(edges[..|edges| - 1], done, v) + if e.1 == v && e.0 !in done then 1 else 0
  }

  /** Every edge into a listed node comes from a listed node. */
  predicate Closed<N(==)>(res: seq<N>, edges: seq<Edge<N>>) {
    forall i :: 0 <= i < |edges| && edges[i].1 in res ==> edges[i].0 in res
  }

  /** Every edge between listed nodes goes forwards in the list. */
  predicate Ordered<N(==)>(res: seq<N>, edges: seq<Edge<N>>) {
    forall i, j :: 0 <= i < |res| && 0 <= j < |res| && (res[i], res[j]) in edges ==> i < j
  }

  /** `p` lists each of `nodes` once, with every edge pointing forwards: a topological order. */
  predicate TopoOrder<N(==)>(p: seq<N>, nodes: seq<N>, edges: seq<Edge<N>>) {
    |p| == |nodes| && Distinct(p) && (forall x <- p :: x in nodes) && (forall x <- nodes :: x in p) && Ordered(p, edges)
  }

  /** Every edge's ends are among `v`. */
  predicate EndsIn<N(==)>(edges: seq<Edge<N>>, v: seq<N>) {
    forall i :: 0 <= i < |edges| ==> edges[i].0 in v && edges[i].1 in v
  }

  /** No edge into `v` comes from outside `done` exactly when the count is zero. */
  lemma {:induction false} InDegZero<N>(edges: seq<Edge<N>>, done: set<N>, v: N)
    ensures InDeg(edges, done, v) == 0 <==> forall i :: 0 <= i < |edges| && edges[i].1 == v ==> edges[i].0 in done
  {
    if edges != [] {
      var init := edges[..|edges| - 1];
      InDegZero(init, done, v);
      assert forall i :: 0 <= i < |init| ==> init[i] == edges[i];
    }
  }

  /** Emitting `u` takes away exactly the edges from `u`: one per occurrence in its adjacency list. */
  lemma {:induction false} InDegEmit<N>(edges: seq<Edge<N>>, done: set<N>, u: N, v: N)
    requires u !in done
    ensures InDeg(edges, done + {u}, v) + multiset(Adj(edges, u))[v] == InDeg(edges, done, v)
  {
    if edges != [] {
      var init := edges[..|edges| - 1];
      var e := edges[|edges| - 1];
      InDegEmit(init, done, u, v);
      var tail: seq<N> := if e.0 == u then [e.1] else [];
      assert multiset(Adj(edges, u)) == multiset(Adj(init, u)) + multiset(tail);
    }
  }

  /** A repetition-free list is as long as the set of its elements. */
  lemma {:induction false} DistinctCard<N>(a: seq<N>)
    requires Distinct(a)
    ensures |set x | x in a| == |a|
  {
    if a != [] {
      var init := a[..|a| - 1];
      DistinctCard(init);
      assert (set x | x in a) == (set x | x in init) + {a[|a| - 1]};
    }
  }

  /** A repetition-free list drawn from another is no longer, and as long only when it has every element. */
  lemma DistinctWithin<N>(a: seq<N>, b: seq<N>)
    requires Distinct(a) && Distinct(b) && forall x <- a :: x in b
    ensures |a| <= |b|
    ensures |a| == |b| ==> forall x <- b :: x in a
  {
    DistinctCard(a);
    DistinctCard(b);
    var sa, sb := set x | x in a, set x | x in b;
    var rest := sb - sa;
    assert sb == sa + rest && sa !! rest;
    assert |sb| == |sa| + |rest|;
    if |a| == |b| {
      assert rest == {};
      forall x <- b ensures x in a {
        assert x in sb;
      }
    }
  }

  /** Two repetition-free lists with no element in common concatenate to one. */
  lemma DistinctConcat<N>(a: seq<N>, b: seq<N>)
    requires Distinct(a) && Distinct(b) && forall x <- b :: x !in a
    ensures Distinct(a + b)
  {
    forall i, j | 0 <= i < j < |a + b| ensures (a + b)[i] != (a + b)[j] {
      if j < |a| {
        assert (a + b)[i] == a[i] && (a + b)[j] == a[j];
      } else if i < |a| {
        assert (a + b)[i] == a[i] && a[i] in a;
        assert (a + b)[j] == b[j - |a|] && b[j - |a|] in b;
      } else {
        assert (a + b)[i] == b[i - |a|] && (a + b)[j] == b[j - |a|];
      }
    }
  }

  /** The keys of `m` are the elements of `s`. */
  ghost predicate KeysAre<N, V>(m: map<N, V>, s: seq<N>) {
    (forall x <- m.Keys :: x in s) && (forall x <- s :: x in m)
  }

  /** The nodes emitted so far, as a set. */
  function Done<N>(res: seq<N>): set<N> {
    set x | x in res
  }

  /**
   * What holds before each turn of the `while (q.length)` loop over the node
   * universe `v` (the keys of `indeg`): emitted and queued nodes are distinct,
   * `indeg` counts the edges from nodes not yet emitted, the queue holds
   * exactly the unemitted nodes of in-degree zero, and the emitted prefix is
   * closed under predecessors and ordered.
   */
  ghost predicate KahnState<N>(edges: seq<Edge<N>>, v: seq<N>, res: seq<N>, q: seq<N>, indeg: map<N, int>) {
    Distinct(res + q) && (forall x <- res + q :: x in v) &&
    KeysAre(indeg, v) &&
    (forall x <- v :: indeg[x] == InDeg(edges, Done(res), x)) &&
    (forall x <- q :: indeg[x] == 0) &&
    (forall x <- v :: x !in res && indeg[x] == 0 ==> x in q) &&
    Closed(res, edges) && Ordered(res, edges)
  }

  /** An emitted node has no edge left into it. */
  lemma EmittedZero<N>(edges: seq<Edge<N>>, res: seq<N>, x: N)
    requires Closed(res, edges) && x in res
    ensures InDeg(edges, Done(res), x) == 0
  {
    InDegZero(edges, Done(res), x);
  }

  /** The inner `for` over `adj.get(u)`: lower each successor's in-degree, queueing those that reach zero. */
  method Relax<N(==)>(succ: seq<N>, indeg0: map<N, int>, q0: seq<N>) returns (indeg: map<N, int>, q: seq<N>)
    requires forall x <- succ :: x in indeg0 && indeg0[x] >= multiset(succ)[x]
    ensures indeg.Keys == indeg0.Keys
    ensures forall x :: x in indeg0 ==> indeg[x] == indeg0[x] - multiset(succ)[x]
    ensures |q| >= |q0| && q[..|q0|] == q0 && Distinct(q[|q0|..])
    ensures forall x <- q[|q0|..] :: x in indeg0 && indeg0[x] > 0 && indeg[x] == 0
    ensures forall x :: x in indeg0 && indeg0[x] > 0 && indeg[x] == 0 ==> x in q[|q0|..]
  {
    indeg, q := indeg0, q0;
    ghost var pushed: seq<N> := [];
    for k := 0 to |succ|
      invariant Lowered(succ, k, indeg0, q0, indeg, q, pushed)
    {
      indeg, q, pushed := Decrement(succ, k, indeg0, q0, indeg, q, pushed);
    }
    Relaxed(succ, indeg0, q0, indeg, q, pushed);
  }

  /** Once every successor is counted, `Lowered` is what `Relax` promises. */
  lemma Relaxed<N>(succ: seq<N>, indeg0: map<N, int>, q0: seq<N>, indeg: map<N, int>, q: seq<N>, pushed: seq<N>)
    requires Lowered(succ, |succ|, indeg0, q0, indeg, q, pushed)
    ensures indeg.Keys == indeg0.Keys
    ensures forall x :: x in indeg0 ==> indeg[x] == indeg0[x] - multiset(succ)[x]
    ensures |q| >= |q0| && q[..|q0|] == q0 && Distinct(q[|q0|..])
    ensures forall x <- q[|q0|..] :: x in indeg0 && indeg0[x] > 0 && indeg[x] == 0
    ensures forall x :: x in indeg0 && indeg0[x] > 0 && indeg[x] == 0 ==> x in q[|q0|..]
  {
    assert succ[..|succ|] == succ;
    assert q[..|q0|] == q0 && q[|q0|..] == pushed;
  }

  /**
   * What holds after the first `k` successors: each in-degree is lowered by
   * the times its node occurs among them, and `pushed`, appended to `q0`,
   * holds once each node whose in-degree has dropped to zero.
   */
  ghost predicate Lowered<N>(succ: seq<N>, k: int, indeg0: map<N, int>, q0: seq<N>, indeg: map<N, int>, q: seq<N>, pushed: seq<N>)
    requires 0 <= k <= |succ|
  {
    indeg.Keys == indeg0.Keys &&
    (forall x :: x in indeg0 ==> indeg[x] == indeg0[x] - multiset(succ[..k])[x]) &&
    q == q0 + pushed && Distinct(pushed) &&
    (forall x <- pushed :: x in indeg0 && indeg0[x] > 0 && indeg[x] == 0) &&
    (forall x :: x in indeg0 && indeg0[x] > 0 && indeg[x] == 0 ==> x in pushed)
  }

  /** The body of the inner `for`: lower the `k`-th successor's in-degree, queueing it when that reaches zero. */
  method Decrement<N(==)>(succ: seq<N>, k: int, ghost indeg0: map<N, int>, ghost q0: seq<N>,
                          indeg1: map<N, int>, q1: seq<N>, ghost pushed1: seq<N>)
      returns (indeg: map<N, int>, q: seq<N>, ghost pushed: seq<N>)
    requires 0 <= k < |succ| && forall x <- succ :: x in indeg0 && indeg0[x] >= multiset(succ)[x]
    requires Lowered(succ, k, indeg0, q0, indeg1, q1, pushed1)
    ensures Lowered(succ, k + 1, indeg0, q0, indeg, q, pushed)
  {
    var v := succ[k];
    assert v in succ;
    indeg, q, pushed := indeg1[v := indeg1[v] - 1], q1, pushed1;
    if indeg[v] == 0 {
      q := q + [v];
      pushed := pushed + [v];
    }
    Lower(succ, k, indeg0, q0, indeg1, q1, pushed1, indeg, q, pushed);
  }

  /** Lowering the `k`-th successor's in-degree, and queueing it when that reaches zero, keeps `Lowered`. */
  lemma Lower<N>(succ: seq<N>, k: int, indeg0: map<N, int>, q0: seq<N>, indeg: map<N, int>, q: seq<N>, pushed: seq<N>,
                 indeg': map<N, int>, q': seq<N>, pushed': seq<N>)
    requires 0 <= k < |succ| && forall x <- succ :: x in indeg0 && indeg0[x] >= multiset(succ)[x]
    requires Lowered(succ, k, indeg0, q0, indeg, q, pushed)
    requires succ[k] in indeg && indeg' == indeg[succ[k] := indeg[succ[k]] - 1]
    requires if indeg'[succ[k]] == 0 then q' == q + [succ[k]] && pushed' == pushed + [succ[k]] else q' == q && pushed' == pushed
    ensures Lowered(succ, k + 1, indeg0, q0, indeg', q', pushed')
  {
    var v := succ[k];
    assert succ[..k + 1] == succ[..k] + [v];
    assert succ == succ[..k + 1] + succ[k + 1..];
    assert v in succ;
    assert multiset(succ[..k + 1])[v] <= multiset(succ)[v];
    assert indeg[v] >= 1 && indeg0[v] >= 1;
    forall x | x in indeg0 ensures indeg'[x] == indeg0[x] - multiset(succ[..k + 1])[x] {
      if x != v {
        assert multiset(succ[..k + 1])[x] == multiset(succ[..k])[x];
      }
    }
    assert v !in pushed;
    assert Distinct(pushed') by {
      if pushed' != pushed {
        forall i, j | 0 <= i < j < |pushed'| ensures pushed'[i] != pushed'[j] {
          if j == |pushed| {
            assert pushed'[i] == pushed[i] && pushed[i] in pushed;
          }
        }
      }
    }
    forall x <- pushed' ensures x in indeg0 && indeg0[x] > 0 && indeg'[x] == 0 {
      if x != v {
        assert x in pushed;
      }
    }
  }

  /** An empty adjacency list for each of `s`. */
  function NoEdges<N(==)>(s: seq<N>): (m: map<N, seq<N>>)
    ensures KeysAre(m, s) && forall x <- s :: m[x] == []
  {
    map x | x in s :: []
  }

  /** In-degree zero for each of `s`. */
  function Zeros<N(==)>(s: seq<N>): (m: map<N, int>)
    ensures KeysAre(m, s) && forall x <- s :: m[x] == 0
  {
    map x | x in s :: 0
  }

  /** `Dedup` one element further along `s`. */
  lemma DedupSnoc<N>(s: seq<N>, k: int)
    requires 0 <= k < |s|
    ensures Dedup(s[..k + 1]) == if s[k] in Dedup(s[..k]) then Dedup(s[..k]) else Dedup(s[..k]) + [s[k]]
  {
    assert s[..k + 1][..k] == s[..k];
  }

  /** The first loop of `topoSort`: every listed node gets in-degree 0 and an empty adjacency list. */
  method ListNodes<N(==)>(nodes: seq<N>) returns (keys: seq<N>, indeg: map<N, int>, adj: map<N, seq<N>>)
    ensures keys == Dedup(nodes)
    ensures indeg == Zeros(keys) && adj == NoEdges(nodes)
  {
    keys, indeg, adj := [], map[], map[];
    for k := 0 to |nodes|
      invariant keys == Dedup(nodes[..k]) && indeg == Zeros(keys) && adj == NoEdges(nodes[..k])
    {
      var n := nodes[k];
      DedupSnoc(nodes, k);
      NoEdgesSnoc(nodes, k);
      ZerosSnoc(keys, n);
      adj := adj[n := []];
      if n !in indeg {
        keys := keys + [n];
      }
      indeg := indeg[n := 0];
    }
    assert nodes[..|nodes|] == nodes;
  }

  /** `NoEdges` one element further along `s`. */
  lemma NoEdgesSnoc<N>(s: seq<N>, k: int)
    requires 0 <= k < |s|
    ensures NoEdges(s[..k + 1]) == NoEdges(s[..k])[s[k] := []]
  {
    assert s[..k + 1] == s[..k] + [s[k]];
  }

  /** `Zeros` after adding `n` to the keys. */
  lemma ZerosSnoc<N>(s: seq<N>, n: N)
    ensures Zeros(if n in s then s else s + [n]) == Zeros(s)[n := 0]
  {
  }

  /**
   * The second loop of `topoSort`: each edge `[u, v]` appends `v` to `u`'s
   * list and counts one more edge into `v`, which becomes a key if it was not one.
   */
  method ReadEdges<N(==)>(nodes: seq<N>, edges: seq<Edge<N>>, keys0: seq<N>, indeg0: map<N, int>, adj0: map<N, seq<N>>)
      returns (keys: seq<N>, indeg: map<N, int>, adj: map<N, seq<N>>)
    requires forall i :: 0 <= i < |edges| ==> edges[i].0 in nodes
    requires keys0 == Dedup(nodes) && indeg0 == Zeros(keys0) && adj0 == NoEdges(nodes)
    ensures keys == KeysOf(nodes, edges)
    ensures KeysAre(indeg, keys) && forall x <- keys :: indeg[x] == InDeg(edges, {}, x)
    ensures KeysAre(adj, nodes) && forall x <- nodes :: adj[x] == Adj(edges, x)
  {
    keys, indeg, adj := keys0, indeg0, adj0;
    NoEdgesRead(nodes, edges);
    for k := 0 to |edges|
      invariant keys == KeysOf(nodes, edges[..k])
      invariant KeysAre(indeg, keys) && forall x <- keys :: indeg[x] == InDeg(edges[..k], {}, x)
      invariant KeysAre(adj, nodes) && forall x <- nodes :: adj[x] == Adj(edges[..k], x)
    {
      keys, indeg, adj := ReadEdge(nodes, edges, k, keys, indeg, adj);
    }
    assert edges[..|edges|] == edges;
  }

  /** One turn of the second loop, for the `k`-th edge `[u, v]`. */
  method ReadEdge<N(==)>(nodes: seq<N>, edges: seq<Edge<N>>, k: int, keys0: seq<N>, indeg0: map<N, int>, adj0: map<N, seq<N>>)
      returns (keys: seq<N>, indeg: map<N, int>, adj: map<N, seq<N>>)
    requires 0 <= k < |edges| && edges[k].0 in nodes
    requires keys0 == KeysOf(nodes, edges[..k])
    requires KeysAre(indeg0, keys0) && forall x <- keys0 :: indeg0[x] == InDeg(edges[..k], {}, x)
    requires KeysAre(adj0, nodes) && forall x <- nodes :: adj0[x] == Adj(edges[..k], x)
    ensures keys == KeysOf(nodes, edges[..k + 1])
    ensures KeysAre(indeg, keys) && forall x <- keys :: indeg[x] == InDeg(edges[..k + 1], {}, x)
    ensures KeysAre(adj, nodes) && forall x <- nodes :: adj[x] == Adj(edges[..k + 1], x)
  {
    keys, indeg, adj := keys0, indeg0, adj0;
    var u, v := edges[k].0, edges[k].1;
    adj := adj[u := adj[u] + [v]];
    if v !in indeg {
      keys := keys + [v];
    }
    indeg := indeg[v := (if v in indeg then indeg[v] else 0) + 1];
    assert keys == KeysOf(nodes, edges[..k + 1]) by {
      KeysOfSnoc(nodes, edges, k);
    }
    assert KeysAre(indeg, keys) && forall x <- keys :: indeg[x] == InDeg(edges[..k + 1], {}, x) by {
      NewKeyZero(nodes, edges[..k], v);
      CountEdge(edges, k, keys0, indeg0);
    }
    assert KeysAre(adj, nodes) && forall x <- nodes :: adj[x] == Adj(edges[..k + 1], x) by {
      ListEdge(nodes, edges, k, adj0);
    }
  }

  /** `indeg.set(v, (indeg.get(v) || 0) + 1)` counts the `k`-th edge, adding `v` as a key if it is new. */
  lemma CountEdge<N>(edges: seq<Edge<N>>, k: int, keys: seq<N>, indeg: map<N, int>)
    requires 0 <= k < |edges|
    requires KeysAre(indeg, keys) && forall x <- keys :: indeg[x] == InDeg(edges[..k], {}, x)
    requires edges[k].1 !in keys ==> InDeg(edges[..k], {}, edges[k].1) == 0
    ensures var v := edges[k].1;
      var keys', indeg' := (if v in indeg then keys else keys + [v]), indeg[v := (if v in indeg then indeg[v] else 0) + 1];
      KeysAre(indeg', keys') && forall x <- keys' :: indeg'[x] == InDeg(edges[..k + 1], {}, x)
  {
    var v := edges[k].1;
    forall x <- keys + [v] ensures InDeg(edges[..k + 1], {}, x) == InDeg(edges[..k], {}, x) + if x == v then 1 else 0 {
      InDegSnoc(edges, k, x);
    }
  }

  /** `adj.get(u).push(v)` lists the `k`-th edge. */
  lemma ListEdge<N>(nodes: seq<N>, edges: seq<Edge<N>>, k: int, adj: map<N, seq<N>>)
    requires 0 <= k < |edges| && edges[k].0 in nodes
    requires KeysAre(adj, nodes) && forall x <- nodes :: adj[x] == Adj(edges[..k], x)
    ensures var u, v := edges[k].0, edges[k].1; var adj' := adj[u := adj[u] + [v]];
      KeysAre(adj', nodes) && forall x <- nodes :: adj'[x] == Adj(edges[..k + 1], x)
  {
    var u, v := edges[k].0, edges[k].1;
    forall x <- nodes ensures Adj(edges[..k + 1], x) == Adj(edges[..k], x) + if x == u then [v] else [] {
      AdjSnoc(edges, k, x);
    }
  }

  /** Before any edge is read, every in-degree is zero and every adjacency list empty. */
  lemma NoEdgesRead<N>(nodes: seq<N>, edges: seq<Edge<N>>)
    ensures KeysOf(nodes, edges[..0]) == Dedup(nodes)
    ensures forall x :: InDeg(edges[..0], {}, x) == 0 && Adj(edges[..0], x) == []
  {
    assert edges[..0] == [];
  }

  /** `KeysOf` one edge further. */
  lemma KeysOfSnoc<N>(nodes: seq<N>, edges: seq<Edge<N>>, k: int)
    requires 0 <= k < |edges|
    ensures var v := edges[k].1; var ks := KeysOf(nodes, edges[..k]);
      KeysOf(nodes, edges[..k + 1]) == (if v in ks then ks else ks + [v])
  {
    assert edges[..k + 1][..k] == edges[..k];
  }

  /** A node that is not yet a key has no edge into it. */
  lemma NewKeyZero<N>(nodes: seq<N>, edges: seq<Edge<N>>, v: N)
    ensures v !in KeysOf(nodes, edges) ==> InDeg(edges, {}, v) == 0
  {
    InDegZero(edges, {}, v);
  }

  /** `InDeg` with no node emitted, one edge further. */
  lemma InDegSnoc<N>(edges: seq<Edge<N>>, k: int, x: N)
    requires 0 <= k < |edges|
    ensures InDeg(edges[..k + 1], {}, x) == InDeg(edges[..k], {}, x) + if x == edges[k].1 then 1 else 0
  {
    assert edges[..k + 1][..k] == edges[..k];
  }

  /** `Adj` one edge further. */
  lemma AdjSnoc<N>(edges: seq<Edge<N>>, k: int, x: N)
    requires 0 <= k < |edges|
    ensures Adj(edges[..k + 1], x) == Adj(edges[..k], x) + if x == edges[k].0 then [edges[k].1] else []
  {
    assert edges[..k + 1][..k] == edges[..k];
  }

  /** The queue `topoSort` starts from: the keys of in-degree zero, in key order. */
  method ZeroQueue<N(==)>(keys: seq<N>, indeg: map<N, int>) returns (q: seq<N>)
    requires Distinct(keys) && KeysAre(indeg, keys)
    ensures Distinct(q) && forall x <- q :: x in keys && indeg[x] == 0
    ensures forall j :: 0 <= j < |keys| && indeg[keys[j]] == 0 ==> keys[j] in q
  {
    q := [];
    for k := 0 to |keys|
      invariant Distinct(q) && forall x <- q :: x in keys[..k] && indeg[x] == 0
      invariant forall j :: 0 <= j < k && indeg[keys[j]] == 0 ==> keys[j] in q
    {
      assert keys[k] in keys;
      if indeg[keys[k]] == 0 {
        q := q + [keys[k]];
      }
    }
  }

  /** `topoSort(nodes, edges)`; every edge must start at a listed node, since `adj.get(u).push` throws otherwise. */
  method TopoSort<N(==)>(nodes: seq<N>, edges: seq<Edge<N>>) returns (r: Option<seq<N>>)
    requires forall i :: 0 <= i < |edges| ==> edges[i].0 in nodes
    ensures r.Some? ==> |r.value| == |nodes| && Distinct(r.value) && Closed(r.value, edges) && Ordered(r.value, edges)
    ensures r.Some? ==> forall x <- r.value :: x in KeysOf(nodes, edges)
    ensures Distinct(nodes) && EndsIn(edges, nodes) ==> (r.Some? <==> exists p :: TopoOrder(p, nodes, edges))
    ensures Distinct(nodes) && EndsIn(edges, nodes) && r.Some? ==> TopoOrder(r.value, nodes, edges)
    ensures !Distinct(nodes) && (forall i :: 0 <= i < |edges| ==> edges[i].1 in nodes) ==> r.None?
    ensures (Distinct(nodes) && (exists i :: 0 <= i < |edges| && edges[i].1 !in nodes)
      && exists p :: TopoOrder(p, KeysOf(nodes, edges), edges)) ==> r.None?
  {
    var keys, indeg, adj := ListNodes(nodes);
    keys, indeg, adj := ReadEdges(nodes, edges, keys, indeg, adj);
    var q := ZeroQueue(keys, indeg);
    var res: seq<N> := [];
    ghost var universe := keys;
    assert EndsIn(edges, universe);
    Start(edges, universe, q, indeg);
    assert forall i :: 0 <= i < |edges| ==> edges[i].0 in adj;
    while q != []
      invariant KahnState(edges, universe, res, q, indeg)
      decreases |universe| - |res|
    {
      DistinctWithin(res + q, universe);
      res, q, indeg := Emit(edges, universe, adj, res, q, indeg);
    }
    Finish(nodes, edges, universe, res, indeg);
    r := if |res| == |nodes| then Some(res) else None;
  }

  /** One turn of Kahn's loop: dequeue `u`, emit it, and relax its successors. */
  method Emit<N(==)>(edges: seq<Edge<N>>, ghost v: seq<N>, adj: map<N, seq<N>>, res0: seq<N>, q0: seq<N>, indeg0: map<N, int>)
      returns (res: seq<N>, q: seq<N>, indeg: map<N, int>)
    requires KahnState(edges, v, res0, q0, indeg0) && EndsIn(edges, v) && q0 != []
    requires (forall x <- adj.Keys :: adj[x] == Adj(edges, x)) && forall i :: 0 <= i < |edges| ==> edges[i].0 in adj
    ensures KahnState(edges, v, res, q, indeg) && res == res0 + [q0[0]]
  {
    var u := q0[0];
    var succ := if u in adj then adj[u] else [];
    if u !in adj {
      AdjNone(edges, u);
    }
    Ready(edges, v, res0, q0, indeg0);
    indeg, q := Relax(succ, indeg0, q0[1..]);
    Step(edges, v, res0, q0, indeg0, indeg, q);
    res := res0 + [u];
  }

  /** The queue of nodes listed with in-degree zero starts Kahn's loop with nothing emitted. */
  lemma Start<N>(edges: seq<Edge<N>>, v: seq<N>, q: seq<N>, indeg: map<N, int>)
    requires KeysAre(indeg, v) && forall x <- v :: indeg[x] == InDeg(edges, {}, x)
    requires Distinct(q) && forall x <- q :: x in v && indeg[x] == 0
    requires forall j :: 0 <= j < |v| && indeg[v[j]] == 0 ==> v[j] in q
    ensures KahnState(edges, v, [], q, indeg)
  {
    assert Done<N>([]) == {};
    assert [] + q == q;
  }

  /** The head of the queue is not yet emitted, and each successor's in-degree counts all its edges from it. */
  lemma Ready<N>(edges: seq<Edge<N>>, v: seq<N>, res: seq<N>, q: seq<N>, indeg: map<N, int>)
    requires KahnState(edges, v, res, q, indeg) && EndsIn(edges, v) && q != []
    ensures q[0] !in res
    ensures forall x <- Adj(edges, q[0]) :: x in indeg && indeg[x] >= multiset(Adj(edges, q[0]))[x]
  {
    var u := q[0];
    assert (res + q)[|res|] == u;
    forall k | 0 <= k < |res| ensures res[k] != u {
      assert (res + q)[k] == res[k];
    }
    forall x <- Adj(edges, u) ensures x in indeg && indeg[x] >= multiset(Adj(edges, u))[x] {
      AdjEdge(edges, u, x);
      var i :| 0 <= i < |edges| && edges[i] == (u, x);
      assert x in v;
      InDegEmit(edges, Done(res), u, x);
    }
  }

  /** One turn of Kahn's loop: emitting the queue's head and relaxing its successors keeps the loop's invariant. */
  lemma Step<N>(edges: seq<Edge<N>>, v: seq<N>, res: seq<N>, q: seq<N>, indeg: map<N, int>,
                nextDeg: map<N, int>, nextQ: seq<N>)
    requires KahnState(edges, v, res, q, indeg) && EndsIn(edges, v) && q != []
    requires nextDeg.Keys == indeg.Keys
    requires forall x :: x in indeg ==> nextDeg[x] == indeg[x] - multiset(Adj(edges, q[0]))[x]
    requires |nextQ| >= |q| - 1 && nextQ[..|q| - 1] == q[1..] && Distinct(nextQ[|q| - 1..])
    requires forall x <- nextQ[|q| - 1..] :: x in indeg && indeg[x] > 0 && nextDeg[x] == 0
    requires forall x :: x in indeg && indeg[x] > 0 && nextDeg[x] == 0 ==> x in nextQ[|q| - 1..]
    ensures KahnState(edges, v, res + [q[0]], nextQ, nextDeg)
  {
    var u := q[0];
    Ready(edges, v, res, q, indeg);
    StepCounts(edges, v, res, u, indeg, nextDeg);
    StepDistinct(edges, v, res, q, indeg, nextQ);
    StepQueued(v, res, q, indeg, nextDeg, nextQ);
    StepClosed(edges, res, u, indeg);
    StepOrdered(edges, res, u, indeg);
  }

  /** The queue after relaxing holds exactly the unemitted nodes whose in-degree is now zero. */
  lemma StepQueued<N>(v: seq<N>, res: seq<N>, q: seq<N>, indeg: map<N, int>, nextDeg: map<N, int>, nextQ: seq<N>)
    requires q != [] && KeysAre(indeg, v) && nextDeg.Keys == indeg.Keys
    requires forall x <- q :: x in indeg && indeg[x] == 0
    requires forall x <- v :: x !in res && indeg[x] == 0 ==> x in q
    requires forall x :: x in indeg ==> 0 <= nextDeg[x] <= indeg[x]
    requires |nextQ| >= |q| - 1 && nextQ[..|q| - 1] == q[1..]
    requires forall x <- nextQ[|q| - 1..] :: x in indeg && nextDeg[x] == 0
    requires forall x :: x in indeg && indeg[x] > 0 && nextDeg[x] == 0 ==> x in nextQ[|q| - 1..]
    ensures forall x <- nextQ :: nextDeg[x] == 0
    ensures forall x <- v :: x !in res + [q[0]] && nextDeg[x] == 0 ==> x in nextQ
  {
    assert nextQ == q[1..] + nextQ[|q| - 1..];
    forall x <- nextQ ensures nextDeg[x] == 0 {
      if x in q[1..] {
        assert x in q;
      }
    }
    forall x <- v | x !in res + [q[0]] && nextDeg[x] == 0 ensures x in nextQ {
      assert x in v;
      if indeg[x] == 0 {
        assert x in q && x != q[0];
        assert x in q[1..];
      }
    }
  }

  /** After emitting `u`, the lowered in-degrees count the edges from nodes not yet emitted. */
  lemma StepCounts<N>(edges: seq<Edge<N>>, v: seq<N>, res: seq<N>, u: N, indeg: map<N, int>, nextDeg: map<N, int>)
    requires u !in res && KeysAre(indeg, v) && nextDeg.Keys == indeg.Keys
    requires forall x <- v :: indeg[x] == InDeg(edges, Done(res), x)
    requires forall x :: x in indeg ==> nextDeg[x] == indeg[x] - multiset(Adj(edges, u))[x]
    ensures forall x <- v :: nextDeg[x] == InDeg(edges, Done(res + [u]), x)
    ensures forall x :: x in indeg ==> 0 <= nextDeg[x] <= indeg[x]
  {
    assert Done(res + [u]) == Done(res) + {u};
    forall x <- v ensures nextDeg[x] == InDeg(edges, Done(res + [u]), x) {
      assert x in v;
      InDegEmit(edges, Done(res), u, x);
    }
    forall x | x in indeg ensures 0 <= nextDeg[x] <= indeg[x] {
      assert x in v;
    }
  }

  /** The newly queued nodes still had edges into them, so they were neither emitted nor queued. */
  lemma StepDistinct<N>(edges: seq<Edge<N>>, v: seq<N>, res: seq<N>, q: seq<N>, indeg: map<N, int>, nextQ: seq<N>)
    requires KahnState(edges, v, res, q, indeg) && q != []
    requires |nextQ| >= |q| - 1 && nextQ[..|q| - 1] == q[1..] && Distinct(nextQ[|q| - 1..])
    requires forall x <- nextQ[|q| - 1..] :: x in indeg && indeg[x] > 0
    ensures Distinct(res + [q[0]] + nextQ) && forall x <- res + [q[0]] + nextQ :: x in v
  {
    var pushed := nextQ[|q| - 1..];
    assert nextQ == q[1..] + pushed;
    assert res + [q[0]] + nextQ == res + q + pushed;
    forall x <- pushed ensures x !in res + q && x in v {
      assert x in v;
      if x in res {
        EmittedZero(edges, res, x);
      }
    }
    DistinctConcat(res + q, pushed);
  }

  /** A node of in-degree zero has all its predecessors emitted already. */
  lemma StepClosed<N>(edges: seq<Edge<N>>, res: seq<N>, u: N, indeg: map<N, int>)
    requires Closed(res, edges) && u in indeg && indeg[u] == InDeg(edges, Done(res), u) && indeg[u] == 0
    ensures Closed(res + [u], edges)
  {
    InDegZero(edges, Done(res), u);
  }

  /** Appending a node of in-degree zero, not yet emitted, keeps every edge pointing forwards. */
  lemma StepOrdered<N>(edges: seq<Edge<N>>, res: seq<N>, u: N, indeg: map<N, int>)
    requires Closed(res, edges) && Ordered(res, edges) && u !in res
    requires u in indeg && indeg[u] == InDeg(edges, Done(res), u) && indeg[u] == 0
    ensures Ordered(res + [u], edges)
  {
    InDegZero(edges, Done(res), u);
    var r := res + [u];
    forall i, j | 0 <= i < |r| && 0 <= j < |r| && (r[i], r[j]) in edges ensures i < j {
      var e :| 0 <= e < |edges| && edges[e] == (r[i], r[j]);
      if i < |res| && j < |res| {
        assert r[i] == res[i] && r[j] == res[j];
      }
    }
  }

  /** When a topological order of the universe exists, Kahn's loop emits all of it before the queue runs dry. */
  lemma Complete<N>(edges: seq<Edge<N>>, v: seq<N>, res: seq<N>, indeg: map<N, int>, p: seq<N>)
    requires KahnState(edges, v, res, [], indeg) && EndsIn(edges, v) && Distinct(v)
    requires TopoOrder(p, v, edges)
    ensures |res| == |v|
  {
    assert res + [] == res;
    DistinctWithin(res, v);
    if |res| < |v| {
      if forall x <- v :: x in res {
        DistinctWithin(v, res);
        assert false;
      }
      var y :| y in v && y !in res;
      var k0 :| 0 <= k0 < |p| && p[k0] == y;
      var i := EarliestMissing(p, res, k0);
      var x := p[i];
      assert x !in res && x in v;
      InDegZero(edges, Done(res), x);
    }
  }

  /** The first entry of `p` up to `k0` that is not in `res`, given that `p[k0]` is not. */
  lemma EarliestMissing<N>(p: seq<N>, res: seq<N>, k0: int) returns (i: int)
    requires 0 <= k0 < |p| && p[k0] !in res
    ensures 0 <= i <= k0 && p[i] !in res && forall j :: 0 <= j < i ==> p[j] in res
  {
    i := 0;
    while i < k0 && p[i] in res
      invariant 0 <= i <= k0 && forall j :: 0 <= j < i ==> p[j] in res
    {
      i := i + 1;
    }
  }

  /** What the final length test `res.length === nodes.length` decides. */
  lemma Finish<N>(nodes: seq<N>, edges: seq<Edge<N>>, v: seq<N>, res: seq<N>, indeg: map<N, int>)
    requires v == KeysOf(nodes, edges) && KahnState(edges, v, res, [], indeg)
    requires forall i :: 0 <= i < |edges| ==> edges[i].0 in nodes
    ensures Distinct(res) && Closed(res, edges) && Ordered(res, edges) && forall x <- res :: x in v
    ensures Distinct(nodes) && EndsIn(edges, nodes) ==> (|res| == |nodes| <==> exists p :: TopoOrder(p, nodes, edges))
    ensures Distinct(nodes) && EndsIn(edges, nodes) && |res| == |nodes| ==> TopoOrder(res, nodes, edges)
    ensures !Distinct(nodes) && (forall i :: 0 <= i < |edges| ==> edges[i].1 in nodes) ==> |res| != |nodes|
    ensures Distinct(nodes) && (exists i :: 0 <= i < |edges| && edges[i].1 !in nodes) && (exists p :: TopoOrder(p, v, edges))
      ==> |res| != |nodes|
  {
    assert res + [] == res;
    DistinctWithin(res, v);
    assert EndsIn(edges, v);
    if forall i :: 0 <= i < |edges| ==> edges[i].1 in nodes {
      KeysOfListed(nodes, edges);
    }
    if Distinct(nodes) && EndsIn(edges, nodes) {
      assert v == nodes;
      if |res| == |nodes| {
        assert TopoOrder(res, nodes, edges);
      }
      if p :| TopoOrder(p, nodes, edges) {
        Complete(edges, v, res, indeg, p);
      }
    }
    if Distinct(nodes) && (exists i :: 0 <= i < |edges| && edges[i].1 !in nodes) {
      if p :| TopoOrder(p, v, edges) {
        Complete(edges, v, res, indeg, p);
        var i :| 0 <= i < |edges| && edges[i].1 !in nodes;
        assert edges[i].1 in v;
        DistinctWithin(nodes, v);
      }
    }
  }
}
