/**
 * The C++ variant of the strongly-connected-components exercise,
 * proj/2017-2018/p1/src/proj.cpp: a graph of per-vertex target lists
 * (`std::list<Vertex> *adj`) with an `in_graph` mark per id, whose
 * `connect` counts the distinct endpoints it has seen into `nr_vertices`,
 * and the same Tarjan search and condensation pass as the C variant.
 */
module SccLists {
  import opened Seqs
  import opened Chains
  import opened LinkedGraph
  import opened SearchState
  import opened SccLinked

  /** The ids whose mark is set. */
  ghost function Marked(m: seq<bool>): (r: set<int>)
    ensures forall x :: x in r <==> 0 <= x < |m| && m[x]
  {
    set x | 0 <= x < |m| && m[x]
  }

  /** Setting one mark adds its id to the marked set when it was not there. */
  lemma MarkOne(m: seq<bool>, i: int)
    requires 0 <= i < |m|
    ensures Marked(m[i := true]) == Marked(m) + {i}
    ensures |Marked(m[i := true])| == |Marked(m)| + (if m[i] then 0 else 1)
  {
    assert Marked(m[i := true]) == Marked(m) + {i};
  }

  /** Both ends of every pair. */
  ghost function Ends(edges: seq<(int, int)>): (r: set<int>)
    ensures forall x :: x in r <==> exists i :: 0 <= i < |edges| && (edges[i].0 == x || edges[i].1 == x)
  {
    (set e | e in edges :: e.0) + (set e | e in edges :: e.1)
  }

  /** The marks `m` with the ends of every pair set. */
  ghost function MarkAll(m: seq<bool>, edges: seq<(int, int)>): (r: seq<bool>)
    ensures |r| == |m| && forall x :: 0 <= x < |m| ==> (r[x] <==> m[x] || x in Ends(edges))
  {
    seq(|m|, x requires 0 <= x < |m| => m[x] || x in Ends(edges))
  }

  lemma MarkAllSnoc(m: seq<bool>, edges: seq<(int, int)>, e: (int, int))
    requires 0 <= e.0 < |m| && 0 <= e.1 < |m|
    ensures MarkAll(m, edges + [e]) == MarkAll(m, edges)[e.0 := true][e.1 := true]
  {
    assert forall x :: x in Ends(edges + [e]) <==> x in Ends(edges) || x == e.0 || x == e.1 by {
      forall x ensures x in Ends(edges + [e]) <==> x in Ends(edges) || x == e.0 || x == e.1 {
        if x in Ends(edges + [e]) {
          var i :| 0 <= i < |edges| + 1 && ((edges + [e])[i].0 == x || (edges + [e])[i].1 == x);
          if i < |edges| { assert (edges + [e])[i] == edges[i]; }
        }
        if x in Ends(edges) {
          var i :| 0 <= i < |edges| && (edges[i].0 == x || edges[i].1 == x);
          assert (edges + [e])[i] == edges[i];
        }
        assert (edges + [e])[|edges|] == e;
      }
    }
  }

  /**
   * `a`, `m` and `c` are the lists, the marks and the vertex count after
   * `connect` of every pair of `edges`, in order, from `a0`, `m0` and `c0`:
   * the count grows by one for each id marked on the way.
   */
  ghost predicate Reached(a0: AdjLists, m0: seq<bool>, c0: int, edges: seq<(int, int)>,
                          a: AdjLists, m: seq<bool>, c: int)
  {
    PairsIn(edges, |a0|) && |m0| == |a0| &&
    a == ConnectAll(a0, edges, false) && m == MarkAll(m0, edges) &&
    c == c0 + |Marked(m)| - |Marked(m0)|
  }

  lemma ReachedNone(a: AdjLists, m: seq<bool>, c: int)
    requires |m| == |a|
    ensures Reached(a, m, c, [], a, m, c)
  {
    assert MarkAll(m, []) == m;
  }

  /** One more `connect` reaches the state of the pairs with `e` appended. */
  lemma ReachedSnoc(a0: AdjLists, m0: seq<bool>, c0: int, edges: seq<(int, int)>, e: (int, int),
                    a: AdjLists, m: seq<bool>, c: int)
    requires Reached(a0, m0, c0, edges, a, m, c)
    requires 0 <= e.0 < |a0| && 0 <= e.1 < |a0|
    ensures Reached(a0, m0, c0, edges + [e], ConnectSpec(a, e.0, e.1, false), m[e.0 := true][e.1 := true],
                    c + |Marked(m[e.0 := true][e.1 := true])| - |Marked(m)|)
  {
    assert PairsIn(edges + [e], |a0|) by {
      forall i | 0 <= i < |edges| + 1
        ensures 0 <= (edges + [e])[i].0 < |a0| && 0 <= (edges + [e])[i].1 < |a0|
      {
        if i < |edges| { assert (edges + [e])[i] == edges[i]; }
      }
    }
    ConnectAllSnoc(a0, edges, e, false);
    MarkAllSnoc(m0, edges, e);
  }

  /** Every pair names ids `1..count-1`: vertex 0 is no input vertex. */
  ghost predicate IdsIn(edges: seq<(int, int)>, count: int)
  {
    forall i :: 0 <= i < |edges| ==> 1 <= edges[i].0 < count && 1 <= edges[i].1 < count
  }

  function Max(a: int, b: int): (r: int)
    ensures r >= a && r >= b && (r == a || r == b)
  {
    if a < b then b else a
  }

  /**
   * The lists of a graph of the C++ variant holding `e` arcs: they are
   * those of input vertices `1..|a|-1`, vertex 0 has none, no list repeats
   * a target, and `e` counts every stored arc.  Contracts write
   * `Sound(..) == true` or `Valid() == true` to keep it one fact.
   */
  ghost predicate Sound(a: AdjLists, e: int)
  {
    |a| > 0 && a[0] == [] && Wellformed(a, |a| - 1) && NoParallel(a) && e == TotalLength(a)
  }

  /** Appending a new target `v` to `a[u]` is `connect`'s arc, and one more arc. */
  lemma AppendSound(a: AdjLists, e: int, u: int, v: int)
    requires Sound(a, e) && 1 <= u < |a| && 1 <= v < |a| && v !in a[u]
    ensures a[u := a[u] + [v]] == ConnectSpec(a, u, v, false) && Sound(a[u := a[u] + [v]], e + 1)
  {
    TotalLengthUpdate(a, u, a[u] + [v]);
    AddKeepsNoParallel(a, u, v);
  }

  /** Sorting one list keeps the lists sound. */
  lemma SortSound(a: AdjLists, e: int, u: int)
    requires Sound(a, e) && 0 <= u < |a|
    ensures Sound(a[u := SortAsc(a[u])], e)
  {
    var t := SortAsc(a[u]);
    assert AllIn(a[u], 1, |a|);
    PermutationKeeps(a[u], t, 1, |a|);
    TotalLengthUpdate(a, u, t);
    ReplaceSound(a, u, t);
  }

  lemma ReplaceSound(a: AdjLists, u: int, t: seq<int>)
    requires |a| > 0 && a[0] == [] && Wellformed(a, |a| - 1) && NoParallel(a) && 0 <= u < |a|
    requires AllIn(t, 1, |a|) && Distinct(t) && (u == 0 ==> t == [])
    ensures a[u := t][0] == [] && Wellformed(a[u := t], |a| - 1) && NoParallel(a[u := t])
  {
  }

  /**
   * `class Graph` of the C++ variant: the target lists `adj[0..num_v]`, the
   * marks `in_graph[0..num_v]`, the count of marked ids `nr_vertices` and
   * the number of stored arcs `nr_edges`.
   */
  class ListGraph {
    var nrVertices: nat
    var nrEdges: nat
    const inGraph: array<bool>
    const adj: array<seq<int>>

    /** The marks and the lists cover the same ids `0..num_v`, and the lists are `Sound`. */
    ghost predicate Valid()
      reads this, adj
    {
      inGraph.Length == adj.Length && Sound(adj[..], nrEdges)
    }

    /** `Graph(num_v)`: no vertex, no edge, no mark, empty lists. */
    constructor New(numV: nat)
      ensures Valid() == true && nrVertices == 0 && nrEdges == 0
      ensures fresh(adj) && fresh(inGraph)
      ensures adj[..] == NoArcs(numV + 1) && inGraph[..] == seq(numV + 1, _ => false)
      ensures Marked(inGraph[..]) == {}
    {
      nrVertices, nrEdges := 0, 0;
      inGraph := new bool[numV + 1](_ => false);
      adj := new seq<int>[numV + 1](_ => []);
      new;
      assert adj[..] == NoArcs(numV + 1);
      TotalLengthEmpty(numV + 1);
    }

    /** `has_connection(u, v)`: `std::find` of `v` along `adj[u]`. */
    method HasConnection(u: int, v: int) returns (found: bool)
      requires 0 <= u < adj.Length
      ensures found <==> v in adj[u]
    {
      var t := adj[u];
      var i := 0;
      while i < |t| && t[i] != v
        invariant 0 <= i <= |t| && v !in t[..i]
      {
        i := i + 1;
      }
      found := i < |t|;
    }

    /**
     * `connect(u, v)`: mark and count each end not yet in the graph, then
     * append `v` to `adj[u]` unless it is there already.  The count grows
     * by the number of ids newly marked, so `nr_vertices` minus the number
     * of marks never changes.
     */
    method Connect(u: int, v: int)
      requires Valid() == true && 1 <= u < adj.Length && 1 <= v < adj.Length
      modifies this, inGraph, adj
      ensures Valid() == true
      ensures adj[..] == ConnectSpec(old(adj[..]), u, v, false)
      ensures nrEdges == old(nrEdges) + (if v in old(adj[u]) then 0 else 1)
      ensures inGraph[..] == old(inGraph[..])[u := true][v := true]
      ensures nrVertices == old(nrVertices) + |Marked(inGraph[..])| - |Marked(old(inGraph[..]))|
    {
      ghost var m0 := inGraph[..];
      Mark(u);
      Mark(v);
      var found := HasConnection(u, v);
      if !found {
        AppendSound(adj[..], nrEdges, u, v);
        adj[u] := adj[u] + [v];
        nrEdges := nrEdges + 1;
      }
    }

    /** The first half of `connect`: mark and count `u` unless it is in the graph already. */
    method Mark(u: int)
      requires 0 <= u < inGraph.Length
      modifies this, inGraph
      ensures nrEdges == old(nrEdges)
      ensures inGraph[..] == old(inGraph[..])[u := true]
      ensures nrVertices == old(nrVertices) + |Marked(inGraph[..])| - |Marked(old(inGraph[..]))|
    {
      MarkOne(inGraph[..], u);
      if !inGraph[u] {
        nrVertices := nrVertices + 1;
        inGraph[u] := true;
      }
    }

    /** `init`: `connect` every input pair, in order. */
    method Init(edges: seq<(int, int)>)
      requires Valid() == true && IdsIn(edges, adj.Length)
      modifies this, inGraph, adj
      ensures Valid() == true
      ensures Reached(old(adj[..]), old(inGraph[..]), old(nrVertices), edges, adj[..], inGraph[..], nrVertices)
    {
      ghost var a0, m0, c0 := adj[..], inGraph[..], nrVertices;
      ReachedNone(a0, m0, c0);
      var i := 0;
      while i < |edges|
        invariant 0 <= i <= |edges| && Valid() == true
        invariant Reached(a0, m0, c0, edges[..i], adj[..], inGraph[..], nrVertices) == true
      {
        ReachedSnoc(a0, m0, c0, edges[..i], edges[i], adj[..], inGraph[..], nrVertices);
        assert edges[..i + 1] == edges[..i] + [edges[i]];
        Connect(edges[i].0, edges[i].1);
        i := i + 1;
      }
      assert edges[..i] == edges;
    }

    /**
     * `sort`: sort `adj[u]` for `u = 1, 2, ...` until the lists sorted hold
     * `nr_edges` targets; the lists past that point are empty, so every
     * list ends up ascending.
     */
    method Sort()
      requires Valid() == true
      modifies adj
      ensures Valid() == true && adj[..] == SortEach(old(adj[..]))
    {
      ghost var adj0 := adj[..];
      var idx := 0;
      var u := 1;
      TotalLengthPrefix(adj0, 0);
      assert adj0[..0] == [];
      while idx < nrEdges
        invariant 1 <= u <= adj.Length
        invariant idx == TotalLength(adj0[..u])
        invariant adj[..] == SortedBelow(adj0, u)
        invariant Valid() == true
        decreases adj.Length - u
      {
        TotalLengthShort(adj0, u);
        SortOne(u);
        SortedBelowStep(adj0, u);
        TotalLengthPrefix(adj0, u);
        idx := idx + |adj[u]|;
        u := u + 1;
      }
      forall w | u <= w < |adj0| ensures adj0[w] == [] {
        TotalLengthRest(adj0, u, w);
      }
      SortedBelowDone(adj0, u);
    }

    /** `adj[u].sort()`: the list becomes ascending, the others are kept. */
    method SortOne(u: int)
      requires Valid() == true && 0 <= u < adj.Length
      modifies adj
      ensures Valid() == true && adj[..] == old(adj[..])[u := SortAsc(old(adj[u]))]
    {
      SortSound(adj[..], nrEdges, u);
      adj[u] := SortAsc(adj[u]);
    }
  }

  /**
   * One step of the inner loop of the condensation pass of `SCC_find`: read
   * `v = t[k]` and, when `head[u] != head[v]`, `scc->connect(head[u], head[v])`.
   * `done` and `next` are the pairs met before and after the step, and
   * `scc` is what connecting them from `a0`, `m0` and `c0` reaches.
   */
  method CondenseNext(scc: ListGraph, head: seq<int>, t: seq<int>, k: int, u: int, ghost n: int,
                      ghost a0: AdjLists, ghost m0: seq<bool>, ghost c0: int,
                      ghost es: seq<(int, int)>, ghost done: seq<(int, int)>)
      returns (ghost next: seq<(int, int)>)
    requires scc.Valid() == true && n < scc.adj.Length
    requires HeadsIn(head, n) && 1 <= u <= n && 0 <= k < |t| && AllIn(t, 0, n + 1) && AllIn(t, 1, n + 1)
    requires done == es + Crossing(t, k, u, head) && PairsIn(done, n + 1)
    requires Reached(a0, m0, c0, done, scc.adj[..], scc.inGraph[..], scc.nrVertices) == true
    modifies scc, scc.adj, scc.inGraph
    ensures scc.Valid() == true
    ensures next == es + Crossing(t, k + 1, u, head) && PairsIn(next, n + 1)
    ensures Reached(a0, m0, c0, next, scc.adj[..], scc.inGraph[..], scc.nrVertices) == true
  {
    var v := t[k];
    next := CrossingNext(es, done, t, k, u, head, n);
    if head[u] != head[v] {
      ReachedSnoc(a0, m0, c0, done, (head[u], head[v]), scc.adj[..], scc.inGraph[..], scc.nrVertices);
      scc.Connect(head[u], head[v]);
    }
  }

  /**
   * The inner loop of the condensation pass: walk `u`'s targets `t` and
   * connect the heads of every arc that crosses components.  `done` is
   * `es` followed by the pairs of `t`.
   */
  method CondenseTargets(scc: ListGraph, head: seq<int>, t: seq<int>, u: int, ghost n: int,
                         ghost a0: AdjLists, ghost m0: seq<bool>, ghost c0: int, ghost es: seq<(int, int)>)
      returns (ghost done: seq<(int, int)>)
    requires scc.Valid() == true && n < scc.adj.Length
    requires HeadsIn(head, n) && 1 <= u <= n && AllIn(t, 0, n + 1) && AllIn(t, 1, n + 1)
    requires PairsIn(es, n + 1)
    requires Reached(a0, m0, c0, es, scc.adj[..], scc.inGraph[..], scc.nrVertices) == true
    modifies scc, scc.adj, scc.inGraph
    ensures scc.Valid() == true
    ensures done == es + Crossing(t, |t|, u, head) && PairsIn(done, n + 1)
    ensures Reached(a0, m0, c0, done, scc.adj[..], scc.inGraph[..], scc.nrVertices) == true
  {
    done := es;
    assert es + Crossing(t, 0, u, head) == es;
    var k := 0;
    while k < |t|
      invariant 0 <= k <= |t| && scc.Valid() == true && n < scc.adj.Length
      invariant done == es + Crossing(t, k, u, head) && PairsIn(done, n + 1)
      invariant Reached(a0, m0, c0, done, scc.adj[..], scc.inGraph[..], scc.nrVertices) == true
    {
      done := CondenseNext(scc, head, t, k, u, n, a0, m0, c0, es, done);
      k := k + 1;
    }
  }

  /**
   * The condensation pass of `SCC_find`: for every `u` of `1..n`, in order,
   * connect the heads of the arcs of `adj[u]` that cross components.
   * `pairs` are the pairs met, in order, and `scc` ends as connecting them
   * one by one leaves it.
   */
  method CondenseLists(scc: ListGraph, adj: seq<seq<int>>, head: seq<int>, n: nat) returns (ghost pairs: seq<(int, int)>)
    requires Wellformed(adj, n) && HeadsIn(head, n)
    requires scc.Valid() == true && n < scc.adj.Length
    modifies scc, scc.adj, scc.inGraph
    ensures scc.Valid() == true
    ensures pairs == Crossings(adj, head, n) && PairsIn(pairs, n + 1)
    ensures Reached(old(scc.adj[..]), old(scc.inGraph[..]), old(scc.nrVertices), pairs,
                    scc.adj[..], scc.inGraph[..], scc.nrVertices)
  {
    ghost var a0, m0, c0 := scc.adj[..], scc.inGraph[..], scc.nrVertices;
    ReachedNone(a0, m0, c0);
    pairs := [];
    var u := 1;
    while u <= n
      invariant Condensing(scc, adj, head, n, u, a0, m0, c0, pairs) == true
    {
      TargetsIn(adj, n, u);
      pairs := CondenseTargets(scc, head, adj[u], u, n, a0, m0, c0, pairs);
      u := u + 1;
    }
  }

  /** The pass of `CondenseLists` before vertex `u`: the pairs of `1..u-1` are connected. */
  ghost predicate Condensing(scc: ListGraph, adj: seq<seq<int>>, head: seq<int>, n: nat, u: int,
                             a0: AdjLists, m0: seq<bool>, c0: int, pairs: seq<(int, int)>)
    reads scc, scc.adj, scc.inGraph
  {
    && Wellformed(adj, n) && HeadsIn(head, n) && 1 <= u <= n + 1
    && scc.Valid() == true && n < scc.adj.Length
    && pairs == Crossings(adj, head, u - 1) && PairsIn(pairs, n + 1)
    && Reached(a0, m0, c0, pairs, scc.adj[..], scc.inGraph[..], scc.nrVertices) == true
  }

  /**
   * The search in `SCC_find` as written stays within its arrays: they have
   * `nr_vertices + 1` slots, so every target of the lists `1..n` it walks
   * (and of list 0, which no input id reaches) must be an id in `1..n`.
   */
  ghost predicate SearchFits(adj: AdjLists, n: int)
  {
    0 <= n < |adj| && Wellformed(adj[..n + 1], n)
  }

  /** Whether the search of `SCC_find` as written over the lists `adj` and the count `n` stays within its arrays. */
  method Fits(adj: AdjLists, n: int) returns (b: bool)
    ensures b <==> SearchFits(adj, n)
  {
    if !(0 <= n < |adj|) {
      return false;
    }
    var u := 0;
    while u <= n
      invariant 0 <= u <= n + 1
      invariant forall x, k :: 0 <= x < u && 0 <= k < |adj[x]| ==> 1 <= adj[x][k] <= n
    {
      var k := 0;
      while k < |adj[u]|
        invariant 0 <= k <= |adj[u]|
        invariant forall x, j :: 0 <= x < u && 0 <= j < |adj[x]| ==> 1 <= adj[x][j] <= n
        invariant forall j :: 0 <= j < k ==> 1 <= adj[u][j] <= n
      {
        if !(1 <= adj[u][k] <= n) {
          assert adj[..n + 1][u][k] == adj[u][k];
          return false;
        }
        k := k + 1;
      }
      u := u + 1;
    }
    assert forall x :: 0 <= x <= n ==> adj[..n + 1][x] == adj[x];
    return true;
  }

  /**
   * `SCC_find(scc)` as written: Tarjan's search over `1..nr_vertices`,
   * where `nr_vertices` counts the ids met by `connect` rather than the
   * vertices, then the condensation pass, then `scc->nr_vertices =
   * max(scc->nr_vertices, 1)`, a count of the heads the pass connected.
   * When a list the search walks names an id past `nr_vertices`, the
   * search reads `disc` past its end; that run is the error outcome
   * `ok == false`, which leaves `scc` as it was.
   */
  method SccFindAsWritten(g: ListGraph, scc: ListGraph) returns (ok: bool, ghost head: seq<int>, ghost pairs: seq<(int, int)>)
    requires g.Valid() == true && scc.Valid() == true && g != scc && g.adj != scc.adj
    requires scc.adj.Length == g.adj.Length
    modifies scc, scc.adj, scc.inGraph
    ensures ok <==> SearchFits(old(g.adj[..]), old(g.nrVertices))
    ensures !ok ==> scc.adj[..] == old(scc.adj[..]) && scc.inGraph[..] == old(scc.inGraph[..]) && scc.nrVertices == old(scc.nrVertices)
    ensures ok ==> Partition(head, old(g.nrVertices)) && scc.Valid() == true
    ensures ok ==> StrongHeads(old(g.adj[..])[..old(g.nrVertices) + 1], head, old(g.nrVertices))
    ensures ok ==> pairs == Crossings(old(g.adj[..])[..old(g.nrVertices) + 1], head, old(g.nrVertices))
    ensures ok ==> PairsIn(pairs, scc.adj.Length) && scc.adj[..] == ConnectAll(old(scc.adj[..]), pairs, false)
    ensures ok ==> scc.inGraph[..] == MarkAll(old(scc.inGraph[..]), pairs)
    ensures ok ==> scc.nrVertices == Max(old(scc.nrVertices) + |Marked(scc.inGraph[..])| - |Marked(old(scc.inGraph[..]))|, 1)
  {
    ok := Fits(g.adj[..], g.nrVertices);
    if !ok {
      head, pairs := [], [];
      return;
    }
    var n := g.nrVertices;
    var adj := g.adj[..n + 1];
    var h, count := Components(adj, n);
    head := h;
    pairs := CondenseWritten(scc, adj, h, n);
    assert g.adj[..] == old(g.adj[..]) && n == old(g.nrVertices);
    assert adj == old(g.adj[..])[..old(g.nrVertices) + 1];
  }

  /**
   * Lines 213-227 as written: the crossing pairs of the search result are
   * connected in `scc`, and its vertex count, raised by the endpoints newly
   * marked, is at least 1.
   */
  method CondenseWritten(scc: ListGraph, adj: seq<seq<int>>, head: seq<int>, n: nat) returns (ghost pairs: seq<(int, int)>)
    requires Wellformed(adj, n) && HeadsIn(head, n)
    requires scc.Valid() == true && n < scc.adj.Length
    modifies scc, scc.adj, scc.inGraph
    ensures scc.Valid() == true
    ensures pairs == Crossings(adj, head, n) && PairsIn(pairs, scc.adj.Length)
    ensures scc.adj[..] == ConnectAll(old(scc.adj[..]), pairs, false) && scc.inGraph[..] == MarkAll(old(scc.inGraph[..]), pairs)
    ensures scc.nrVertices == Max(old(scc.nrVertices) + |Marked(scc.inGraph[..])| - |Marked(old(scc.inGraph[..]))|, 1)
  {
    pairs := CondenseLists(scc, adj, head, n);
    scc.nrVertices := Max(scc.nrVertices, 1);
  }

  /**
   * `SCC_find(scc)` corrected: the search runs over every vertex id
   * `1..num_v`, and `scc->nr_vertices` is the number of components, as in
   * the C variant.  An arc `(a, b)` is in `scc` after the call exactly when
   * it was before or it joins two components of `g`.
   */
  method SccFind(g: ListGraph, scc: ListGraph) returns (ghost head: seq<int>, ghost pairs: seq<(int, int)>)
    requires g.Valid() == true && scc.Valid() == true && g != scc && g.adj != scc.adj
    requires scc.adj.Length == g.adj.Length
    modifies scc, scc.adj, scc.inGraph
    ensures Partition(head, g.adj.Length - 1) && scc.Valid() == true
    ensures scc.nrVertices == |Roots(head, g.adj.Length - 1)|
    ensures pairs == Crossings(old(g.adj[..]), head, g.adj.Length - 1)
    ensures PairsIn(pairs, scc.adj.Length) && scc.adj[..] == ConnectAll(old(scc.adj[..]), pairs, false)
    ensures scc.inGraph[..] == MarkAll(old(scc.inGraph[..]), pairs)
    ensures forall a, b :: (a, b) in Arcs(scc.adj[..]) <==>
      (a, b) in Arcs(old(scc.adj[..])) || Crosses(old(g.adj[..]), head, g.adj.Length - 1, a, b)
    ensures StrongHeads(old(g.adj[..]), head, g.adj.Length - 1) && CondensedAcyclic(old(g.adj[..]), head, g.adj.Length - 1)
  {
    var n := g.adj.Length - 1;
    var adj := g.adj[..];
    var h, count := Components(adj, n);
    head := h;
    ghost var a0 := scc.adj[..];
    pairs := CondenseLists(scc, adj, h, n);
    scc.nrVertices := count;
    CondensedArcs(a0, adj, head, n);
    CondensationAcyclic(adj, head, n);
  }

  /**
   * Input `3 1` with the arc `1 3`: after `Graph g(3)` and `init`,
   * `nr_vertices` is 2 (the ids 1 and 3 are marked), yet vertex 1 lists
   * vertex 3.  The search from vertex 1 recurs into vertex 3 and reads
   * `disc[3]`, past the 3 slots the arrays of `SCC_find` get, so
   * `SccFindAsWritten` takes its error outcome on this graph.
   */
  lemma EndpointCountTooSmall(a: AdjLists, m: seq<bool>, c: int)
    requires Reached(NoArcs(4), seq(4, _ => false), 0, [(1, 3)], a, m, c)
    ensures c == 2 && a[1] == [3] && !SearchFits(a, c)
  {
    var m0: seq<bool> := seq(4, _ => false);
    assert Marked(m0) == {};
    assert Marked(m) == {1, 3} by {
      assert forall x :: x in Ends([(1, 3)]) <==> x == 1 || x == 3;
    }
    assert a == ConnectSpec(NoArcs(4), 1, 3, false);
    assert a[1] == [3];
  }

  /**
   * Input `4 4` with the arcs `1 2`, `2 1`, `3 4`, `4 3`: every id is an
   * endpoint, so the search as written covers the graph.  With the
   * components `{1, 2}` and `{3, 4}` headed by 1 and 3, no arc crosses
   * components: the pass connects nothing, and the
   * count `SCC_find` as written stores is 1 rather than 2.
   */
  lemma TwoCyclesCountedOnce(adj: AdjLists, head: seq<int>)
    requires adj == [[], [2], [1], [4], [3]] && head == [0, 1, 1, 3, 3]
    ensures Wellformed(adj, 4) && Partition(head, 4) && Roots(head, 4) == {1, 3}
    ensures Crossings(adj, head, 4) == [] && Max(|Ends(Crossings(adj, head, 4))|, 1) == 1
  {
    assert Wellformed(adj, 4);
    assert Crossing(adj[1], 1, 1, head) == [] && Crossing(adj[2], 1, 2, head) == [];
    assert Crossing(adj[3], 1, 3, head) == [] && Crossing(adj[4], 1, 4, head) == [];
    assert Crossings(adj, head, 4) == [];
    assert Ends([]) == {};
  }

  /**
   * On a fresh `scc` (no marks, count 0), the count `SCC_find` as written
   * stores is the number of heads met by the pass, at least 1; those heads
   * are components, so it never exceeds the number of components.
   */
  lemma AsWrittenCountBelow(adj: AdjLists, head: seq<int>, n: int, m0: seq<bool>, m: seq<bool>)
    requires Wellformed(adj, n) && Partition(head, n) && 1 <= n
    requires forall x :: 0 <= x < |m0| ==> !m0[x]
    requires PairsIn(Crossings(adj, head, n), |m0|) && m == MarkAll(m0, Crossings(adj, head, n))
    ensures Marked(m) == Ends(Crossings(adj, head, n)) <= Roots(head, n)
    ensures 0 + |Marked(m)| - |Marked(m0)| == |Ends(Crossings(adj, head, n))|
    ensures Max(|Marked(m)|, 1) <= |Roots(head, n)|
  {
    var pairs := Crossings(adj, head, n);
    assert Marked(m0) == {};
    forall x | x in Ends(pairs) ensures x in Roots(head, n) && 0 <= x < |m0| {
      var i :| 0 <= i < |pairs| && (pairs[i].0 == x || pairs[i].1 == x);
      CrossingsMember(adj, head, n, pairs[i].0, pairs[i].1);
      CrossesJoinsHeads(adj, head, n, pairs[i].0, pairs[i].1);
    }
    assert 1 in Roots(head, n);
    SubsetSize(Ends(pairs), Roots(head, n));
  }

  lemma SubsetSize(a: set<int>, b: set<int>)
    requires a <= b
    ensures |a| <= |b|
  {
    assert b == a + (b - a);
  }
}
