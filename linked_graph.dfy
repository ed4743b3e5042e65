/**
 * The de-duplicating adjacency store of proj/2018-2019/p2/src/proj.c
 * (`graph_connect`, `graph_new`, `graph_init`, `graph_reset`).  The same code
 * is `Graph_Connect`/`Graph_New`/`Graph_Init`/`Graph_Reset` in
 * proj/2020-2021/p1/src/proj.c and, without the `undirected` flag,
 * `graph_connect`/`graph_new`/`graph_init` in proj/2017-2018/p1/src/proj.c.
 *
 * A vertex's targets are read off its chain of edges (see module Chains):
 * `vertex[e]` is the target of edge `e`.  A connection whose target is already
 * on the chain is dropped, so no vertex ever lists a target twice.
 */
module LinkedGraph {
  import opened Seqs
  import opened Chains

  /** Adjacency lists: for each vertex, its targets in insertion order. */
  type AdjLists = seq<seq<int>>

  /** The adjacency lists a store holds: the targets along each chain. */
  function Targets(chains: seq<seq<int>>, vs: seq<int>): (r: AdjLists)
    requires ChainsIn(chains, |vs|)
    ensures |r| == |chains| && forall u :: 0 <= u < |chains| ==> r[u] == Project(chains[u], vs)
  {
    seq(|chains|, u requires 0 <= u < |chains| => Project(chains[u], vs))
  }

  /**
   * The store invariant on the arrays' contents: `first`/`next` encode the
   * chains, the target slots past `n` are zero, and no chain reaches the same
   * target twice.
   */
  ghost predicate Store(f: seq<int>, x: seq<int>, vs: seq<int>, chains: seq<seq<int>>, owner: seq<int>, n: int)
  {
    && Linked(f, x, chains, owner, n)
    && |vs| == |x|
    && ChainsIn(chains, |vs|)
    && (forall e :: n < e < |vs| ==> vs[e] == 0)
    && NoParallel(Targets(chains, vs))
  }

  /** Facts about the `k`-th edge of `u`'s chain, as the search in `graph_connect` reads them. */
  lemma StoreAt(f: seq<int>, x: seq<int>, vs: seq<int>, chains: seq<seq<int>>, owner: seq<int>, n: int, u: int, k: int)
    requires Store(f, x, vs, chains, owner, n) && 0 <= u < |chains| && 0 <= k < |chains[u]|
    ensures 1 <= chains[u][k] <= n && chains[u][k] < |x|
    ensures x[chains[u][k]] == Succ(chains[u], k)
    ensures vs[chains[u][k]] == Targets(chains, vs)[u][k]
    ensures x[chains[u][k]] == 0 <==> k == |chains[u]| - 1
    ensures k == 0 ==> f[u] == chains[u][0]
  {
    if k + 1 < |chains[u]| {
      assert 1 <= chains[u][k + 1];
    }
  }

  /** What the search along `u`'s chain reads. */
  lemma StoreChain(f: seq<int>, x: seq<int>, vs: seq<int>, chains: seq<seq<int>>, owner: seq<int>, n: int, u: int)
    requires Store(f, x, vs, chains, owner, n) && 0 <= u < |chains| && chains[u] != []
    ensures f[u] == chains[u][0]
    ensures forall k :: 0 <= k < |chains[u]| ==>
      && 1 <= chains[u][k] <= n && chains[u][k] < |x|
      && x[chains[u][k]] == Succ(chains[u], k)
      && vs[chains[u][k]] == Targets(chains, vs)[u][k]
  {
    forall k | 0 <= k < |chains[u]| ensures 1 <= chains[u][k] <= n && chains[u][k] < |x| {
    }
  }

  /** The chain `ch` read through `next` and `vertex`: its edges are nonzero and carry the targets `ts`. */
  ghost predicate ChainAt(x: seq<int>, vs: seq<int>, ch: seq<int>, ts: seq<int>)
  {
    && |ts| == |ch|
    && forall k :: 0 <= k < |ch| ==>
         0 < ch[k] < |x| && ch[k] < |vs| && x[ch[k]] == Succ(ch, k) && vs[ch[k]] == ts[k]
  }

  /** The search of `graph_connect` reads `u`'s chain unchanged after the new slot `n + 1` is written. */
  lemma StoreSearch(f: seq<int>, x: seq<int>, vs: seq<int>, chains: seq<seq<int>>, owner: seq<int>, n: int, u: int, v: int)
    requires Store(f, x, vs, chains, owner, n) && 0 <= u < |chains| && chains[u] != [] && 0 <= n + 1 < |vs|
    ensures f[u] == chains[u][0]
    ensures ChainAt(x, vs[n + 1 := v], chains[u], Targets(chains, vs)[u])
  {
    StoreChain(f, x, vs, chains, owner, n, u);
  }

  /**
   * The search loop of `graph_connect` along a chain starting at `start`: it
   * stops at the first edge whose target is `v` or at the chain's last edge,
   * so it finds `v` exactly when `v` is a target, and otherwise ends on the
   * last edge, where the new one is linked.
   */
  method FindTarget(next: array<int>, vertex: array<int>, start: int, v: int, ghost ch: seq<int>, ghost ts: seq<int>)
      returns (last: int, found: bool)
    requires ch != [] && start == ch[0] && ChainAt(next[..], vertex[..], ch, ts)
    ensures found <==> v in ts
    ensures !found ==> last == ch[|ch| - 1]
  {
    last := start;
    ghost var k := 0;
    while next[last] != 0 && vertex[last] != v
      invariant 0 <= k < |ch| && last == ch[k]
      invariant v !in ts[..k]
      decreases |ch| - k
    {
      assert vertex[..][ch[k]] == ts[k] && next[..][ch[k]] == Succ(ch, k);
      assert ts[..k + 1] == ts[..k] + [ts[k]];
      last := next[last];
      k := k + 1;
    }
    assert vertex[..][ch[k]] == ts[k] && next[..][ch[k]] == Succ(ch, k);
    found := vertex[last] == v;
    if !found {
      assert ts == ts[..k] + [ts[k]];
    }
  }
  /**
   * The chain walk `for (adj = first[u]; adj != 0; adj = next[adj])` that
   * collects the targets `vertex[adj]` in chain order.
   */
  method WalkChain(next: array<int>, vertex: array<int>, start: int, ghost ch: seq<int>, ghost ts: seq<int>)
      returns (r: seq<int>)
    requires start == Head(ch) && ChainAt(next[..], vertex[..], ch, ts)
    ensures r == ts
  {
    r := [];
    var adj := start;
    while adj != 0
      invariant |r| <= |ch| && r == ts[..|r|]
      invariant adj == if |r| < |ch| then ch[|r|] else 0
      decreases |ch| - |r|
    {
      r := r + [vertex[adj]];
      adj := next[adj];
    }
  }


  /** What a walk along `u`'s chain reads, the chain possibly empty. */
  lemma StoreRead(f: seq<int>, x: seq<int>, vs: seq<int>, chains: seq<seq<int>>, owner: seq<int>, n: int, u: int)
    requires Store(f, x, vs, chains, owner, n) && 0 <= u < |chains|
    ensures f[u] == Head(chains[u])
    ensures ChainAt(x, vs, chains[u], Targets(chains, vs)[u])
  {
    if chains[u] != [] {
      StoreChain(f, x, vs, chains, owner, n, u);
    }
  }

  /**
   * Overwriting the targets along `u`'s chain with `t`, a duplicate-free list
   * of the same length, keeps the store and gives `u` the targets `t`.
   */
  lemma StoreRelabel(f: seq<int>, x: seq<int>, vs: seq<int>, chains: seq<seq<int>>, owner: seq<int>, n: int, u: int, t: seq<int>)
    requires Store(f, x, vs, chains, owner, n) && 0 <= u < |chains|
    requires |t| == |chains[u]| && Distinct(t)
    ensures Store(f, x, Relabel(vs, chains[u], t, |t|), chains, owner, n)
    ensures Targets(chains, Relabel(vs, chains[u], t, |t|)) == Targets(chains, vs)[u := t]
  {
    var ch := chains[u];
    var w := Relabel(vs, ch, t, |t|);
    RelabelAt(vs, ch, t, |t|);
    forall e | n < e < |w| ensures w[e] == 0 {
      forall j | 0 <= j < |ch| ensures ch[j] != e {
        assert ch[j] <= n;
      }
    }
    forall a | 0 <= a < |chains| && a != u ensures Project(chains[a], w) == Project(chains[a], vs) {
      forall k | 0 <= k < |chains[a]| ensures w[chains[a][k]] == vs[chains[a][k]] {
        forall j | 0 <= j < |ch| ensures ch[j] != chains[a][k] {
          assert owner[ch[j]] == u && owner[chains[a][k]] == a;
        }
      }
    }
    assert Project(ch, w) == t;
    assert Targets(chains, w) == Targets(chains, vs)[u := t];
  }

  /** A vertex has no edge exactly when its `first` entry is the sentinel. */
  lemma StoreHead(f: seq<int>, x: seq<int>, vs: seq<int>, chains: seq<seq<int>>, owner: seq<int>, n: int, u: int)
    requires Store(f, x, vs, chains, owner, n) && 0 <= u < |chains|
    ensures f[u] == 0 <==> chains[u] == []
  {
    if chains[u] != [] {
      StoreAt(f, x, vs, chains, owner, n, u, 0);
    }
  }

  /** The targets after edge `n + 1`, with target `v`, joins `u`'s chain. */
  lemma TargetsAppend(chains: seq<seq<int>>, vs: seq<int>, n: int, u: int, v: int)
    requires ChainsIn(chains, n + 1) && ChainsIn(chains, |vs|) && 0 <= u < |chains| && 0 <= n + 1 < |vs|
    ensures ChainsIn(chains[u := chains[u] + [n + 1]], |vs|)
    ensures Targets(chains[u := chains[u] + [n + 1]], vs[n + 1 := v]) ==
            Targets(chains, vs)[u := Targets(chains, vs)[u] + [v]]
  {
    var chains', vs' := chains[u := chains[u] + [n + 1]], vs[n + 1 := v];
    var t, t' := Targets(chains, vs), Targets(chains', vs');
    forall w | 0 <= w < |chains| ensures t'[w] == t[u := t[u] + [v]][w] {
      if w == u {
        ProjectAppend(chains[u], vs, n + 1, v);
      } else {
        ProjectOutside(chains[w], vs, n + 1, v);
      }
    }
  }

  /** One accepted connection `u -> v`, stored as edge `n + 1` at the tail of `u`'s chain. */
  lemma StoreAppend(f: seq<int>, x: seq<int>, vs: seq<int>, chains: seq<seq<int>>, owner: seq<int>, n: int, u: int, v: int)
    requires Store(f, x, vs, chains, owner, n) && 0 <= u < |chains| && n + 1 < |x|
    requires v !in Targets(chains, vs)[u]
    ensures Store(LinkFirst(f, chains[u], u, n + 1), LinkNext(x, chains[u], n + 1), vs[n + 1 := v],
                  chains[u := chains[u] + [n + 1]], owner[n + 1 := u], n + 1)
    ensures Targets(chains[u := chains[u] + [n + 1]], vs[n + 1 := v]) == Add(Targets(chains, vs), u, v)
  {
    AppendLinked(f, x, chains, owner, n, u);
    LinkedChainsIn(f, x, chains, owner, n);
    TargetsAppend(chains, vs, n, u, v);
    NoParallelAppend(Targets(chains, vs), u, v);
  }

  /** Chained edges are real edges, 1..n. */
  lemma LinkedChainsIn(f: seq<int>, x: seq<int>, chains: seq<seq<int>>, owner: seq<int>, n: int)
    requires Linked(f, x, chains, owner, n)
    ensures ChainsIn(chains, n + 1)
  {
    forall w, k | 0 <= w < |chains| && 0 <= k < |chains[w]| ensures 0 <= chains[w][k] < n + 1 {
      assert 1 <= chains[w][k] <= n;
    }
  }

  /** Appending a target the list lacks keeps every list duplicate-free. */
  lemma NoParallelAppend(t: AdjLists, u: int, v: int)
    requires NoParallel(t) && 0 <= u < |t| && v !in t[u]
    ensures NoParallel(t[u := t[u] + [v]])
  {
    assert Distinct(t[u] + [v]);
  }

  /** The slots past the `n` edges in use are zero in both `next` and the targets. */
  lemma StoreTail(f: seq<int>, x: seq<int>, vs: seq<int>, chains: seq<seq<int>>, owner: seq<int>, n: int)
    requires Store(f, x, vs, chains, owner, n)
    ensures 0 <= n < |x| == |vs| && forall e :: n < e < |x| ==> x[e] == 0 && vs[e] == 0
  {
  }

  /** The zeroed arrays hold the empty store. */
  lemma StoreEmpty(f: seq<int>, x: seq<int>, vs: seq<int>, owner: seq<int>)
    requires |x| >= 1 && |owner| == |x| && |vs| == |x|
    requires forall u :: 0 <= u < |f| ==> f[u] == 0
    requires forall e :: 0 <= e < |x| ==> x[e] == 0 && vs[e] == 0
    ensures Store(f, x, vs, EmptyChains(|f|), owner, 0)
    ensures Targets(EmptyChains(|f|), vs) == NoArcs(|f|)
  {
    EmptyLinked(f, x, owner);
    assert Targets(EmptyChains(|f|), vs) == NoArcs(|f|);
  }

  /** A directed connection `u -> v` that is dropped when `v` is already a target of `u`. */
  function Add(adj: AdjLists, u: int, v: int): (r: AdjLists)
    requires 0 <= u < |adj|
    ensures |r| == |adj| && forall w :: 0 <= w < |adj| && w != u ==> r[w] == adj[w]
    ensures forall x :: x in r[u] <==> x in adj[u] || x == v
  {
    if v in adj[u] then adj else adj[u := adj[u] + [v]]
  }

  /**
   * What `graph_connect(g, u, v, undirected)` does to the adjacency lists:
   * add `u -> v`, and, when undirected and `u -> v` was new, `v -> u`.
   */
  function ConnectSpec(adj: AdjLists, u: int, v: int, undirected: bool): (r: AdjLists)
    requires 0 <= u < |adj| && (undirected ==> 0 <= v < |adj|)
    ensures |r| == |adj|
  {
    if undirected && v !in adj[u] then Add(Add(adj, u, v), v, u) else Add(adj, u, v)
  }

  /** Every input pair names two of the `count` vertex slots. */
  ghost predicate PairsIn(edges: seq<(int, int)>, count: int)
  {
    forall i :: 0 <= i < |edges| ==> 0 <= edges[i].0 < count && 0 <= edges[i].1 < count
  }

  /** What `graph_init` does: connect every input pair in order. */
  function ConnectAll(adj: AdjLists, edges: seq<(int, int)>, undirected: bool): (r: AdjLists)
    requires PairsIn(edges, |adj|)
    ensures |r| == |adj|
    decreases |edges|
  {
    if edges == [] then adj
    else
      ConnectAll(ConnectSpec(adj, edges[0].0, edges[0].1, undirected), edges[1..], undirected)
  }

  /** One step of `ConnectAll` from position `i`. */
  lemma ConnectAllStep(adj: AdjLists, edges: seq<(int, int)>, i: int, undirected: bool)
    requires 0 <= i < |edges| && PairsIn(edges, |adj|)
    ensures PairsIn(edges[i + 1..], |adj|) && PairsIn(edges[i..], |adj|)
    ensures ConnectAll(adj, edges[i..], undirected) ==
      ConnectAll(ConnectSpec(adj, edges[i].0, edges[i].1, undirected), edges[i + 1..], undirected)
  {
    assert edges[i..][1..] == edges[i + 1..];
  }

  /** Connecting one more pair after a sequence of connections. */
  lemma {:induction false} ConnectAllSnoc(adj: AdjLists, edges: seq<(int, int)>, e: (int, int), undirected: bool)
    requires PairsIn(edges + [e], |adj|)
    ensures PairsIn(edges, |adj|) && 0 <= e.0 < |adj| && 0 <= e.1 < |adj|
    ensures ConnectAll(adj, edges + [e], undirected) ==
      ConnectSpec(ConnectAll(adj, edges, undirected), e.0, e.1, undirected)
    decreases |edges|
  {
    assert (edges + [e])[|edges|] == e;
    assert forall i :: 0 <= i < |edges| ==> (edges + [e])[i] == edges[i];
    if edges != [] {
      var a1 := ConnectSpec(adj, edges[0].0, edges[0].1, undirected);
      assert |a1| == |adj|;
      assert (edges + [e])[1..] == edges[1..] + [e];
      ConnectAllSnoc(a1, edges[1..], e, undirected);
    }
  }

  /** Directed connections add exactly the connected pairs to the arc set. */
  lemma {:induction false} ConnectAllArcs(adj: AdjLists, edges: seq<(int, int)>)
    requires PairsIn(edges, |adj|)
    ensures Arcs(ConnectAll(adj, edges, false)) == Arcs(adj) + (set e | e in edges)
    decreases |edges|
  {
    if edges != [] {
      var a1 := ConnectSpec(adj, edges[0].0, edges[0].1, false);
      ConnectArcs(adj, edges[0].0, edges[0].1, false);
      ConnectAllArcs(a1, edges[1..]);
      assert (set e | e in edges) == {edges[0]} + (set e | e in edges[1..]) by {
        forall e | e in edges ensures e == edges[0] || e in edges[1..] {
          var i :| 0 <= i < |edges| && edges[i] == e;
          if i > 0 { assert edges[1..][i - 1] == e; }
        }
      }
    }
  }

  /** No vertex lists a target twice. */
  ghost predicate NoParallel(adj: AdjLists)
  {
    forall u :: 0 <= u < |adj| ==> Distinct(adj[u])
  }

  /** The stored arcs as pairs. */
  ghost function Arcs(adj: AdjLists): set<(int, int)>
  {
    set u, x | 0 <= u < |adj| && x in adj[u] :: (u, x)
  }

  /** Every arc has its reverse. */
  ghost predicate Symmetric(adj: AdjLists)
  {
    forall u, v {:trigger v in adj[u]} :: 0 <= u < |adj| && v in adj[u] ==> 0 <= v < |adj| && u in adj[v]
  }

  lemma AddKeepsNoParallel(adj: AdjLists, u: int, v: int)
    requires NoParallel(adj) && 0 <= u < |adj|
    ensures NoParallel(Add(adj, u, v))
  {
  }

  /** A connection adds exactly its arc to the arc set, whether or not it is dropped. */
  lemma {:induction false} AddArcs(adj: AdjLists, u: int, v: int)
    requires 0 <= u < |adj|
    ensures Arcs(Add(adj, u, v)) == Arcs(adj) + {(u, v)}
  {
    var r := Add(adj, u, v);
    forall p | p in Arcs(r) ensures p in Arcs(adj) + {(u, v)} {
      var w, x :| 0 <= w < |r| && x in r[w] && p == (w, x);
      if w != u || x != v {
        assert x in adj[w];
      }
    }
    forall p | p in Arcs(adj) + {(u, v)} ensures p in Arcs(r) {
      if p != (u, v) {
        var w, x :| 0 <= w < |adj| && x in adj[w] && p == (w, x);
        assert x in r[w];
      } else {
        assert v in r[u];
      }
    }
  }

  /**
   * The arcs after `graph_connect`: `u -> v`, plus `v -> u` when undirected
   * and `u -> v` was not yet stored.
   */
  lemma ConnectArcs(adj: AdjLists, u: int, v: int, undirected: bool)
    requires 0 <= u < |adj| && (undirected ==> 0 <= v < |adj|)
    ensures Arcs(ConnectSpec(adj, u, v, undirected)) ==
      Arcs(adj) + {(u, v)} + (if undirected && (u, v) !in Arcs(adj) then {(v, u)} else {})
  {
    AddArcs(adj, u, v);
    if undirected && v !in adj[u] {
      AddArcs(Add(adj, u, v), v, u);
      assert (u, v) !in Arcs(adj);
    } else if undirected {
      assert (u, v) in Arcs(adj);
    }
  }

  /** Who lists whom after `Add`: the old lists plus `u -> v`. */
  lemma AddMember(adj: AdjLists, u: int, v: int, a: int, b: int)
    requires 0 <= u < |adj| && 0 <= a < |adj|
    ensures b in Add(adj, u, v)[a] <==> b in adj[a] || (a == u && b == v)
  {
  }

  lemma SymmetricAt(adj: AdjLists, a: int, b: int)
    requires Symmetric(adj) && 0 <= a < |adj| && b in adj[a]
    ensures 0 <= b < |adj| && a in adj[b]
  {
  }

  /** Undirected connections keep an undirected graph undirected. */
  lemma ConnectKeepsSymmetric(adj: AdjLists, u: int, v: int)
    requires Symmetric(adj) && 0 <= u < |adj| && 0 <= v < |adj|
    ensures Symmetric(ConnectSpec(adj, u, v, true))
  {
    var r := ConnectSpec(adj, u, v, true);
    var r1 := Add(adj, u, v);
    forall a, b | 0 <= a < |r| && b in r[a] ensures 0 <= b < |r| && a in r[b] {
      if v in adj[u] {
        assert r == adj;
        assert u in adj[v];
      } else {
        assert r == Add(r1, v, u);
        AddMember(r1, v, u, a, b);
        AddMember(adj, u, v, a, b);
        if b in adj[a] {
          SymmetricAt(adj, a, b);
          AddMember(adj, u, v, b, a);
          AddMember(r1, v, u, b, a);
        } else if a == u && b == v {
          AddMember(r1, v, u, v, u);
        } else {
          assert a == v && b == u;
          AddMember(adj, u, v, u, v);
          AddMember(r1, v, u, u, v);
        }
      }
    }
  }

  /** Connecting twice is connecting once. */
  lemma ConnectIdempotent(adj: AdjLists, u: int, v: int, undirected: bool)
    requires 0 <= u < |adj| && (undirected ==> 0 <= v < |adj|)
    ensures ConnectSpec(ConnectSpec(adj, u, v, undirected), u, v, undirected) == ConnectSpec(adj, u, v, undirected)
  {
    var r := ConnectSpec(adj, u, v, undirected);
    assert v in r[u];
    assert Add(r, u, v) == r;
  }

  /** The adjacency lists of the empty store. */
  function NoArcs(count: nat): (r: AdjLists)
    ensures |r| == count && Arcs(r) == {} && NoParallel(r)
  {
    var r := EmptyChains(count);
    assert forall p :: p !in Arcs(r);
    r
  }

  /** Every target list sorted ascending: what `graph_sort` produces. */
  function SortEach(adj: AdjLists): (r: AdjLists)
    ensures |r| == |adj| && forall u :: 0 <= u < |adj| ==> r[u] == SortAsc(adj[u])
  {
    seq(|adj|, u requires 0 <= u < |adj| => SortAsc(adj[u]))
  }

  /** The lists of vertices 1..u-1 sorted, the others as they were. */
  ghost function SortedBelow(adj: AdjLists, u: int): (r: AdjLists)
  {
    seq(|adj|, w requires 0 <= w < |adj| => if 1 <= w < u then SortAsc(adj[w]) else adj[w])
  }

  lemma SortedBelowStep(adj: AdjLists, u: int)
    requires 1 <= u < |adj|
    ensures SortedBelow(adj, u)[u := SortAsc(adj[u])] == SortedBelow(adj, u + 1)
  {
  }

  /** Once the lists past `u` and of vertex 0 are empty, sorting below `u` sorts them all. */
  lemma SortedBelowDone(adj: AdjLists, u: int)
    requires 1 <= u && adj != [] && adj[0] == []
    requires forall w :: u <= w < |adj| ==> adj[w] == []
    ensures SortedBelow(adj, u) == SortEach(adj)
  {
    assert SortAsc([]) == [];
  }

  /** The edge slots `count` connections may take: two each when bidirectional. */
  function Room(count: int, bidir: bool): int
  {
    if bidir then 2 * count else count
  }

  class Graph {
    var nrVertices: nat
    var nrEdges: nat
    const isBidir: bool
    const first: array<int>
    const vertex: array<int>
    const next: array<int>
    ghost var chains: seq<seq<int>>
    ghost var owner: seq<int>

    ghost predicate Valid()
      reads this, first, vertex, next
    {
      && first != vertex && first != next && vertex != next
      && Store(first[..], next[..], vertex[..], chains, owner, nrEdges)
    }

    /** Record the accepted edge `e`: the edge count and the ghost chains. */
    method Commit(e: nat, ghost c: seq<seq<int>>, ghost o: seq<int>)
      modifies this
      ensures nrEdges == e && chains == c && owner == o && nrVertices == old(nrVertices)
      ensures first[..] == old(first[..]) && next[..] == old(next[..]) && vertex[..] == old(vertex[..])
    {
      nrEdges, chains, owner := e, c, o;
    }

    /** The invariant, read off sequences equal to the arrays' contents. */
    lemma ValidFrom(f: seq<int>, x: seq<int>, vs: seq<int>, c: seq<seq<int>>, o: seq<int>, m: int)
      requires first[..] == f && next[..] == x && vertex[..] == vs
      requires chains == c && owner == o && nrEdges == m
      requires first != vertex && first != next && vertex != next
      requires Store(f, x, vs, c, o, m)
      ensures Valid() && Adj() == Targets(chains, vs)
    {
    }

    /** The invariant once edge `n + 1`, with target `v`, is linked at the tail of `u`'s chain. */
    lemma ValidAppend(u: int, v: int, f0: seq<int>, x0: seq<int>, v0: seq<int>, c0: seq<seq<int>>, o0: seq<int>, n: int)
      requires Store(f0, x0, v0, c0, o0, n) && 0 <= u < |c0| && n + 1 < |x0|
      requires v !in Targets(c0, v0)[u]
      requires first != vertex && first != next && vertex != next
      requires first[..] == LinkFirst(f0, c0[u], u, n + 1) && next[..] == LinkNext(x0, c0[u], n + 1)
      requires vertex[..] == v0[n + 1 := v]
      requires chains == c0[u := c0[u] + [n + 1]] && owner == o0[n + 1 := u] && nrEdges == n + 1
      ensures Valid() && Adj() == Add(Targets(c0, v0), u, v)
    {
      StoreAppend(f0, x0, v0, c0, o0, n, u, v);
    }

    /** The adjacency lists the store encodes. */
    ghost function Adj(): (r: AdjLists)
      reads this, first, vertex, next
      requires Valid()
      ensures |r| == first.Length && NoParallel(r) && TotalLength(r) == nrEdges
    {
      TotalLengthSameShape(Targets(chains, vertex[..]), chains);
      Targets(chains, vertex[..])
    }

    /**
     * `graph_new`: no edges, `num_v + 1` vertex slots, and room for `num_e`
     * edges (`2 * num_e` when bidirectional) besides the sentinel edge 0.
     */
    constructor New(numV: nat, numE: nat, isBidir: bool)
      ensures Valid() && Adj() == NoArcs(numV + 1) && nrEdges == 0
      ensures fresh(first) && fresh(vertex) && fresh(next)
      ensures vertex.Length == (if isBidir then 2 * numE else numE) + 1
      ensures this.isBidir == isBidir && nrVertices == numV && first.Length == numV + 1
    {
      var cap := if isBidir then 2 * numE else numE;
      nrVertices := numV;
      nrEdges := 0;
      this.isBidir := isBidir;
      first := new int[numV + 1](_ => 0);
      vertex := new int[cap + 1](_ => 0);
      next := new int[cap + 1](_ => 0);
      owner := seq(cap + 1, _ => 0);
      chains := EmptyChains(numV + 1);
      new;
      StoreEmpty(first[..], next[..], vertex[..], owner);
    }

    /**
     * `graph_connect`: link `u -> v` unless `v` is already a target of `u`,
     * and, when `undirected` and the arc was new, connect `v -> u` the same way.
     */
    method Connect(u: int, v: int, undirected: bool)
      requires Valid()
      requires 0 <= u < first.Length && (undirected ==> 0 <= v < first.Length)
      requires nrEdges + 1 < vertex.Length
      requires undirected && v !in Adj()[u] ==> nrEdges + 2 < vertex.Length
      modifies this, first, vertex, next
      ensures nrVertices == old(nrVertices)
      ensures Valid()
      ensures Adj() == ConnectSpec(old(Adj()), u, v, undirected)
      ensures nrEdges == old(nrEdges) + (if v in old(Adj())[u] then 0 else 1)
                + (if undirected && v !in old(Adj())[u] && u != v && u !in old(Adj())[v] then 1 else 0)
      decreases if undirected then 1 else 0
    {
      var added := LinkArc(u, v);
      if undirected && added {
        Connect(v, u, false);
      }
    }

    /**
     * The body of `graph_connect` for one arc.  The new edge is written to slot
     * `nrEdges + 1` before the chain of `u` is searched, so even a dropped
     * duplicate needs that slot; the edge count is raised only once the arc is
     * linked, which is what the source's increment and rollback amount to.
     */
    method LinkArc(u: int, v: int) returns (added: bool)
      requires Valid()
      requires 0 <= u < first.Length && nrEdges + 1 < vertex.Length
      modifies this, first, vertex, next
      ensures nrVertices == old(nrVertices)
      ensures Valid() == true
      ensures added == (v !in old(Adj())[u])
      ensures Adj() == Add(old(Adj()), u, v)
      ensures nrEdges == old(nrEdges) + (if added then 1 else 0)
    {
      ghost var n, adj0, c0, o0 := nrEdges, Adj(), chains, owner;
      ghost var f0, x0, v0 := first[..], next[..], vertex[..];
      ghost var tu := adj0[u];
      StoreHead(f0, x0, v0, c0, o0, n, u);
      var e := nrEdges + 1;
      Write(vertex, e, v, first, next);
      assert Staged(e, v, f0, x0, v0, c0, o0, n);
      var last, found := 0, false;
      if first[u] != 0 {
        StoreSearch(f0, x0, v0, c0, o0, n, u, v);
        last, found := FindTarget(next, vertex, first[u], v, c0[u], tu);
      }
      if found {
        Unlink(e, v, f0, x0, v0, c0, o0, n);
        added := false;
      } else {
        LinkTail(u, v, e, last, f0, x0, v0, c0, o0, n);
        added := true;
      }
    }

    /**
     * Slot `e = n + 1` holds the target `v` while the store of the ghost
     * sequences, `n` edges, is otherwise what the arrays hold.
     */
    ghost predicate Staged(e: int, v: int, f0: seq<int>, x0: seq<int>, v0: seq<int>, c0: seq<seq<int>>, o0: seq<int>, n: int)
      reads this, first, vertex, next
    {
      && first != vertex && first != next && vertex != next
      && chains == c0 && owner == o0 && n == nrEdges && e == n + 1
      && Store(f0, x0, v0, c0, o0, n) && e < |x0| && e < |v0|
      && first[..] == f0 && next[..] == x0 && vertex[..] == v0[e := v]
    }

    /** The rollback of `graph_connect` on a duplicate: the target slot `e` is zeroed again. */
    method Unlink(e: int, v: int,
                  ghost f0: seq<int>, ghost x0: seq<int>, ghost v0: seq<int>, ghost c0: seq<seq<int>>, ghost o0: seq<int>,
                  ghost n: int)
      requires Staged(e, v, f0, x0, v0, c0, o0, n) == true
      modifies vertex
      ensures Valid() == true && Adj() == Targets(c0, v0)
    {
      Write(vertex, e, 0, first, next);
      UpdateBack(v0, e, v);
      ValidFrom(f0, x0, v0, c0, o0, n);
    }

    /**
     * The linking step of `graph_connect`: edge `e` (its target already
     * written) becomes `first[u]` when `u` has no edge, else the successor
     * of `last`, the tail of `u`'s chain; then the count is raised.
     */
    method LinkTail(u: int, v: int, e: int, last: int,
                    ghost f0: seq<int>, ghost x0: seq<int>, ghost v0: seq<int>, ghost c0: seq<seq<int>>, ghost o0: seq<int>,
                    ghost n: int)
      requires Staged(e, v, f0, x0, v0, c0, o0, n) == true && 0 <= u < |c0|
      requires v !in Targets(c0, v0)[u]
      requires (first[u] == 0 <==> c0[u] == []) && (c0[u] != [] ==> last == c0[u][|c0[u]| - 1])
      modifies this, first, next
      ensures nrVertices == old(nrVertices)
      ensures Valid() == true && nrEdges == e
      ensures Adj() == Add(Targets(c0, v0), u, v)
    {
      if first[u] == 0 {
        Write(first, u, e, vertex, next);
      } else {
        Write(next, last, e, first, vertex);
      }
      assert first[..] == LinkFirst(f0, c0[u], u, e) && next[..] == LinkNext(x0, c0[u], e);
      Commit(e, c0[u := c0[u] + [e]], o0[e := u]);
      ValidAppend(u, v, f0, x0, v0, c0, o0, n);
    }

    /** The targets of `u`, read along its chain. */
    method Neighbours(u: int) returns (ts: seq<int>)
      requires Valid() && 0 <= u < first.Length
      ensures ts == Adj()[u]
    {
      StoreRead(first[..], next[..], vertex[..], chains, owner, nrEdges, u);
      ts := WalkChain(next, vertex, first[u], chains[u], Adj()[u]);
    }

    /**
     * The write-back half of `graph_sort` for `u`: the targets along `u`'s
     * chain are overwritten, in chain order, by `t`; `first` and `next` stay.
     */
    method Rewrite(u: int, t: seq<int>)
      requires Valid() && 0 <= u < first.Length
      requires |t| == |Adj()[u]| && Distinct(t)
      modifies vertex
      ensures Valid() && Adj() == old(Adj())[u := t]
      ensures first[..] == old(first[..]) && next[..] == old(next[..])
    {
      ghost var f0, x0, v0, c0, o0, n := first[..], next[..], vertex[..], chains, owner, nrEdges;
      ghost var ch := c0[u];
      StoreRead(f0, x0, v0, c0, o0, n, u);
      RelabelChain(next, vertex, first[u], ch, t, Adj()[u]);
      StoreRelabel(f0, x0, v0, c0, o0, n, u, t);
      ValidFrom(f0, x0, Relabel(v0, ch, t, |t|), c0, o0, n);
    }

    /**
     * `graph_sort`: from vertex 1 on, until every edge was seen, each target
     * list is read, sorted ascending (`qsort` with `cmp_vertex`) and written
     * back.  Vertex 0 is never visited, so it must have no edge.
     */
    method Sort()
      requires Valid() && first.Length > 0 && Adj()[0] == []
      modifies vertex
      ensures Valid() && Adj() == SortEach(old(Adj()))
    {
      ghost var adj0 := Adj();
      var idx := 0;
      var u := 1;
      TotalLengthPrefix(adj0, 0);
      assert adj0[..0] == [];
      while idx < nrEdges
        invariant Valid() && 1 <= u <= first.Length
        invariant idx == TotalLength(adj0[..u])
        invariant Adj() == SortedBelow(adj0, u)
        decreases first.Length - u
      {
        TotalLengthShort(adj0, u);
        var temp := Neighbours(u);
        temp := SortAsc(temp);
        PermutationKeeps(adj0[u], temp, 0, 0);
        Rewrite(u, temp);
        SortedBelowStep(adj0, u);
        TotalLengthPrefix(adj0, u);
        idx := idx + |temp|;
        u := u + 1;
      }
      forall w | u <= w < |adj0| ensures adj0[w] == [] {
        TotalLengthRest(adj0, u, w);
      }
      SortedBelowDone(adj0, u);
    }

    /** `graph_init`: connect the input pairs in order, both ways when bidirectional. */
    method Init(edges: seq<(int, int)>)
      requires Valid()
      requires PairsIn(edges, first.Length)
      requires nrEdges + Room(|edges|, isBidir) < vertex.Length
      modifies this, first, vertex, next
      ensures nrVertices == old(nrVertices)
      ensures Valid()
      ensures Adj() == ConnectAll(old(Adj()), edges, isBidir)
    {
      ghost var goal := ConnectAll(Adj(), edges, isBidir);
      assert edges[0..] == edges;
      var i := 0;
      while i < |edges|
        invariant Feeding(edges, i, goal) == true && nrVertices == old(nrVertices)
        decreases |edges| - i
      {
        Feed(edges, i, goal);
        i := i + 1;
      }
    }

    /** Before pair `i` of `graph_init`: connecting the pairs left reaches `goal`, and they fit. */
    ghost predicate Feeding(edges: seq<(int, int)>, i: int, goal: AdjLists)
      reads this, first, vertex, next
    {
      && 0 <= i <= |edges| && Valid()
      && nrEdges + Room(|edges| - i, isBidir) < vertex.Length
      && PairsIn(edges[i..], first.Length)
      && ConnectAll(Adj(), edges[i..], isBidir) == goal
    }

    /** One pass of the loop of `graph_init`: connect pair `i`. */
    method Feed(edges: seq<(int, int)>, i: int, ghost goal: AdjLists)
      requires Feeding(edges, i, goal) == true && i < |edges|
      modifies this, first, vertex, next
      ensures Feeding(edges, i + 1, goal) == true && nrVertices == old(nrVertices)
    {
      ConnectAllStep(Adj(), edges[i..], 0, isBidir);
      assert edges[i..][1..] == edges[i + 1..] && edges[i..][0] == edges[i];
      Connect(edges[i].0, edges[i].1, isBidir);
    }

    /** `graph_reset`: zero the arrays' used slots and forget every edge. */
    method Reset()
      requires Valid()
      modifies this, first, vertex, next
      ensures nrVertices == old(nrVertices)
      ensures Valid() && nrEdges == 0 && Adj() == NoArcs(first.Length)
    {
      StoreTail(first[..], next[..], vertex[..], chains, owner, nrEdges);
      Memset(first, first.Length);
      Memset(vertex, nrEdges + 1);
      Memset(next, nrEdges + 1);
      nrEdges := 0;
      chains := EmptyChains(first.Length);
      StoreEmpty(first[..], next[..], vertex[..], owner);
    }
  }

  /** `memset(a, 0, n * sizeof(*a))`: zero the first `n` slots of `a`. */
  method Memset(a: array<int>, n: nat)
    requires n <= a.Length
    modifies a
    ensures forall i :: 0 <= i < a.Length ==> a[i] == if i < n then 0 else old(a[i])
  {
    var i := 0;
    while i < n
      invariant 0 <= i <= n
      invariant forall j :: 0 <= j < a.Length ==> a[j] == if j < i then 0 else old(a[j])
    {
      a[i] := 0;
      i := i + 1;
    }
  }

  /** A single array store `a[i] = x`, stated on the contents of `a` and of two other arrays. */
  /**
   * The loop of `graph_sort` that walks `next` from `start` along the chain
   * `ch` and writes `t`, in order, over the targets it passes.
   */
  method RelabelChain(next: array<int>, vertex: array<int>, start: int, ghost ch: seq<int>, t: seq<int>, ghost ts: seq<int>)
    requires next != vertex && start == Head(ch) && |t| == |ch|
    requires ChainAt(next[..], vertex[..], ch, ts)
    modifies vertex
    ensures vertex[..] == Relabel(old(vertex[..]), ch, t, |t|)
  {
    ghost var v0, x := vertex[..], next[..];
    var adj := start;
    var count := 0;
    while adj != 0
      invariant 0 <= count <= |ch| && adj == if count < |ch| then ch[count] else 0
      invariant next[..] == x
      invariant vertex[..] == Relabel(v0, ch, t, count)
      decreases |ch| - count
    {
      vertex[adj] := t[count];
      adj := next[adj];
      count := count + 1;
    }
  }

  method Write(a: array<int>, i: int, x: int, ghost b: array<int>, ghost c: array<int>)
    requires 0 <= i < a.Length && a != b && a != c
    modifies a
    ensures a[..] == old(a[..])[i := x] && b[..] == old(b[..]) && c[..] == old(c[..])
  {
    a[i] := x;
  }

  /** Writing a slot and then restoring its old value leaves the sequence as it was. */
  lemma UpdateBack(s: seq<int>, i: int, x: int)
    requires 0 <= i < |s|
    ensures s[i := x][i := s[i]] == s
  {
  }
}
