/**
 * The network of proj/2017-2018/p2/src/proj.c, read off the contents of its
 * arrays: the edge chains `first`/`next`/`pixel` with the tail pointers
 * `last`, the capacities (the same array serves as the residuals), and the
 * search tree `parent` that `bfs` leaves.  Vertex 0 is the source `s`,
 * `t = m * n + 1` the sink, and the pixels are `1..m*n`.
 *
 * Everything here is stated on sequences; the class and the algorithm that
 * update the arrays are in modules PixelGraph and PixelFlow.
 */
module PixelNet {
  import opened Seqs
  import opened Chains
  import opened LinkedGraph
  import opened ArcStore
  import opened PixelGrid

  /** Line 25: the parent of a vertex the search has not reached. */
  const NIL := -1
  /** Line 24: `INT_MAX`, the starting bottleneck of every search. */
  const INF := 0x7fff_ffff

  /** The arcs of edges `1..n`: owner, target and capacity, in edge order. */
  ghost function Edges(owner: seq<int>, vs: seq<int>, cap: seq<int>, n: int): (r: seq<Arc>)
    requires 0 <= n < |owner| && n < |vs| && n < |cap|
    ensures |r| == n && forall i :: 0 <= i < n ==> r[i] == Arc(owner[i + 1], vs[i + 1], cap[i + 1])
  {
    seq(n, i requires 0 <= i < n => Arc(owner[i + 1], vs[i + 1], cap[i + 1]))
  }

  /** Storing edge `n + 1` appends its arc. */
  lemma EdgesSnoc(owner: seq<int>, vs: seq<int>, cap: seq<int>, n: int, u: int, v: int, w: int)
    requires 0 <= n && n + 1 < |owner| && n + 1 < |vs| && n + 1 < |cap|
    ensures Edges(owner[n + 1 := u], vs[n + 1 := v], cap[n + 1 := w], n + 1) == Edges(owner, vs, cap, n) + [Arc(u, v, w)]
  {
  }

  /**
   * The shape `graph_init` leaves: every edge runs from `0..t-1` into
   * `1..t`, no edge is a self-loop or joins `s` to `t`, and no two edges
   * join the same ordered pair.
   */
  ghost predicate Simple(owner: seq<int>, vs: seq<int>, n: int, t: int)
  {
    && 0 <= n < |owner| && n < |vs|
    && (forall e :: 1 <= e <= n ==>
          0 <= owner[e] < t && 1 <= vs[e] <= t && owner[e] != vs[e] && (owner[e] == 0 ==> vs[e] < t))
    && (forall e, e' {:trigger Tail(owner, e), Tail(owner, e')} :: 1 <= e < e' <= n ==> Tail(owner, e) != Tail(owner, e') || vs[e] != vs[e'])
  }

  /**
   * The vertex edge `e` leaves.  The pairwise condition of `Simple` is
   * triggered on it, so that it is only instantiated where a proof names it.
   */
  ghost function Tail(owner: seq<int>, e: int): int
    requires 0 <= e < |owner|
  {
    owner[e]
  }

  /** Stored arcs with distinct endpoint pairs, all proper, make a simple network. */
  lemma SimpleFromArcs(owner: seq<int>, vs: seq<int>, cap: seq<int>, n: int, t: int, arcs: seq<Arc>)
    requires 0 <= n < |owner| && n < |vs| && n < |cap| && Edges(owner, vs, cap, n) == arcs
    requires DistinctPairs(arcs) && AllProper(arcs, t)
    ensures Simple(owner, vs, n, t)
  {
    forall e | 1 <= e <= n
      ensures 0 <= owner[e] < t && 1 <= vs[e] <= t && owner[e] != vs[e] && (owner[e] == 0 ==> vs[e] < t)
    {
      assert arcs[e - 1] == Arc(owner[e], vs[e], cap[e]) && Proper(arcs[e - 1], t);
    }
    forall e, e' | 1 <= e < e' <= n ensures Tail(owner, e) != Tail(owner, e') || vs[e] != vs[e'] {
      assert arcs[e - 1] == Arc(owner[e], vs[e], cap[e]) && arcs[e' - 1] == Arc(owner[e'], vs[e'], cap[e']);
    }
  }

  /** Every edge `1..n` lies on the chain of its owner. */
  ghost predicate Complete(chains: seq<seq<int>>, owner: seq<int>, n: int)
  {
    forall e :: 1 <= e <= n ==> e < |owner| && 0 <= owner[e] < |chains| && e in chains[owner[e]]
  }

  /** `last[u]` is the tail of `u`'s chain whenever that chain is not empty. */
  ghost predicate Tails(l: seq<int>, chains: seq<seq<int>>)
  {
    |l| == |chains| && forall u :: 0 <= u < |chains| && chains[u] != [] ==> l[u] == chains[u][|chains[u]| - 1]
  }

  /**
   * The store `graph_connect` keeps: `first`/`next` encode the chains of
   * edges `1..n`, `last` points at their tails, and every edge is on its
   * owner's chain.
   */
  ghost predicate Net(f: seq<int>, l: seq<int>, x: seq<int>, vs: seq<int>, chains: seq<seq<int>>, owner: seq<int>, n: int)
  {
    Chained(f, x, vs, chains, owner, n) && Tails(l, chains) && Complete(chains, owner, n)
  }

  /**
   * `Net` behind `depth` steps of recursion.  The verifier expands a
   * recursive predicate only a step or two where it meets it, so contracts
   * that hand `SealedNet(d, ...)` from call to call, for a `d` that is not a
   * literal, never expand the store invariant; `Unseal` and `Seal` convert
   * it where a proof reads or rebuilds the chains.
   */
  ghost predicate SealedNet(depth: int, f: seq<int>, l: seq<int>, x: seq<int>, vs: seq<int>, chains: seq<seq<int>>, owner: seq<int>, n: int)
    decreases if depth < 0 then 0 else depth
  {
    if depth <= 0 then Net(f, l, x, vs, chains, owner, n) else SealedNet(depth - 1, f, l, x, vs, chains, owner, n)
  }

  /** The sealed store is the store. */
  lemma {:induction false} Unseal(depth: int, f: seq<int>, l: seq<int>, x: seq<int>, vs: seq<int>, chains: seq<seq<int>>, owner: seq<int>, n: int)
    requires SealedNet(depth, f, l, x, vs, chains, owner, n)
    ensures Net(f, l, x, vs, chains, owner, n)
    decreases if depth < 0 then 0 else depth
  {
    if depth > 0 {
      Unseal(depth - 1, f, l, x, vs, chains, owner, n);
    }
  }

  /** The store, sealed. */
  lemma {:induction false} Seal(depth: int, f: seq<int>, l: seq<int>, x: seq<int>, vs: seq<int>, chains: seq<seq<int>>, owner: seq<int>, n: int)
    requires Net(f, l, x, vs, chains, owner, n)
    ensures SealedNet(depth, f, l, x, vs, chains, owner, n)
    decreases if depth < 0 then 0 else depth
  {
    if depth > 0 {
      Seal(depth - 1, f, l, x, vs, chains, owner, n);
    }
  }

  /** The zeroed arrays of `graph_new` hold the store without edges. */
  lemma NetEmpty(f: seq<int>, l: seq<int>, x: seq<int>, vs: seq<int>, owner: seq<int>)
    requires |x| >= 1 && |owner| == |x| && |vs| == |x| && |l| == |f|
    requires forall u :: 0 <= u < |f| ==> f[u] == 0
    requires forall e :: 0 <= e < |x| ==> x[e] == 0
    ensures Net(f, l, x, vs, EmptyChains(|f|), owner, 0)
  {
    ChainedEmpty(f, x, vs, owner);
  }

  /** Linking edge `n + 1`, with target `v`, at the tail of `u`'s chain keeps the store. */
  lemma NetAppend(f: seq<int>, l: seq<int>, x: seq<int>, vs: seq<int>, chains: seq<seq<int>>, owner: seq<int>, n: int, u: int, v: int)
    requires Net(f, l, x, vs, chains, owner, n) && 0 <= u < |chains| && n + 1 < |x|
    ensures Net(LinkFirst(f, chains[u], u, n + 1), l[u := n + 1], LinkNext(x, chains[u], n + 1), vs[n + 1 := v],
                chains[u := chains[u] + [n + 1]], owner[n + 1 := u], n + 1)
  {
    ChainedAppend(f, x, vs, chains, owner, n, u, v);
    TailsAppend(l, chains, u, n + 1);
    CompleteAppend(chains, owner, n, u);
  }

  lemma TailsAppend(l: seq<int>, chains: seq<seq<int>>, u: int, e: int)
    requires Tails(l, chains) && 0 <= u < |chains|
    ensures Tails(l[u := e], chains[u := chains[u] + [e]])
  {
  }

  lemma CompleteAppend(chains: seq<seq<int>>, owner: seq<int>, n: int, u: int)
    requires Complete(chains, owner, n) && 0 <= u < |chains| && 0 <= n && n + 1 < |owner|
    ensures Complete(chains[u := chains[u] + [n + 1]], owner[n + 1 := u], n + 1)
  {
    var c', o' := chains[u := chains[u] + [n + 1]], owner[n + 1 := u];
    forall e | 1 <= e <= n + 1 ensures e < |o'| && 0 <= o'[e] < |c'| && e in c'[o'[e]] {
      if e <= n {
        assert e in chains[owner[e]];
        assert chains[owner[e]] <= c'[owner[e]];
      } else {
        assert c'[u][|chains[u]|] == e;
      }
    }
  }

  /** What `graph_connect` reads before it links: `first[u]` is 0 exactly when the chain is empty, and `last[u]` is its tail. */
  lemma NetRead(f: seq<int>, l: seq<int>, x: seq<int>, vs: seq<int>, chains: seq<seq<int>>, owner: seq<int>, n: int, u: int)
    requires Net(f, l, x, vs, chains, owner, n) && 0 <= u < |chains|
    ensures (f[u] == 0) == (chains[u] == [])
    ensures chains[u] != [] ==> 0 <= l[u] < |x| && l[u] == chains[u][|chains[u]| - 1]
    ensures ChainAt(x, vs, chains[u], Targets(chains, vs)[u]) && f[u] == Head(chains[u])
  {
    ChainedRead(f, x, vs, chains, owner, n, u);
  }

  /** In a simple network the edge from `u` to `v` on `u`'s chain is the only edge from `u` to `v`. */
  lemma UniqueEdge(chains: seq<seq<int>>, owner: seq<int>, vs: seq<int>, n: int, t: int, e: int, e': int)
    requires Owned(chains, owner, n) && Simple(owner, vs, n, t)
    requires 1 <= e' <= n && 0 <= owner[e'] < |chains| && e in chains[owner[e']] && vs[e] == vs[e']
    ensures e == e'
  {
    var k :| 0 <= k < |chains[owner[e']]| && chains[owner[e']][k] == e;
    assert Tail(owner, e) == Tail(owner, e') && vs[e] == vs[e'];
  }

  /**
   * Lines 146-151, `graph_get_edge`: the first edge of the chain `ch` whose
   * target is `v`, or 0 when there is none.  It is 0 exactly when no edge of
   * the chain leads to `v`, and otherwise an edge of the chain leading to `v`.
   */
  function FirstTo(ch: seq<int>, vs: seq<int>, v: int): (r: int)
    requires forall k :: 0 <= k < |ch| ==> 0 < ch[k] < |vs|
    ensures r == 0 <==> forall k :: 0 <= k < |ch| ==> vs[ch[k]] != v
    ensures r != 0 ==> r in ch && vs[r] == v
  {
    if ch == [] then 0 else if vs[ch[0]] == v then ch[0] else FirstTo(ch[1..], vs, v)
  }

  /** No edge before the one `FirstTo` returns leads to `v`. */
  lemma {:induction false} FirstToFirst(ch: seq<int>, vs: seq<int>, v: int)
    requires forall k :: 0 <= k < |ch| ==> 0 < ch[k] < |vs|
    ensures FirstTo(ch, vs, v) != 0 ==>
              exists k :: 0 <= k < |ch| && ch[k] == FirstTo(ch, vs, v) && forall k' :: 0 <= k' < k ==> vs[ch[k']] != v
  {
    if ch != [] && vs[ch[0]] != v {
      FirstToFirst(ch[1..], vs, v);
      if FirstTo(ch, vs, v) != 0 {
        var k :| 0 <= k < |ch[1..]| && ch[1..][k] == FirstTo(ch, vs, v) && forall k' :: 0 <= k' < k ==> vs[ch[1..][k']] != v;
        assert ch[k + 1] == FirstTo(ch, vs, v);
        forall k' | 0 <= k' < k + 1 ensures vs[ch[k']] != v {
          if k' > 0 {
            assert ch[k'] == ch[1..][k' - 1];
          }
        }
      }
    }
  }

  /**
   * In a simple network the edge `graph_get_edge(u, v)` finds is the only
   * edge from `u` to `v`, and it finds none exactly when there is none.
   */
  lemma FirstToSimple(f: seq<int>, l: seq<int>, x: seq<int>, vs: seq<int>, chains: seq<seq<int>>, owner: seq<int>,
                      n: int, t: int, u: int, v: int)
    requires Net(f, l, x, vs, chains, owner, n) && Simple(owner, vs, n, t) && 0 <= u < |chains|
    ensures forall k :: 0 <= k < |chains[u]| ==> 0 < chains[u][k] < |vs|
    ensures FirstTo(chains[u], vs, v) == 0 <==> forall e :: 1 <= e <= n ==> owner[e] != u || vs[e] != v
    ensures forall e :: 1 <= e <= n && owner[e] == u && vs[e] == v ==> FirstTo(chains[u], vs, v) == e
    ensures FirstTo(chains[u], vs, v) != 0 ==> 1 <= FirstTo(chains[u], vs, v) <= n && owner[FirstTo(chains[u], vs, v)] == u
  {
    ChainedRead(f, x, vs, chains, owner, n, u);
    var r := FirstTo(chains[u], vs, v);
    forall e | 1 <= e <= n && owner[e] == u && vs[e] == v ensures r == e {
      assert e in chains[owner[e]];
      var k :| 0 <= k < |chains[u]| && chains[u][k] == e;
      assert vs[chains[u][k]] == v;
      UniqueEdge(chains, owner, vs, n, t, r, e);
    }
    if r != 0 {
      var k :| 0 <= k < |chains[u]| && chains[u][k] == r;
      assert 1 <= r <= n && owner[r] == u;
    }
  }

  /** The sum of `res[e]` over the edges `e` of `1..k` with `key[e] == x`. */
  function SumWhere(res: seq<int>, key: seq<int>, x: int, k: int): int
    requires 0 <= k < |res| && k < |key|
  {
    if k == 0 then 0 else SumWhere(res, key, x, k - 1) + (if key[k] == x then res[k] else 0)
  }

  /** Changing one residual by `d` changes the sum by `d` exactly when that edge is counted. */
  lemma {:induction false} SumUpdate(res: seq<int>, key: seq<int>, x: int, k: int, e: int, d: int)
    requires 0 <= k < |res| && k < |key| && 0 <= e < |res|
    ensures SumWhere(res[e := res[e] + d], key, x, k) == SumWhere(res, key, x, k) + (if 1 <= e <= k && key[e] == x then d else 0)
  {
    if k > 0 {
      SumUpdate(res, key, x, k - 1, e, d);
    }
  }

  /** Nonnegative residuals have a nonnegative sum. */
  lemma {:induction false} SumNonneg(res: seq<int>, key: seq<int>, x: int, k: int)
    requires 0 <= k < |res| && k < |key| && forall e :: 1 <= e <= k ==> 0 <= res[e]
    ensures 0 <= SumWhere(res, key, x, k)
  {
    if k > 0 {
      SumNonneg(res, key, x, k - 1);
    }
  }
}
