/**
 * The maximum-flow pass of proj/2017-2018/p2/src/proj.c, lines 306-411:
 * `bfs` over the edge chains with the queue of module PixelQueue,
 * `edmonds_karp` with its backtrack along the search tree and the labelling
 * of the pixels the last search reached, and `update_weights`.  The
 * residuals live in the capacity array itself (`residual` aliases
 * `capacity`), so every contract states the residuals as `capacity[..]`
 * and the starting capacities as its old contents.
 */
module PixelFlow {
  import opened Chains
  import opened ArcStore
  import opened PixelNet
  import opened PixelSearch
  import opened PixelAugment
  import opened PixelQueue
  import opened PixelGraph

  /**
   * What a search works on: the graph's store of a simple network, and a
   * queue without marks of `t + 1` slots whose array is none of the graph's.
   */
  ghost predicate Ready(g: Graph, q: Queue)
    reads g, g.first, g.last, g.next, g.pixel, q
  {
    && g.Valid() == true && Simple(g.owner, g.pixel[..], g.nrEdges, g.t)
    && q.Valid() && q.inQueue == null && q.data.Length == g.t + 1
    && q.data != g.first && q.data != g.last && q.data != g.next && q.data != g.pixel && q.data != g.parent && q.data != g.capacity
  }

  /**
   * What the scan of chain `ch` of vertex `u` reads: its head in `f`, and
   * for each of its edges an edge `1..n` of `u` into a vertex of `1..t`,
   * with its successor in `x`.
   */
  ghost predicate Readable(f: seq<int>, x: seq<int>, vs: seq<int>, ch: seq<int>, owner: seq<int>, n: int, t: int, u: int)
  {
    && 0 <= u < |f| && f[u] == Head(ch)
    && forall k :: 0 <= k < |ch| ==>
         && 1 <= ch[k] <= n && ch[k] < |x| && ch[k] < |vs| && ch[k] < |owner|
         && owner[ch[k]] == u && x[ch[k]] == Succ(ch, k) && 1 <= vs[ch[k]] <= t
  }

  /** The store of a simple network gives every chain what its scan reads. */
  lemma ChainsRead(d: int, f: seq<int>, l: seq<int>, x: seq<int>, vs: seq<int>, chains: seq<seq<int>>, owner: seq<int>, n: int, t: int)
    requires SealedNet(d, f, l, x, vs, chains, owner, n) && Simple(owner, vs, n, t) && |chains| == |f|
    ensures Complete(chains, owner, n)
    ensures forall u :: 0 <= u < |chains| ==> Readable(f, x, vs, chains[u], owner, n, t, u)
  {
    Unseal(d, f, l, x, vs, chains, owner, n);
    forall u | 0 <= u < |chains| ensures Readable(f, x, vs, chains[u], owner, n, t, u) {
      ChainedRead(f, x, vs, chains, owner, n, u);
    }
  }

  /**
   * Line 326 keeps the bottleneck at `top`, where the search started, or at
   * the residual of the tree edge into some vertex that has a parent.
   */
  ghost predicate Attained(df: int, top: int, parent: seq<int>, pe: seq<int>, res: seq<int>)
  {
    df == top || exists w :: 1 <= w < |parent| && w < |pe| && parent[w] != NIL && 0 <= pe[w] < |res| && df == res[pe[w]]
  }

  /** Line 326: the new bottleneck is the old one or the residual of the edge just made a tree edge. */
  lemma AttainedVisit(df0: int, df: int, top: int, p0: seq<int>, pe0: seq<int>, res: seq<int>, v: int, u: int, adj: int)
    requires Attained(df0, top, p0, pe0, res) && 1 <= v < |p0| && v < |pe0| && p0[v] == NIL && u != NIL
    requires 0 <= adj < |res| && df == Min(df0, res[adj])
    ensures Attained(df, top, p0[v := u], pe0[v := adj], res)
  {
    var p, pe := p0[v := u], pe0[v := adj];
    if df != top {
      if df == res[adj] {
        assert 1 <= v < |p| && v < |pe| && p[v] != NIL && 0 <= pe[v] < |res| && df == res[pe[v]];
      } else {
        var w :| 1 <= w < |p0| && w < |pe0| && p0[w] != NIL && 0 <= pe0[w] < |res| && df0 == res[pe0[w]];
        assert 1 <= w < |p| && w < |pe| && p[w] != NIL && 0 <= pe[w] < |res| && df == res[pe[w]];
      }
    }
  }

  /** Line 310: every vertex but `s` loses its parent (the `memset` starts at `parent + 1`). */
  method ClearParents(parent: array<int>, t: int)
    requires 1 <= t && parent.Length == t + 1
    modifies parent
    ensures parent[0] == old(parent[0]) && forall v :: 1 <= v <= t ==> parent[v] == NIL
  {
    var v := 1;
    while v <= t
      invariant 1 <= v <= t + 1 && parent[0] == old(parent[0])
      invariant forall w :: 1 <= w < v ==> parent[w] == NIL
    {
      parent[v] := NIL;
      v := v + 1;
    }
  }

  /**
   * Lines 321-329, one turn of the scan of the chain of `u`, the vertex just
   * popped, at its `k`-th edge `adj`: when the edge has positive residual
   * and leads to a vertex without a parent, that vertex gets the parent `u`
   * and the bottleneck drops to the residual; it is queued unless it is
   * `t`, and then `found` says the scan breaks off.
   */
  method Visit(g: Graph, q: Queue, u: int, adj: int, df0: int, ghost top: int, ghost k: int, ghost rank0: seq<int>, ghost pe0: seq<int>,
               ghost vs: seq<int>, ghost res: seq<int>,
               ghost chains: seq<seq<int>>, ghost owner: seq<int>, ghost n: int)
      returns (df: int, found: bool, ghost rank: seq<int>, ghost pe: seq<int>)
    requires g.chains == chains && g.owner == owner && g.nrEdges == n
    requires g.Frame() && q.Valid() && q.inQueue == null && q.data.Length == g.t + 1
    requires q.data != g.parent && q.data != g.pixel && q.data != g.capacity
    requires 0 <= adj < g.pixel.Length && adj < |vs| && adj < |res| && g.pixel[adj] == vs[adj] && g.capacity[adj] == res[adj]
    requires 1 <= q.front <= q.rear && u == q.data[q.front - 1] && 0 <= u < |chains| && 0 <= k < |chains[u]| && adj == chains[u][k]
    requires 1 <= adj <= n && adj < |vs| && adj < |owner| && owner[adj] == u && 1 <= vs[adj] <= g.t
    requires Scanning(g.parent[..], rank0, pe0, q.data[..q.rear], q.front, chains, owner, vs, res, n, g.t, df0, k) == true
    requires Attained(df0, top, g.parent[..], pe0, res)
    modifies g.parent, q, q.data
    ensures q.Valid() && q.front == old(q.front) && q.front <= q.rear && u == q.data[q.front - 1]
    ensures Attained(df, top, g.parent[..], pe, res)
    ensures found ==> Searching(g.parent[..], rank, pe, q.data[..q.rear], q.front, chains, owner, vs, res, n, g.t, df) == true
    ensures !found ==> Scanning(g.parent[..], rank, pe, q.data[..q.rear], q.front, chains, owner, vs, res, n, g.t, df, k + 1) == true
    ensures found == (old(g.parent[vs[adj]]) == NIL && 0 < res[adj] && vs[adj] == g.t)
    ensures df <= df0 && (0 < df0 ==> 0 < df)
  {
    ghost var p0, h0 := g.parent[..], q.data[..q.rear];
    df, found, rank, pe := df0, false, rank0, pe0;
    var v := g.pixel[adj];
    var cf := g.capacity[adj];
    if g.parent[v] == NIL && cf > 0 {
      ScanFind(p0, rank0, pe0, h0, q.front, chains, owner, vs, res, n, g.t, df0, k);
      g.parent[v] := u;
      assert g.parent[..] == p0[v := u];
      df := Min(df, cf);
      rank, pe := rank[v := rank[u] + 1], pe[v := adj];
      AttainedVisit(df0, df, top, p0, pe0, res, v, u, adj);
      if v == g.t {
        ScanDone(g.parent[..], rank, pe, h0, q.front, chains, owner, vs, res, n, g.t, df, k + 1);
        found := true;
      } else {
        q.Push(v);
        assert q.data[..q.rear] == h0 + [v];
      }
    } else {
      ScanSkip(p0, rank0, pe0, h0, q.front, chains, owner, vs, res, n, g.t, df0, k);
    }
  }

  /**
   * Lines 320-330: the scan of the chain of `u`, the vertex just popped,
   * edge by edge along `next`, until its end or until `t` is found.
   */
  method ScanChain(g: Graph, q: Queue, u: int, df0: int, ghost top: int, ghost rank0: seq<int>, ghost pe0: seq<int>,
                   ghost f: seq<int>, ghost x: seq<int>, ghost vs: seq<int>, ghost res: seq<int>,
                   ghost chains: seq<seq<int>>, ghost owner: seq<int>, ghost n: int)
      returns (df: int, ghost rank: seq<int>, ghost pe: seq<int>)
    requires g.chains == chains && g.owner == owner && g.nrEdges == n
    requires g.Frame() && q.Valid() && q.inQueue == null && q.data.Length == g.t + 1
    requires q.data != g.parent && q.data != g.next && q.data != g.pixel && q.data != g.capacity
    requires g.first[..] == f && g.next[..] == x && g.pixel[..] == vs && g.capacity[..] == res
    requires 1 <= q.front <= q.rear && u == q.data[q.front - 1] && 0 <= u < |chains|
    requires Readable(f, x, vs, chains[u], owner, n, g.t, u)
    requires Scanning(g.parent[..], rank0, pe0, q.data[..q.rear], q.front, chains, owner, vs, res, n, g.t, df0, 0) == true
    requires Attained(df0, top, g.parent[..], pe0, res)
    modifies g.parent, q, q.data
    ensures q.Valid() && q.front == old(q.front)
    ensures Attained(df, top, g.parent[..], pe, res)
    ensures Searching(g.parent[..], rank, pe, q.data[..q.rear], q.front, chains, owner, vs, res, n, g.t, df) == true
    ensures df <= df0 && (0 < df0 ==> 0 < df)
  {
    ghost var ch := chains[u];
    df, rank, pe := df0, rank0, pe0;
    var adj := g.first[u];
    ghost var k := 0;
    while adj != 0
      invariant q.Valid() && q.front == old(q.front) && q.front <= q.rear && u == q.data[q.front - 1]
      invariant unchanged(g.pixel, g.capacity, g.next)
      invariant 0 <= k <= |ch| && adj == (if k < |ch| then ch[k] else 0)
      invariant Scanning(g.parent[..], rank, pe, q.data[..q.rear], q.front, chains, owner, vs, res, n, g.t, df, k) == true
      invariant df <= df0 && (0 < df0 ==> 0 < df)
      invariant Attained(df, top, g.parent[..], pe, res)
      decreases |ch| - k
    {
      var found;
      df, found, rank, pe := Visit(g, q, u, adj, df, top, k, rank, pe, vs, res, chains, owner, n);
      if found {
        return;
      }
      adj := g.next[adj];
      k := k + 1;
    }
    ScanDone(g.parent[..], rank, pe, q.data[..q.rear], q.front, chains, owner, vs, res, n, g.t, df, k);
  }

  /**
   * Lines 316-331: vertices are popped until the queue drains, and each
   * popped vertex has its chain scanned.
   */
  method Drain(g: Graph, q: Queue, df0: int, ghost top: int, ghost rank0: seq<int>, ghost pe0: seq<int>,
               ghost f: seq<int>, ghost x: seq<int>, ghost vs: seq<int>, ghost res: seq<int>,
               ghost chains: seq<seq<int>>, ghost owner: seq<int>, ghost n: int)
      returns (df: int, ghost rank: seq<int>, ghost pe: seq<int>)
    requires g.chains == chains && g.owner == owner && g.nrEdges == n
    requires g.Frame() && q.Valid() && q.inQueue == null && q.data.Length == g.t + 1
    requires q.data != g.first && q.data != g.parent && q.data != g.next && q.data != g.pixel && q.data != g.capacity
    requires g.first[..] == f && g.next[..] == x && g.pixel[..] == vs && g.capacity[..] == res
    requires |chains| == g.t + 1 && forall u :: 0 <= u < |chains| ==> Readable(f, x, vs, chains[u], owner, n, g.t, u)
    requires Searching(g.parent[..], rank0, pe0, q.data[..q.rear], q.front, chains, owner, vs, res, n, g.t, df0) == true
    requires Attained(df0, top, g.parent[..], pe0, res)
    modifies g.parent, q, q.data
    ensures q.Valid() && q.front == q.rear && g.pixel[..] == vs && g.capacity[..] == res
    ensures Attained(df, top, g.parent[..], pe, res)
    ensures Searching(g.parent[..], rank, pe, q.data[..q.rear], q.front, chains, owner, vs, res, n, g.t, df) == true
    ensures df <= df0 && (0 < df0 ==> 0 < df)
  {
    df, rank, pe := df0, rank0, pe0;
    while !q.IsEmpty()
      invariant q.Valid() && g.first[..] == f && g.next[..] == x && g.pixel[..] == vs && g.capacity[..] == res
      invariant Searching(g.parent[..], rank, pe, q.data[..q.rear], q.front, chains, owner, vs, res, n, g.t, df) == true
      invariant df <= df0 && (0 < df0 ==> 0 < df)
      invariant Attained(df, top, g.parent[..], pe, res)
      decreases q.data.Length - q.front
    {
      PopStart(g.parent[..], rank, pe, q.data[..q.rear], q.front, chains, owner, vs, res, n, g.t, df);
      var u := q.Pop();
      df, rank, pe := ScanChain(g, q, u, df, top, rank, pe, f, x, vs, res, chains, owner, n);
    }
  }

  /**
   * Lines 306-334, `bfs`: the queue restarts with `s` alone, every other
   * vertex loses its parent, and popped vertices have their chains scanned
   * until the queue drains; the answer is whether `t` got a parent, that
   * is, whether a residual walk leads from `s` to `t`.  `df` comes back
   * lowered to the smallest residual on the tree edges.
   */
  method Bfs(g: Graph, q: Queue, df0: int) returns (found: bool, df: int, ghost rank: seq<int>, ghost pe: seq<int>)
    requires Ready(g, q) == true
    modifies g.parent, q, q.data
    ensures Ready(g, q) == true
    ensures found == (g.parent[g.t] != NIL)
    ensures found <==> exists p :: ResidualWalk(p, 0, g.t, g.owner, g.pixel[..], g.capacity[..], g.nrEdges)
    ensures !found ==> Closed(g.parent[..], g.owner, g.pixel[..], g.capacity[..], g.nrEdges)
    ensures SealedTree(g.t, g.parent[..], rank, pe, g.owner, g.pixel[..], g.capacity[..], g.nrEdges, g.t, df)
    ensures df <= df0 && (0 < df0 ==> 0 < df)
    ensures df == df0 || exists w :: 1 <= w <= g.t && w < |pe| && g.parent[w] != NIL && 0 <= pe[w] < g.capacity.Length && df == g.capacity[pe[w]]
  {
    ghost var f, x, vs, res := g.first[..], g.next[..], g.pixel[..], g.capacity[..];
    ghost var chains, owner, n, t := g.chains, g.owner, g.nrEdges, g.t;
    ChainsRead(t, f, g.last[..], x, vs, chains, owner, n, t);
    q.Reset();
    ClearParents(g.parent, g.t);
    q.Push(g.s);
    rank, pe := seq(t + 1, _ => 0), seq(t + 1, _ => 0);
    SearchStart(g.parent[..], rank, pe, chains, owner, vs, res, n, t, df0);
    df, rank, pe := Drain(g, q, df0, df0, rank, pe, f, x, vs, res, chains, owner, n);
    SearchTree(g.parent[..], rank, pe, q.data[..q.rear], q.front, chains, owner, vs, res, n, t, df);
    if g.parent[g.t] == NIL {
      SearchEnd(g.parent[..], rank, pe, q.data[..q.rear], chains, owner, vs, res, n, t, df);
    }
    SearchAnswer(g.parent[..], rank, pe, owner, vs, res, n, t, df);
    found := g.parent[g.t] != NIL;
  }

  /**
   * What `graph_get_edge` finds in a simple network: the one edge from `u`
   * to `v` when there is one, and otherwise 0 or an edge from `u` to `v`.
   */
  lemma Lookup(d: int, f: seq<int>, l: seq<int>, x: seq<int>, vs: seq<int>, chains: seq<seq<int>>, owner: seq<int>,
               n: int, t: int, u: int, v: int)
    requires SealedNet(d, f, l, x, vs, chains, owner, n) && Simple(owner, vs, n, t) && 0 <= u < |chains|
    ensures forall k :: 0 <= k < |chains[u]| ==> 0 < chains[u][k] < |vs|
    ensures Reverse(FirstTo(chains[u], vs, v), u, v, owner, vs, n)
    ensures forall e :: 1 <= e <= n && owner[e] == u && vs[e] == v ==> FirstTo(chains[u], vs, v) == e
  {
    Unseal(d, f, l, x, vs, chains, owner, n);
    FirstToSimple(f, l, x, vs, chains, owner, n, t, u, v);
  }

  /**
   * Lines 362-366, one backtrack step from `v` to its parent `u`: the tree
   * edge `u -> v`, found by `graph_get_edge`, loses `df`, and the edge
   * `v -> u` it finds gains `df` (edge 0 when there is none).
   */
  method BackStepAt(g: Graph, u: int, v: int, df: int, ghost rank: seq<int>, ghost pe: seq<int>, ghost res: seq<int>, ghost res0: seq<int>)
    returns (ghost ea: int, ghost eb: int)
    requires g.Valid() == true && Simple(g.owner, g.pixel[..], g.nrEdges, g.t) && g.capacity[..] == res
    requires Backing(res, res0, g.parent[..], rank, pe, g.owner, g.pixel[..], g.nrEdges, g.t, df, v) && v != 0 && u == g.parent[v]
    modifies g.capacity
    ensures ea == pe[v] && RevEdge(eb, v, u, g.owner, g.pixel[..], g.nrEdges)
    ensures 0 <= ea < |res| && 0 <= eb < |res| && g.capacity[..] == AugmentStep(res, ea, eb, df)
    ensures Backing(g.capacity[..], res0, g.parent[..], rank, pe, g.owner, g.pixel[..], g.nrEdges, g.t, df, u)
  {
    ghost var parent, owner, vs, n, t := g.parent[..], g.owner, g.pixel[..], g.nrEdges, g.t;
    BackEdge(res, res0, parent, rank, pe, owner, vs, n, t, df, v);
    Lookup(t, g.first[..], g.last[..], g.next[..], vs, g.chains, owner, n, t, u, v);
    Lookup(t, g.first[..], g.last[..], g.next[..], vs, g.chains, owner, n, t, v, u);
    var a := g.GetEdge(u, v);
    var b := g.GetEdge(v, u);
    Shift(g.capacity, a, b, df);
    BackStep(res, res0, parent, rank, pe, owner, vs, n, t, df, v, b);
    ea, eb := a, b;
  }

  /** Lines 363-366: `df` leaves residual `a` and then joins residual `b`; the lookups between them read no residual. */
  method Shift(c: array<int>, a: int, b: int, df: int)
    requires 0 <= a < c.Length && 0 <= b < c.Length
    modifies c
    ensures c[..] == AugmentStep(old(c[..]), a, b, df)
  {
    c[a] := c[a] - df;
    c[b] := c[b] + df;
  }

  /**
   * Lines 361-367 as evidently intended: the walk from `t` back along the
   * search tree goes down to `s`, so every tree edge on the path, the one
   * leaving `s` included, loses `df` and its reverse gains `df`.
   */
  method Augment(g: Graph, df: int, ghost rank: seq<int>, ghost pe: seq<int>, ghost res0: seq<int>)
    returns (ghost path: seq<int>, ghost steps: seq<(int, int)>)
    requires g.Valid() == true && Simple(g.owner, g.pixel[..], g.nrEdges, g.t) && g.capacity[..] == res0
    requires Tree(g.parent[..], rank, pe, g.owner, g.pixel[..], res0, g.nrEdges, g.t, df)
    requires 0 < df && NonNeg(res0) && g.parent[g.t] != NIL
    modifies g.capacity
    ensures BackPath(path, steps, g.parent[..], pe, g.owner, g.pixel[..], g.nrEdges, g.t, 0)
    ensures StepsIn(steps, |res0|) && g.capacity[..] == Pushed(res0, steps, df)
    ensures Backing(g.capacity[..], res0, g.parent[..], rank, pe, g.owner, g.pixel[..], g.nrEdges, g.t, df, 0)
  {
    ghost var parent, owner, vs, n, t := g.parent[..], g.owner, g.pixel[..], g.nrEdges, g.t;
    BackStart(res0, parent, rank, pe, owner, vs, n, t, df);
    var v := g.t;
    var u := g.parent[v];
    path, steps := [v], [];
    while v != g.s
      invariant g.parent[..] == parent && g.pixel[..] == vs
      invariant Backing(g.capacity[..], res0, parent, rank, pe, owner, vs, n, t, df, v)
      invariant v != 0 ==> u == parent[v] && 0 <= rank[v]
      invariant BackPath(path, steps, parent, pe, owner, vs, n, t, v)
      invariant StepsIn(steps, |res0|) && g.capacity[..] == Pushed(res0, steps, df)
      decreases if v == 0 then 0 else rank[v]
    {
      BackEdge(g.capacity[..], res0, parent, rank, pe, owner, vs, n, t, df, v);
      ghost var ea, eb := BackStepAt(g, u, v, df, rank, pe, g.capacity[..], res0);
      BackPathStep(path, steps, parent, pe, owner, vs, n, t, v, u, ea, eb, res0, df);
      path, steps := path + [u], steps + [(ea, eb)];
      v := u;
      u := g.parent[v];
    }
  }

  /**
   * Lines 361-367 as written: the walk stops as soon as the parent `u` is
   * `s` (or `v` would be its own parent, which a search tree never has), so
   * it ends on `last`, the vertex whose tree edge leaves `s`, and that edge
   * keeps its residual.
   */
  method AugmentAsWritten(g: Graph, df: int, ghost rank: seq<int>, ghost pe: seq<int>, ghost res0: seq<int>)
    returns (ghost last: int, ghost path: seq<int>, ghost steps: seq<(int, int)>)
    requires g.Valid() == true && Simple(g.owner, g.pixel[..], g.nrEdges, g.t) && g.capacity[..] == res0
    requires Tree(g.parent[..], rank, pe, g.owner, g.pixel[..], res0, g.nrEdges, g.t, df)
    requires 0 < df && NonNeg(res0) && g.parent[g.t] != NIL
    modifies g.capacity
    ensures last != 0 && 0 <= last <= g.t && g.parent[last] == g.s
    ensures BackPath(path, steps, g.parent[..], pe, g.owner, g.pixel[..], g.nrEdges, g.t, last)
    ensures StepsIn(steps, |res0|) && g.capacity[..] == Pushed(res0, steps, df)
    ensures Backing(g.capacity[..], res0, g.parent[..], rank, pe, g.owner, g.pixel[..], g.nrEdges, g.t, df, last)
  {
    ghost var parent, owner, vs, n, t := g.parent[..], g.owner, g.pixel[..], g.nrEdges, g.t;
    BackStart(res0, parent, rank, pe, owner, vs, n, t, df);
    var v := g.t;
    var u := g.parent[v];
    path, steps := [v], [];
    while u != g.s && v != g.parent[v]
      invariant g.parent[..] == parent && g.pixel[..] == vs
      invariant Backing(g.capacity[..], res0, parent, rank, pe, owner, vs, n, t, df, v)
      invariant v != 0 && u == parent[v] && 0 <= rank[v]
      invariant BackPath(path, steps, parent, pe, owner, vs, n, t, v)
      invariant StepsIn(steps, |res0|) && g.capacity[..] == Pushed(res0, steps, df)
      decreases rank[v]
    {
      BackEdge(g.capacity[..], res0, parent, rank, pe, owner, vs, n, t, df, v);
      ghost var ea, eb := BackStepAt(g, u, v, df, rank, pe, g.capacity[..], res0);
      BackPathStep(path, steps, parent, pe, owner, vs, n, t, v, u, ea, eb, res0, df);
      path, steps := path + [u], steps + [(ea, eb)];
      v := u;
      u := g.parent[v];
    }
    BackEdge(g.capacity[..], res0, parent, rank, pe, owner, vs, n, t, df, v);
    last := v;
  }

  /**
   * Lines 381-386: every pixel `1..nr_vertices - 1` the last search reached
   * (it has a parent) is labelled 'C'; the others keep their label.
   */
  method MarkCut(g: Graph)
    requires g.Frame()
    modifies g.segments
    ensures forall u :: 1 <= u < g.t ==> g.segments[u] == (if g.parent[u] != NIL then 'C' else old(g.segments[u]))
    ensures g.segments[0] == old(g.segments[0])
  {
    var u := 1;
    while u < g.nrVertices
      invariant 1 <= u <= g.t
      invariant forall w :: 1 <= w < u ==> g.segments[w] == (if g.parent[w] != NIL then 'C' else old(g.segments[w]))
      invariant forall w :: u <= w < g.t || w == 0 ==> g.segments[w] == old(g.segments[w])
    {
      if g.parent[u] != NIL {
        g.segments[u] := 'C';
      }
      u := u + 1;
    }
  }

  /**
   * How the augmenting loop can end: the last search missed `t`, its reached
   * set is closed under positive residuals and no residual walk from `s` to
   * `t` is left; or it reached `t` along tree edges of residual `INF` at
   * least, and a walk is left.
   */
  ghost predicate Settled(parent: seq<int>, owner: seq<int>, vs: seq<int>, res: seq<int>, n: int, t: int)
  {
    && |parent| == t + 1 && 1 <= t
    && (parent[t] == NIL <==> !exists p :: ResidualWalk(p, 0, t, owner, vs, res, n))
    && (parent[t] == NIL ==> Closed(parent, owner, vs, res, n))
    && (parent[t] != NIL ==> exists rank, pe :: Tree(parent, rank, pe, owner, vs, res, n, t, INF))
  }

  /**
   * Lines 355-374, one turn of the loop of `edmonds_karp` (corrected
   * backtrack): a search from bottleneck `INF`; when it found `t` with a
   * bottleneck other than 0 and `INF`, the augmentation along its tree
   * adds the bottleneck to the flow and lowers the residual into `t`;
   * otherwise the loop is `done`.
   */
  method Round(g: Graph, q: Queue, flow0: int, ghost cap: seq<int>, ghost res0: seq<int>) returns (done: bool, flow: int)
    requires Ready(g, q) == true && g.capacity[..] == res0 && Flowing(res0, cap, g.owner, g.pixel[..], g.nrEdges, g.t, flow0)
    modifies g.parent, g.capacity, q, q.data
    ensures Ready(g, q) == true && Flowing(g.capacity[..], cap, g.owner, g.pixel[..], g.nrEdges, g.t, flow)
    ensures done ==> Settled(g.parent[..], g.owner, g.pixel[..], g.capacity[..], g.nrEdges, g.t)
    ensures !done ==> SumWhere(g.capacity[..], g.pixel[..], g.t, g.nrEdges) < SumWhere(res0, g.pixel[..], g.t, g.nrEdges)
  {
    ghost var owner, vs, n, t := g.owner, g.pixel[..], g.nrEdges, g.t;
    var found, df;
    ghost var rank, pe;
    found, df, rank, pe := Bfs(g, q, INF);
    flow := flow0;
    done := true;
    if !found {
      return;
    }
    UnsealTree(g.t, g.parent[..], rank, pe, owner, vs, res0, n, t, df);
    if df == 0 || df == INF {
      return;
    }
    ghost var path, steps := Augment(g, df, rank, pe, res0);
    FlowingStep(g.capacity[..], res0, cap, g.parent[..], rank, pe, owner, vs, n, t, df, flow0);
    flow, done := flow0 + df, false;
  }

  /**
   * Lines 336-392, `edmonds_karp` with the backtrack evidently intended
   * (`Augment`): searches repeat, each found path augmenting the flow by
   * its bottleneck, until a search misses `t` or its bottleneck is `INF`
   * (or 0, which a search that starts from `INF` never returns).  The flow
   * is what the edges into `t`, and also the edges out of `s`, have lost;
   * when the last search missed `t`, the reached vertices are closed under
   * positive residuals, so no residual walk from `s` to `t` is left; the
   * reached pixels are labelled 'C'.
   */
  method EdmondsKarp(g: Graph, ghost cap: seq<int>) returns (flow: int)
    requires g.Valid() == true && Simple(g.owner, g.pixel[..], g.nrEdges, g.t) && g.capacity[..] == cap && NonNeg(cap)
    modifies g.parent, g.capacity, g.segments
    ensures g.Valid() == true
    ensures Flowing(g.capacity[..], cap, g.owner, g.pixel[..], g.nrEdges, g.t, flow)
    ensures Settled(g.parent[..], g.owner, g.pixel[..], g.capacity[..], g.nrEdges, g.t)
    ensures forall u :: 1 <= u < g.t ==> g.segments[u] == (if g.parent[u] != NIL then 'C' else old(g.segments[u]))
  {
    ghost var owner, vs, n, t := g.owner, g.pixel[..], g.nrEdges, g.t;
    var q := new Queue(g.nrVertices + 1, false);
    flow := 0;
    SumNonneg(cap, vs, t, n);
    while true
      invariant Ready(g, q) == true && fresh(q.data) && g.pixel[..] == vs && g.owner == owner && g.nrEdges == n
      invariant Flowing(g.capacity[..], cap, owner, vs, n, t, flow)
      invariant forall u :: 0 <= u < g.segments.Length ==> g.segments[u] == old(g.segments[u])
      decreases SumWhere(g.capacity[..], vs, t, n)
    {
      var done;
      ghost var res0 := g.capacity[..];
      done, flow := Round(g, q, flow, cap, res0);
      if done {
        break;
      }
      SumNonneg(g.capacity[..], vs, t, n);
    }
    MarkCut(g);
  }

  /** Lines 355-374 as written: one turn of the loop with the backtrack that stops below `s`. */
  method RoundAsWritten(g: Graph, q: Queue, flow0: int, ghost cap: seq<int>, ghost res0: seq<int>) returns (done: bool, flow: int)
    requires Ready(g, q) == true && g.capacity[..] == res0 && FlowingAsWritten(res0, cap, g.owner, g.pixel[..], g.nrEdges, g.t, flow0)
    modifies g.parent, g.capacity, q, q.data
    ensures Ready(g, q) == true && FlowingAsWritten(g.capacity[..], cap, g.owner, g.pixel[..], g.nrEdges, g.t, flow)
    ensures done ==> Settled(g.parent[..], g.owner, g.pixel[..], g.capacity[..], g.nrEdges, g.t)
    ensures !done ==> SumWhere(g.capacity[..], g.pixel[..], g.t, g.nrEdges) < SumWhere(res0, g.pixel[..], g.t, g.nrEdges)
  {
    ghost var owner, vs, n, t := g.owner, g.pixel[..], g.nrEdges, g.t;
    var found, df;
    ghost var rank, pe;
    found, df, rank, pe := Bfs(g, q, INF);
    flow := flow0;
    done := true;
    if !found {
      return;
    }
    UnsealTree(g.t, g.parent[..], rank, pe, owner, vs, res0, n, t, df);
    if df == 0 || df == INF {
      return;
    }
    ghost var last, path, steps := AugmentAsWritten(g, df, rank, pe, res0);
    FlowingAsWrittenStep(g.capacity[..], res0, cap, g.parent[..], rank, pe, owner, vs, n, t, df, flow0, last);
    flow, done := flow0 + df, false;
  }

  /**
   * Lines 336-392, `edmonds_karp` as written: the same loop, but each
   * augmentation leaves the edge out of `s` untouched, so the flow counts
   * what the edges into `t` have lost while every edge out of `s` keeps its
   * capacity.
   */
  method EdmondsKarpAsWritten(g: Graph, ghost cap: seq<int>) returns (flow: int)
    requires g.Valid() == true && Simple(g.owner, g.pixel[..], g.nrEdges, g.t) && g.capacity[..] == cap && NonNeg(cap)
    modifies g.parent, g.capacity, g.segments
    ensures g.Valid() == true
    ensures FlowingAsWritten(g.capacity[..], cap, g.owner, g.pixel[..], g.nrEdges, g.t, flow)
    ensures Settled(g.parent[..], g.owner, g.pixel[..], g.capacity[..], g.nrEdges, g.t)
    ensures forall u :: 1 <= u < g.t ==> g.segments[u] == (if g.parent[u] != NIL then 'C' else old(g.segments[u]))
  {
    ghost var owner, vs, n, t := g.owner, g.pixel[..], g.nrEdges, g.t;
    var q := new Queue(g.nrVertices + 1, false);
    flow := 0;
    SumNonneg(cap, vs, t, n);
    while true
      invariant Ready(g, q) == true && fresh(q.data) && g.pixel[..] == vs && g.owner == owner && g.nrEdges == n
      invariant FlowingAsWritten(g.capacity[..], cap, owner, vs, n, t, flow)
      invariant forall u :: 0 <= u < g.segments.Length ==> g.segments[u] == old(g.segments[u])
      decreases SumWhere(g.capacity[..], vs, t, n)
    {
      var done;
      ghost var res0 := g.capacity[..];
      done, flow := RoundAsWritten(g, q, flow, cap, res0);
      if done {
        break;
      }
      SumNonneg(g.capacity[..], vs, t, n);
    }
    MarkCut(g);
  }

  /**
   * Lines 394-411, `update_weights` corrected: the weight grows by the flow
   * the corrected `edmonds_karp` finds, which is at most the capacity into
   * `t`.
   */
  method UpdateWeights(g: Graph, ghost cap: seq<int>, ghost w0: int)
    requires g.Valid() == true && Simple(g.owner, g.pixel[..], g.nrEdges, g.t) && g.capacity[..] == cap && NonNeg(cap) && g.weight == w0
    modifies g`weight, g.parent, g.capacity, g.segments
    ensures g.Valid() == true
    ensures Flowing(g.capacity[..], cap, g.owner, g.pixel[..], g.nrEdges, g.t, g.weight - w0)
    ensures w0 <= g.weight <= w0 + SumWhere(cap, g.pixel[..], g.t, g.nrEdges)
    ensures Settled(g.parent[..], g.owner, g.pixel[..], g.capacity[..], g.nrEdges, g.t)
  {
    var flow := EdmondsKarp(g, cap);
    FlowBound(g.capacity[..], cap, g.owner, g.pixel[..], g.nrEdges, g.t, flow);
    g.weight := g.weight + flow;
  }

  /**
   * Lines 394-411 as written: `update_weights` calls the `edmonds_karp`
   * whose backtrack stops below `s`, so the weight grows by what the edges
   * into `t` have lost, while every edge out of `s` keeps its capacity.
   */
  method UpdateWeightsAsWritten(g: Graph, ghost cap: seq<int>, ghost w0: int)
    requires g.Valid() == true && Simple(g.owner, g.pixel[..], g.nrEdges, g.t) && g.capacity[..] == cap && NonNeg(cap) && g.weight == w0
    modifies g`weight, g.parent, g.capacity, g.segments
    ensures g.Valid() == true
    ensures FlowingAsWritten(g.capacity[..], cap, g.owner, g.pixel[..], g.nrEdges, g.t, g.weight - w0)
    ensures w0 <= g.weight <= w0 + SumWhere(cap, g.pixel[..], g.t, g.nrEdges)
    ensures Settled(g.parent[..], g.owner, g.pixel[..], g.capacity[..], g.nrEdges, g.t)
  {
    var flow := EdmondsKarpAsWritten(g, cap);
    SumNonneg(g.capacity[..], g.pixel[..], g.t, g.nrEdges);
    g.weight := g.weight + flow;
  }
}
