/**
 * The breadth-first search `bfs` of proj/2017-2018/p2/src/proj.c, lines
 * 306-334, stated on the contents of its arrays.  A vertex is reached when it
 * is `s` or has a parent; each reached vertex `v` other than `s` has a tree
 * edge `pe[v]` from `parent[v]`, reached before it (a smaller ghost `rank`),
 * with positive residual no smaller than the bottleneck `df`.  The queue's
 * history `hist` (every id ever pushed since the reset) holds `s` and every
 * reached vertex but `t`, each once; the chains of the popped ones are fully
 * scanned unless `t` has been found.
 */
module PixelSearch {
  import opened Seqs
  import opened Chains
  import opened PixelNet

  /** Line 19 (`min`): the second argument when the first is larger. */
  function Min(a: int, b: int): (r: int)
    ensures r <= a && r <= b && (r == a || r == b)
  {
    if a > b then b else a
  }

  /** `v` is `s` or has a parent. */
  ghost predicate Reached(parent: seq<int>, v: int)
  {
    0 <= v < |parent| && (v == 0 || parent[v] != NIL)
  }

  /** The tree edge of `v`: from `parent[v]`, reached with a smaller rank, into `v`, with residual at least `df` and positive. */
  ghost predicate TreeEdge(parent: seq<int>, rank: seq<int>, pe: seq<int>, owner: seq<int>, vs: seq<int>, res: seq<int>, n: int, t: int, df: int, v: int)
    requires 0 <= v < |parent| == t + 1 && |rank| == |parent| && |pe| == |parent| && n < |owner| && n < |vs| && n < |res|
  {
    && 0 <= parent[v] < t && Reached(parent, parent[v]) && 0 <= rank[parent[v]] < rank[v]
    && 1 <= pe[v] <= n && owner[pe[v]] == parent[v] && vs[pe[v]] == v && 0 < res[pe[v]] && df <= res[pe[v]]
  }

  /** Every vertex with a parent has its tree edge. */
  ghost predicate Tree(parent: seq<int>, rank: seq<int>, pe: seq<int>, owner: seq<int>, vs: seq<int>, res: seq<int>, n: int, t: int, df: int)
  {
    && 1 <= t && |parent| == t + 1 && |rank| == t + 1 && |pe| == t + 1 && 0 <= n < |owner| && n < |vs| && n < |res|
    && rank[0] == 0
    && forall v :: 1 <= v <= t && parent[v] != NIL ==> TreeEdge(parent, rank, pe, owner, vs, res, n, t, df, v)
  }

  /** The queue's history: `s` first, every id once, all below `t`, exactly the reached vertices other than `t`. */
  ghost predicate Hist(parent: seq<int>, hist: seq<int>, t: int)
  {
    && |parent| == t + 1 && |hist| >= 1 && hist[0] == 0 && Distinct(hist) && AllIn(hist, 0, t)
    && (forall i :: 0 <= i < |hist| ==> Reached(parent, hist[i]))
    && (forall v :: 0 <= v < t && Reached(parent, v) ==> v in hist)
  }

  /** The first `k` edges of chain `ch` lead, when their residual is positive, to reached vertices. */
  ghost predicate Scanned(parent: seq<int>, vs: seq<int>, res: seq<int>, ch: seq<int>, k: int)
  {
    forall j :: 0 <= j < k && j < |ch| && 0 <= ch[j] < |res| && 0 <= ch[j] < |vs| && 0 < res[ch[j]] ==> Reached(parent, vs[ch[j]])
  }

  /**
   * The chains of `hist[..m]` are scanned in full, and the first `k` edges
   * of the chain of `hist[m]`.
   */
  ghost predicate Swept(parent: seq<int>, vs: seq<int>, res: seq<int>, chains: seq<seq<int>>, hist: seq<int>, m: int, k: int)
  {
    && (forall i :: 0 <= i < m && i < |hist| && 0 <= hist[i] < |chains| ==> Scanned(parent, vs, res, chains[hist[i]], |chains[hist[i]]|))
    && (0 <= m < |hist| && 0 <= hist[m] < |chains| ==> Scanned(parent, vs, res, chains[hist[m]], k))
  }

  /**
   * `Tree`, `Hist` and `Swept` behind `depth` steps of recursion, as
   * `PixelNet.SealedNet` hides `Net`: the search states below carry them,
   * for a `depth` that is not a literal, without the verifier expanding
   * them, and the step lemmas convert them with `Unseal...` and `Seal...`
   * where a step reads or rebuilds them.
   */
  ghost predicate SealedTree(depth: int, parent: seq<int>, rank: seq<int>, pe: seq<int>, owner: seq<int>, vs: seq<int>, res: seq<int>, n: int, t: int, df: int)
    decreases if depth < 0 then 0 else depth
  {
    if depth <= 0 then Tree(parent, rank, pe, owner, vs, res, n, t, df) else SealedTree(depth - 1, parent, rank, pe, owner, vs, res, n, t, df)
  }

  ghost predicate SealedHist(depth: int, parent: seq<int>, hist: seq<int>, t: int)
    decreases if depth < 0 then 0 else depth
  {
    if depth <= 0 then Hist(parent, hist, t) else SealedHist(depth - 1, parent, hist, t)
  }

  ghost predicate SealedSwept(depth: int, parent: seq<int>, vs: seq<int>, res: seq<int>, chains: seq<seq<int>>, hist: seq<int>, m: int, k: int)
    decreases if depth < 0 then 0 else depth
  {
    if depth <= 0 then Swept(parent, vs, res, chains, hist, m, k) else SealedSwept(depth - 1, parent, vs, res, chains, hist, m, k)
  }

  lemma {:induction false} UnsealTree(depth: int, parent: seq<int>, rank: seq<int>, pe: seq<int>, owner: seq<int>, vs: seq<int>, res: seq<int>, n: int, t: int, df: int)
    requires SealedTree(depth, parent, rank, pe, owner, vs, res, n, t, df)
    ensures Tree(parent, rank, pe, owner, vs, res, n, t, df)
    decreases if depth < 0 then 0 else depth
  {
    if depth > 0 {
      UnsealTree(depth - 1, parent, rank, pe, owner, vs, res, n, t, df);
    }
  }

  lemma {:induction false} SealTree(depth: int, parent: seq<int>, rank: seq<int>, pe: seq<int>, owner: seq<int>, vs: seq<int>, res: seq<int>, n: int, t: int, df: int)
    requires Tree(parent, rank, pe, owner, vs, res, n, t, df)
    ensures SealedTree(depth, parent, rank, pe, owner, vs, res, n, t, df)
    decreases if depth < 0 then 0 else depth
  {
    if depth > 0 {
      SealTree(depth - 1, parent, rank, pe, owner, vs, res, n, t, df);
    }
  }

  lemma {:induction false} UnsealHist(depth: int, parent: seq<int>, hist: seq<int>, t: int)
    requires SealedHist(depth, parent, hist, t)
    ensures Hist(parent, hist, t)
    decreases if depth < 0 then 0 else depth
  {
    if depth > 0 {
      UnsealHist(depth - 1, parent, hist, t);
    }
  }

  lemma {:induction false} SealHist(depth: int, parent: seq<int>, hist: seq<int>, t: int)
    requires Hist(parent, hist, t)
    ensures SealedHist(depth, parent, hist, t)
    decreases if depth < 0 then 0 else depth
  {
    if depth > 0 {
      SealHist(depth - 1, parent, hist, t);
    }
  }

  lemma {:induction false} UnsealSwept(depth: int, parent: seq<int>, vs: seq<int>, res: seq<int>, chains: seq<seq<int>>, hist: seq<int>, m: int, k: int)
    requires SealedSwept(depth, parent, vs, res, chains, hist, m, k)
    ensures Swept(parent, vs, res, chains, hist, m, k)
    decreases if depth < 0 then 0 else depth
  {
    if depth > 0 {
      UnsealSwept(depth - 1, parent, vs, res, chains, hist, m, k);
    }
  }

  lemma {:induction false} SealSwept(depth: int, parent: seq<int>, vs: seq<int>, res: seq<int>, chains: seq<seq<int>>, hist: seq<int>, m: int, k: int)
    requires Swept(parent, vs, res, chains, hist, m, k)
    ensures SealedSwept(depth, parent, vs, res, chains, hist, m, k)
    decreases if depth < 0 then 0 else depth
  {
    if depth > 0 {
      SealSwept(depth - 1, parent, vs, res, chains, hist, m, k);
    }
  }

  /** The sizes every search state fixes. */
  ghost predicate Shape(parent: seq<int>, rank: seq<int>, pe: seq<int>, chains: seq<seq<int>>, owner: seq<int>, vs: seq<int>, res: seq<int>, n: int, t: int)
  {
    1 <= t && |parent| == t + 1 && |rank| == t + 1 && |pe| == t + 1 && |chains| == t + 1 && 0 <= n < |owner| && n < |vs| && n < |res|
  }

  /** Between two pops: the popped vertices' chains are scanned unless `t` has a parent. */
  ghost predicate Searching(parent: seq<int>, rank: seq<int>, pe: seq<int>, hist: seq<int>, front: int,
                            chains: seq<seq<int>>, owner: seq<int>, vs: seq<int>, res: seq<int>, n: int, t: int, df: int)
  {
    && Shape(parent, rank, pe, chains, owner, vs, res, n, t) && 0 <= front <= |hist|
    && SealedTree(t, parent, rank, pe, owner, vs, res, n, t, df) && SealedHist(t, parent, hist, t)
    && (parent[t] == NIL ==> SealedSwept(t, parent, vs, res, chains, hist, front, 0))
  }

  /** During the scan of the last popped vertex, after `k` of its edges. */
  ghost predicate Scanning(parent: seq<int>, rank: seq<int>, pe: seq<int>, hist: seq<int>, front: int,
                           chains: seq<seq<int>>, owner: seq<int>, vs: seq<int>, res: seq<int>, n: int, t: int, df: int, k: int)
  {
    && Shape(parent, rank, pe, chains, owner, vs, res, n, t) && 1 <= front <= |hist| && 0 <= hist[front - 1] < t
    && 0 <= k <= |chains[hist[front - 1]]|
    && SealedTree(t, parent, rank, pe, owner, vs, res, n, t, df) && SealedHist(t, parent, hist, t)
    && (parent[t] == NIL ==> SealedSwept(t, parent, vs, res, chains, hist, front - 1, k))
  }

  /** No edge with positive residual leaves the reached set. */
  ghost predicate Closed(parent: seq<int>, owner: seq<int>, vs: seq<int>, res: seq<int>, n: int)
  {
    forall e :: 1 <= e <= n && e < |owner| && e < |vs| && e < |res| && Reached(parent, owner[e]) && 0 < res[e] ==> Reached(parent, vs[e])
  }

  /** Reached vertices stay reached. */
  ghost predicate Grows(parent: seq<int>, parent': seq<int>)
  {
    |parent'| == |parent| && forall v :: Reached(parent, v) ==> Reached(parent', v)
  }

  /** Lines 309-313: every vertex but `s` without a parent and `s` queued start the search. */
  lemma SearchStart(parent: seq<int>, rank: seq<int>, pe: seq<int>, chains: seq<seq<int>>, owner: seq<int>, vs: seq<int>, res: seq<int>, n: int, t: int, df: int)
    requires Shape(parent, rank, pe, chains, owner, vs, res, n, t) && rank[0] == 0 && forall v :: 1 <= v <= t ==> parent[v] == NIL
    ensures Searching(parent, rank, pe, [0], 0, chains, owner, vs, res, n, t, df)
  {
    forall v | 0 <= v < t && Reached(parent, v) ensures v in [0] {
      assert v == 0;
    }
    SealTree(t, parent, rank, pe, owner, vs, res, n, t, df);
    SealHist(t, parent, [0], t);
    SealSwept(t, parent, vs, res, chains, [0], 0, 0);
  }

  /** Line 318: popping the next vertex, an id below `t`, starts the scan of its chain. */
  lemma PopStart(parent: seq<int>, rank: seq<int>, pe: seq<int>, hist: seq<int>, front: int,
                 chains: seq<seq<int>>, owner: seq<int>, vs: seq<int>, res: seq<int>, n: int, t: int, df: int)
    requires Searching(parent, rank, pe, hist, front, chains, owner, vs, res, n, t, df) && front < |hist|
    ensures Scanning(parent, rank, pe, hist, front + 1, chains, owner, vs, res, n, t, df, 0) && 0 <= hist[front] < t
  {
    UnsealHist(t, parent, hist, t);
  }

  /** Lines 320 and 327: a scan that reaches the chain's end, or breaks once `t` has a parent, completes the pop. */
  lemma ScanDone(parent: seq<int>, rank: seq<int>, pe: seq<int>, hist: seq<int>, front: int,
                 chains: seq<seq<int>>, owner: seq<int>, vs: seq<int>, res: seq<int>, n: int, t: int, df: int, k: int)
    requires Scanning(parent, rank, pe, hist, front, chains, owner, vs, res, n, t, df, k)
    requires k == |chains[hist[front - 1]]| || parent[t] != NIL
    ensures Searching(parent, rank, pe, hist, front, chains, owner, vs, res, n, t, df)
  {
    if parent[t] == NIL {
      UnsealSwept(t, parent, vs, res, chains, hist, front - 1, k);
      SealSwept(t, parent, vs, res, chains, hist, front, 0);
    }
  }

  /** Line 324, condition false: an edge that is saturated or leads to a reached vertex needs nothing. */
  lemma ScanSkip(parent: seq<int>, rank: seq<int>, pe: seq<int>, hist: seq<int>, front: int,
                 chains: seq<seq<int>>, owner: seq<int>, vs: seq<int>, res: seq<int>, n: int, t: int, df: int, k: int)
    requires Scanning(parent, rank, pe, hist, front, chains, owner, vs, res, n, t, df, k)
    requires k < |chains[hist[front - 1]]|
    requires var e := chains[hist[front - 1]][k]; 0 <= e < |res| && 0 <= e < |vs| && 0 <= vs[e] <= t && !(parent[vs[e]] == NIL && 0 < res[e])
    ensures Scanning(parent, rank, pe, hist, front, chains, owner, vs, res, n, t, df, k + 1)
  {
    var ch := chains[hist[front - 1]];
    var e := ch[k];
    if parent[t] == NIL {
      UnsealSwept(t, parent, vs, res, chains, hist, front - 1, k);
      forall j | 0 <= j < k + 1 && j < |ch| && 0 <= ch[j] < |res| && 0 <= ch[j] < |vs| && 0 < res[ch[j]]
        ensures Reached(parent, vs[ch[j]])
      {
        if j == k {
          assert vs[e] == 0 || parent[vs[e]] != NIL;
        }
      }
      SealSwept(t, parent, vs, res, chains, hist, front - 1, k + 1);
    }
  }

  /** Reached vertices keep their ranks when `v`, not reached, is discovered from `u`. */
  lemma TreeGrow(parent: seq<int>, rank: seq<int>, pe: seq<int>, owner: seq<int>, vs: seq<int>, res: seq<int>, n: int, t: int, df: int,
                 u: int, v: int, e: int)
    requires Tree(parent, rank, pe, owner, vs, res, n, t, df)
    requires Reached(parent, u) && u < t && 1 <= v <= t && parent[v] == NIL
    requires 1 <= e <= n && owner[e] == u && vs[e] == v && 0 < res[e]
    ensures Tree(parent[v := u], rank[v := rank[u] + 1], pe[v := e], owner, vs, res, n, t, Min(df, res[e]))
  {
    var p', r', q', d' := parent[v := u], rank[v := rank[u] + 1], pe[v := e], Min(df, res[e]);
    if u != 0 {
      assert TreeEdge(parent, rank, pe, owner, vs, res, n, t, df, u);
    }
    forall w | 1 <= w <= t && p'[w] != NIL ensures TreeEdge(p', r', q', owner, vs, res, n, t, d', w) {
      if w != v {
        assert TreeEdge(parent, rank, pe, owner, vs, res, n, t, df, w);
        assert parent[w] != v;
      }
    }
  }

  /** A vertex other than `t` discovered from `u` joins the history. */
  lemma HistGrow(parent: seq<int>, hist: seq<int>, t: int, u: int, v: int)
    requires Hist(parent, hist, t) && 0 <= u && 1 <= v < t && parent[v] == NIL
    ensures Hist(parent[v := u], hist + [v], t) && |hist| + 1 <= t
  {
    var p', h' := parent[v := u], hist + [v];
    assert v !in hist by {
      forall i | 0 <= i < |hist| ensures hist[i] != v {
        assert Reached(parent, hist[i]);
      }
    }
    forall i | 0 <= i < |h'| ensures Reached(p', h'[i]) {
      if i < |hist| {
        assert Reached(parent, hist[i]);
      }
    }
    forall w | 0 <= w < t && Reached(p', w) ensures w in h' {
      if w != v {
        assert Reached(parent, w) && w in hist;
      }
    }
    DistinctBounded(h', 0, t);
  }

  /** Finding `t` gives it a parent; the history is unchanged. */
  lemma HistSink(parent: seq<int>, hist: seq<int>, t: int, u: int)
    requires Hist(parent, hist, t) && 0 <= u
    ensures Hist(parent[t := u], hist, t)
  {
    var p' := parent[t := u];
    forall i | 0 <= i < |hist| ensures Reached(p', hist[i]) {
      assert Reached(parent, hist[i]);
    }
    forall w | 0 <= w < t && Reached(p', w) ensures w in hist {
      assert Reached(parent, w);
    }
  }

  /** Scanned edges stay scanned as the reached set grows. */
  lemma ScannedGrows(parent: seq<int>, parent': seq<int>, vs: seq<int>, res: seq<int>, ch: seq<int>, k: int)
    requires Scanned(parent, vs, res, ch, k) && Grows(parent, parent')
    ensures Scanned(parent', vs, res, ch, k)
  {
  }

  /** Discovering `v` from `u` through edge `e` grows the sealed tree. */
  lemma FindTree(parent: seq<int>, rank: seq<int>, pe: seq<int>, owner: seq<int>, vs: seq<int>, res: seq<int>, n: int, t: int, df: int,
                 u: int, v: int, e: int)
    requires SealedTree(t, parent, rank, pe, owner, vs, res, n, t, df)
    requires |parent| == t + 1 && |rank| == t + 1 && |pe| == t + 1 && 0 <= n < |owner| && n < |vs| && n < |res|
    requires Reached(parent, u) && u < t && 1 <= v <= t && parent[v] == NIL
    requires 1 <= e <= n && owner[e] == u && vs[e] == v && 0 < res[e]
    ensures SealedTree(t, parent[v := u], rank[v := rank[u] + 1], pe[v := e], owner, vs, res, n, t, Min(df, res[e]))
  {
    UnsealTree(t, parent, rank, pe, owner, vs, res, n, t, df);
    TreeGrow(parent, rank, pe, owner, vs, res, n, t, df, u, v, e);
    SealTree(t, parent[v := u], rank[v := rank[u] + 1], pe[v := e], owner, vs, res, n, t, Min(df, res[e]));
  }

  /** Discovering `v` from `hist[i]` grows the sealed history by `v` unless `v` is `t`. */
  lemma FindHist(parent: seq<int>, hist: seq<int>, t: int, i: int, v: int)
    requires SealedHist(t, parent, hist, t) && |parent| == t + 1 && 0 <= i < |hist| && 1 <= v <= t && parent[v] == NIL
    ensures Reached(parent, hist[i]) && 0 <= hist[i] < t
    ensures SealedHist(t, parent[v := hist[i]], if v == t then hist else hist + [v], t)
    ensures v != t ==> |hist| + 1 <= t
  {
    UnsealHist(t, parent, hist, t);
    if v == t {
      HistSink(parent, hist, t, hist[i]);
      SealHist(t, parent[v := hist[i]], hist, t);
    } else {
      HistGrow(parent, hist, t, hist[i], v);
      SealHist(t, parent[v := hist[i]], hist + [v], t);
    }
  }

  /** Discovering `v`, not `t`, through the `k`-th edge of the chain of `hist[m]` extends the sealed scan by that edge. */
  lemma FindSwept(parent: seq<int>, vs: seq<int>, res: seq<int>, chains: seq<seq<int>>, hist: seq<int>, t: int, m: int, k: int, v: int)
    requires SealedSwept(t, parent, vs, res, chains, hist, m, k) && |parent| == t + 1
    requires 0 <= m < |hist| && 0 <= hist[m] < |chains| && 0 <= k < |chains[hist[m]]|
    requires 0 <= chains[hist[m]][k] < |vs| && vs[chains[hist[m]][k]] == v && 1 <= v < t && 0 <= hist[m]
    ensures SealedSwept(t, parent[v := hist[m]], vs, res, chains, hist + [v], m, k + 1)
  {
    var u, p', h' := hist[m], parent[v := hist[m]], hist + [v];
    UnsealSwept(t, parent, vs, res, chains, hist, m, k);
    assert Grows(parent, p');
    forall i | 0 <= i < m && i < |h'| && 0 <= h'[i] < |chains|
      ensures Scanned(p', vs, res, chains[h'[i]], |chains[h'[i]]|)
    {
      assert h'[i] == hist[i];
      ScannedGrows(parent, p', vs, res, chains[hist[i]], |chains[hist[i]]|);
    }
    ScannedGrows(parent, p', vs, res, chains[u], k);
    assert h'[m] == u;
    SealSwept(t, p', vs, res, chains, h', m, k + 1);
  }

  /** Lines 324-329: discovering `v` through the `k`-th edge of the popped vertex's chain, and queueing it unless it is `t`. */
  lemma ScanFind(parent: seq<int>, rank: seq<int>, pe: seq<int>, hist: seq<int>, front: int,
                 chains: seq<seq<int>>, owner: seq<int>, vs: seq<int>, res: seq<int>, n: int, t: int, df: int, k: int)
    requires Scanning(parent, rank, pe, hist, front, chains, owner, vs, res, n, t, df, k)
    requires k < |chains[hist[front - 1]]|
    requires var e := chains[hist[front - 1]][k]; 1 <= e <= n && owner[e] == hist[front - 1] && 1 <= vs[e] <= t
    requires var e := chains[hist[front - 1]][k]; parent[vs[e]] == NIL && 0 < res[e]
    ensures var u, e := hist[front - 1], chains[hist[front - 1]][k];
            var v := vs[e];
            Scanning(parent[v := u], rank[v := rank[u] + 1], pe[v := e], if v == t then hist else hist + [v], front,
                     chains, owner, vs, res, n, t, Min(df, res[e]), k + 1)
    ensures var v := vs[chains[hist[front - 1]][k]]; v != t ==> |hist| + 1 <= t
  {
    var u, e := hist[front - 1], chains[hist[front - 1]][k];
    var v := vs[e];
    FindHist(parent, hist, t, front - 1, v);
    FindTree(parent, rank, pe, owner, vs, res, n, t, df, u, v, e);
    if v != t {
      assert (hist + [v])[front - 1] == u;
      if parent[t] == NIL {
        FindSwept(parent, vs, res, chains, hist, t, front - 1, k, v);
      }
    }
  }

  /** Every edge `1..n` joins two vertices of `0..t`. */
  ghost predicate Ranged(owner: seq<int>, vs: seq<int>, n: int, t: int)
  {
    0 <= n < |owner| && n < |vs| && forall e :: 1 <= e <= n ==> 0 <= owner[e] <= t && 0 <= vs[e] <= t
  }

  /** Line 333 when the queue drains without `t`: no residual edge leaves the reached set. */
  lemma SearchEnd(parent: seq<int>, rank: seq<int>, pe: seq<int>, hist: seq<int>,
                  chains: seq<seq<int>>, owner: seq<int>, vs: seq<int>, res: seq<int>, n: int, t: int, df: int)
    requires Searching(parent, rank, pe, hist, |hist|, chains, owner, vs, res, n, t, df) && parent[t] == NIL
    requires Complete(chains, owner, n) && Ranged(owner, vs, n, t)
    ensures Closed(parent, owner, vs, res, n)
  {
    UnsealHist(t, parent, hist, t);
    UnsealSwept(t, parent, vs, res, chains, hist, |hist|, 0);
    forall e | 1 <= e <= n && e < |owner| && e < |vs| && e < |res| && Reached(parent, owner[e]) && 0 < res[e]
      ensures Reached(parent, vs[e])
    {
      var u := owner[e];
      assert u in hist;
      var i :| 0 <= i < |hist| && hist[i] == u;
      var j :| 0 <= j < |chains[u]| && chains[u][j] == e;
      assert Scanned(parent, vs, res, chains[hist[i]], |chains[hist[i]]|);
    }
  }

  /** A search state holds the search tree. */
  lemma SearchTree(parent: seq<int>, rank: seq<int>, pe: seq<int>, hist: seq<int>, front: int,
                   chains: seq<seq<int>>, owner: seq<int>, vs: seq<int>, res: seq<int>, n: int, t: int, df: int)
    requires Searching(parent, rank, pe, hist, front, chains, owner, vs, res, n, t, df)
    ensures Tree(parent, rank, pe, owner, vs, res, n, t, df) && |hist| <= t
  {
    UnsealTree(t, parent, rank, pe, owner, vs, res, n, t, df);
    UnsealHist(t, parent, hist, t);
    HistBound(parent, hist, t);
  }

  /** The history never outgrows `t` ids, so a queue of `t + 1` slots has room. */
  lemma HistBound(parent: seq<int>, hist: seq<int>, t: int)
    requires Hist(parent, hist, t)
    ensures |hist| <= t
  {
    DistinctBounded(hist, 0, t);
  }

  /**
   * `p` is a walk along edges `1..n` with positive residual from `a` to
   * `b`: each edge starts where the one before it ends.
   */
  ghost predicate ResidualWalk(p: seq<int>, a: int, b: int, owner: seq<int>, vs: seq<int>, res: seq<int>, n: int)
  {
    && (forall i :: 0 <= i < |p| ==> 1 <= p[i] <= n && p[i] < |owner| && p[i] < |vs| && p[i] < |res| && 0 < res[p[i]])
    && (p == [] ==> a == b)
    && (p != [] ==> owner[p[0]] == a && vs[p[|p| - 1]] == b)
    && (forall i :: 0 <= i < |p| - 1 ==> vs[p[i]] == owner[p[i + 1]])
  }

  /** A residual walk out of a closed reached set never leaves it. */
  lemma {:induction false} ClosedWalk(parent: seq<int>, owner: seq<int>, vs: seq<int>, res: seq<int>, n: int, p: seq<int>, a: int, b: int)
    requires Closed(parent, owner, vs, res, n) && Reached(parent, a) && ResidualWalk(p, a, b, owner, vs, res, n)
    ensures Reached(parent, b)
  {
    if p != [] {
      var e := p[0];
      assert Reached(parent, vs[e]);
      assert forall i :: 0 <= i < |p[1..]| ==> p[1..][i] == p[i + 1];
      ClosedWalk(parent, owner, vs, res, n, p[1..], vs[e], b);
    }
  }

  /** The tree edges from `s` down to a reached `v`: a residual walk whose every edge has residual at least `df`. */
  lemma {:induction false} TreeWalk(parent: seq<int>, rank: seq<int>, pe: seq<int>, owner: seq<int>, vs: seq<int>, res: seq<int>,
                                    n: int, t: int, df: int, v: int) returns (p: seq<int>)
    requires Tree(parent, rank, pe, owner, vs, res, n, t, df) && Reached(parent, v) && v <= t
    ensures ResidualWalk(p, 0, v, owner, vs, res, n) && forall i :: 0 <= i < |p| ==> df <= res[p[i]]
    decreases if v == 0 then 0 else rank[v]
  {
    if v == 0 {
      p := [];
    } else {
      assert TreeEdge(parent, rank, pe, owner, vs, res, n, t, df, v);
      var p0 := TreeWalk(parent, rank, pe, owner, vs, res, n, t, df, parent[v]);
      p := p0 + [pe[v]];
      assert forall i :: 0 <= i < |p0| ==> p[i] == p0[i];
    }
  }

  /**
   * Line 333, what `bfs` answers: once the search has ended (`t` found, or
   * the reached set closed), `t` has a parent exactly when some residual
   * walk leads from `s` to `t`.
   */
  lemma SearchAnswer(parent: seq<int>, rank: seq<int>, pe: seq<int>, owner: seq<int>, vs: seq<int>, res: seq<int>, n: int, t: int, df: int)
    requires Tree(parent, rank, pe, owner, vs, res, n, t, df) && (parent[t] == NIL ==> Closed(parent, owner, vs, res, n))
    ensures (parent[t] != NIL) <==> exists p :: ResidualWalk(p, 0, t, owner, vs, res, n)
  {
    if parent[t] != NIL {
      var p := TreeWalk(parent, rank, pe, owner, vs, res, n, t, df, t);
    } else {
      forall p | ResidualWalk(p, 0, t, owner, vs, res, n) ensures false {
        ClosedWalk(parent, owner, vs, res, n, p, 0, t);
      }
    }
  }
}
