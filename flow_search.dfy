/**
 * The search state of `Graph::BFS` and the path walk of `GetMaxFlow` in
 * proj/2020-2021/p2/src/proj.cpp, stated on sequences.  The search is the
 * one of module PixelSearch, run on the ghost vertex parents `gp` (NIL for
 * a vertex not reached, and any other value for `s`); the real arrays of
 * the source are tied to it here: `visited` marks the reached vertices
 * other than the sink, and `parent` holds, for each reached vertex, the
 * index of its tree edge rather than its parent vertex.
 */
module FlowSearch {
  import opened Chains
  import opened PixelNet
  import opened PixelSearch

  /**
   * What the scan of the chain `ch` of vertex `u` reads (lines 180-182):
   * its head in `f`, and for each of its edges an edge `1..n` of `u` into a
   * vertex of `0..t`, with its successor in `x`.
   */
  ghost predicate Scannable(f: seq<int>, x: seq<int>, hs: seq<int>, ch: seq<int>, owner: seq<int>, n: int, t: int, u: int)
  {
    && 0 <= u < |f| && f[u] == Head(ch)
    && forall k :: 0 <= k < |ch| ==>
         && 1 <= ch[k] <= n && ch[k] < |x| && ch[k] < |hs| && ch[k] < |owner|
         && owner[ch[k]] == u && x[ch[k]] == Succ(ch, k) && 0 <= hs[ch[k]] <= t
  }

  /**
   * Lines 166-172 and 195: `visited` marks `s` and exactly the reached
   * vertices below the sink; the sink is never marked.
   */
  ghost predicate Visits(visited: seq<bool>, gp: seq<int>, t: int)
  {
    && 1 <= t && |visited| == t + 1 && |gp| == t + 1 && gp[0] != NIL && !visited[t]
    && forall w :: 0 <= w < t ==> visited[w] == (gp[w] != NIL)
  }

  /** Lines 173 and 191: `parent` holds -1 for `s` and, for each reached vertex, the index of its tree edge. */
  ghost predicate Parents(parent: seq<int>, gp: seq<int>, pe: seq<int>, t: int)
  {
    && 1 <= t && |parent| == t + 1 && |gp| == t + 1 && |pe| == t + 1 && parent[0] == -1
    && forall w :: 1 <= w <= t && gp[w] != NIL ==> parent[w] == pe[w]
  }

  /** Line 173 onwards: `s` marked, with parent entry -1, and nothing else reached. */
  lemma SearchMarks(visited: seq<bool>, parent: seq<int>, gp: seq<int>, pe: seq<int>, t: int)
    requires 1 <= t && |visited| == t + 1 && |parent| == t + 1 && |pe| == t + 1 && parent[0] == -1
    requires visited[0] && forall w :: 1 <= w <= t ==> !visited[w]
    requires gp == seq(t + 1, w => if w == 0 then 0 else NIL)
    ensures Visits(visited, gp, t) && Parents(parent, gp, pe, t)
    ensures forall w :: 1 <= w <= t ==> gp[w] == NIL
  {
  }

  /** Some residual walk leads from `s` to `t`. */
  ghost predicate Augmentable(owner: seq<int>, vs: seq<int>, res: seq<int>, n: int, t: int)
  {
    exists p :: ResidualWalk(p, 0, t, owner, vs, res, n)
  }

  /**
   * `w` lies on the walk of lines 218-224 from `x` down to `s`: `x` itself,
   * or on the walk from the parent of `x`, a vertex of smaller rank.
   */
  ghost predicate OnPath(gp: seq<int>, rank: seq<int>, x: int, w: int)
    decreases if 0 <= x < |rank| then rank[x] else 0
  {
    && 0 <= x < |gp| && |rank| == |gp|
    && (x == w || (x != 0 && 0 <= gp[x] < |gp| && 0 <= rank[gp[x]] < rank[x] && OnPath(gp, rank, gp[x], w)))
  }

  /** The walk from `x` that passes `v` goes on to the parent of `v`. */
  lemma {:induction false} OnPathNext(gp: seq<int>, rank: seq<int>, x: int, v: int)
    requires OnPath(gp, rank, x, v) && 0 < v < |gp| && 0 <= gp[v] < |gp| && 0 <= rank[gp[v]] < rank[v]
    ensures OnPath(gp, rank, x, gp[v])
    decreases rank[x]
  {
    if x != v {
      OnPathNext(gp, rank, gp[x], v);
    }
  }

  /**
   * The walk of lines 218-224 has gone from the sink `t` down to `v`: `gq`
   * holds the parents, taken from the search tree, of the vertices left so
   * far, all on the walk from `t`; each of their tree edges has residual at
   * least `pf`, and each parent is `v` or itself has a parent in `gq`.
   * `pf` is INT_MAX or the residual of the tree edge of `at`.
   */
  ghost predicate Walked(gq: seq<int>, gp: seq<int>, rank: seq<int>, pe: seq<int>, owner: seq<int>, vs: seq<int>, res: seq<int>,
                         n: int, t: int, v: int, pf: int, at: int)
  {
    && Tree(gp, rank, pe, owner, vs, res, n, t, 1) && |gq| == t + 1 && 0 <= v <= t && Reached(gp, v)
    && OnPath(gp, rank, t, v) && 0 <= rank[v] && 0 < pf <= INF && (v != t ==> gq[t] != NIL)
    && (forall w :: 1 <= w <= t && gq[w] != NIL ==>
          && gq[w] == gp[w] && pf <= res[pe[w]] && OnPath(gp, rank, t, w)
          && (gq[w] == v || Reached(gq, gq[w])))
    && (pf == INF || (1 <= at <= t && gq[at] != NIL && pf == res[pe[at]]))
  }

  /** Line 218: the walk starts at the sink, found by the search, with nothing walked and `pf` at INT_MAX. */
  lemma WalkStart(gp: seq<int>, rank: seq<int>, pe: seq<int>, owner: seq<int>, vs: seq<int>, res: seq<int>, n: int, t: int)
    requires Tree(gp, rank, pe, owner, vs, res, n, t, 1) && gp[t] != NIL
    ensures Walked(seq(t + 1, _ => NIL), gp, rank, pe, owner, vs, res, n, t, t, INF, 0)
  {
    assert TreeEdge(gp, rank, pe, owner, vs, res, n, t, 1, t);
    assert OnPath(gp, rank, t, t);
  }

  /** The tree edge into `v`, a vertex other than `s` the walk stands on. */
  lemma WalkEdge(gq: seq<int>, gp: seq<int>, rank: seq<int>, pe: seq<int>, owner: seq<int>, vs: seq<int>, res: seq<int>,
                 n: int, t: int, v: int, pf: int, at: int)
    requires Walked(gq, gp, rank, pe, owner, vs, res, n, t, v, pf, at) && v != 0
    ensures 1 <= pe[v] <= n && owner[pe[v]] == gp[v] && vs[pe[v]] == v && 0 < res[pe[v]] && gp[v] != NIL
  {
    assert TreeEdge(gp, rank, pe, owner, vs, res, n, t, 1, v);
  }

  /** Lines 219-223, one step: `v`'s tree edge joins the walked part, the walk moves to `v`'s parent, `pf` drops to at most its residual. */
  lemma WalkStep(gq: seq<int>, gp: seq<int>, rank: seq<int>, pe: seq<int>, owner: seq<int>, vs: seq<int>, res: seq<int>,
                 n: int, t: int, v: int, pf: int, at: int)
    requires Walked(gq, gp, rank, pe, owner, vs, res, n, t, v, pf, at) && v != 0
    ensures 1 <= pe[v] <= n && owner[pe[v]] == gp[v] && 0 <= rank[gp[v]] < rank[v]
    ensures Walked(gq[v := gp[v]], gp, rank, pe, owner, vs, res, n, t, gp[v], Min(pf, res[pe[v]]),
                   if res[pe[v]] < pf then v else at)
  {
    assert TreeEdge(gp, rank, pe, owner, vs, res, n, t, 1, v);
    var u, gq', pf' := gp[v], gq[v := gp[v]], Min(pf, res[pe[v]]);
    OnPathNext(gp, rank, t, v);
    if u != 0 {
      assert TreeEdge(gp, rank, pe, owner, vs, res, n, t, 1, u);
    }
    forall w | 1 <= w <= t && gq'[w] != NIL
      ensures gq'[w] == gp[w] && pf' <= res[pe[w]] && OnPath(gp, rank, t, w) && (gq'[w] == u || Reached(gq', gq'[w]))
    {
      if w != v {
        assert gq[w] != NIL;
      }
    }
  }

  /**
   * Line 218, the loop's end: once the walk is at `s`, the walked part is a
   * search tree whose every edge has residual at least `pf`, and it holds
   * the sink.
   */
  lemma WalkEnd(gq: seq<int>, gp: seq<int>, rank: seq<int>, pe: seq<int>, owner: seq<int>, vs: seq<int>, res: seq<int>,
                n: int, t: int, pf: int, at: int)
    requires Walked(gq, gp, rank, pe, owner, vs, res, n, t, 0, pf, at)
    ensures Tree(gq, rank, pe, owner, vs, res, n, t, pf) && gq[t] != NIL
  {
    forall w | 1 <= w <= t && gq[w] != NIL ensures TreeEdge(gq, rank, pe, owner, vs, res, n, t, pf, w) {
      assert TreeEdge(gp, rank, pe, owner, vs, res, n, t, 1, w);
    }
  }
}
