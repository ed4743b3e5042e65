/**
 * The augmentation of `edmonds_karp` in proj/2017-2018/p2/src/proj.c, lines
 * 355-374, on the contents of the residual array.  Each backtrack step moves
 * `df` from the tree edge into `v` to its reverse edge (edge 0, a slot no
 * chain holds, when there is no reverse).  The walk of the source stops once
 * the parent is `s` (line 361), so the edge leaving `s` never loses residual;
 * the corrected walk goes down to `s`.
 */
module PixelAugment {
  import opened PixelGrid
  import opened PixelNet
  import opened PixelSearch

  /** Lines 362-366: edge `a` loses `df`, then edge `b` gains it. */
  function AugmentStep(res: seq<int>, a: int, b: int, df: int): (r: seq<int>)
    requires 0 <= a < |res| && 0 <= b < |res|
    ensures |r| == |res|
    ensures forall e :: 0 <= e < |res| ==> r[e] == res[e] - (if e == a then df else 0) + (if e == b then df else 0)
  {
    var r1 := res[a := res[a] - df];
    r1[b := r1[b] + df]
  }

  /** No residual is negative. */
  ghost predicate NonNeg(res: seq<int>)
  {
    forall e :: 0 <= e < |res| ==> 0 <= res[e]
  }

  /** What `graph_get_edge(g, v, u)` returns: no edge (0) or an edge from `v` to `u`. */
  ghost predicate Reverse(b: int, v: int, u: int, owner: seq<int>, vs: seq<int>, n: int)
  {
    b == 0 || (1 <= b <= n && b < |owner| && b < |vs| && owner[b] == v && vs[b] == u)
  }

  /** `b` is the edge from `v` to `u`, or 0 exactly when the network has no such edge. */
  ghost predicate RevEdge(b: int, v: int, u: int, owner: seq<int>, vs: seq<int>, n: int)
  {
    && Reverse(b, v, u, owner, vs, n)
    && (b == 0 ==> forall e :: 1 <= e <= n && e < |owner| && e < |vs| ==> !(owner[e] == v && vs[e] == u))
  }

  /** Every step names two slots of a residual array of length `len`. */
  ghost predicate StepsIn(steps: seq<(int, int)>, len: int)
  {
    forall i :: 0 <= i < |steps| ==> 0 <= steps[i].0 < len && 0 <= steps[i].1 < len
  }

  /** The residuals after the steps in order, each moving `df` from its first edge to its second. */
  ghost function Pushed(res: seq<int>, steps: seq<(int, int)>, df: int): (r: seq<int>)
    requires StepsIn(steps, |res|)
    ensures |r| == |res|
    decreases |steps|
  {
    if steps == [] then res
    else
      var k := |steps| - 1;
      AugmentStep(Pushed(res, steps[..k], df), steps[k].0, steps[k].1, df)
  }

  /** A residual that no step names keeps its value. */
  lemma {:induction false} PushedElsewhere(res: seq<int>, steps: seq<(int, int)>, df: int, e: int)
    requires StepsIn(steps, |res|) && 0 <= e < |res|
    requires forall i :: 0 <= i < |steps| ==> steps[i].0 != e && steps[i].1 != e
    ensures Pushed(res, steps, df)[e] == res[e]
    decreases |steps|
  {
    if steps != [] {
      PushedElsewhere(res, steps[..|steps| - 1], df, e);
    }
  }

  /** One more step at the end of the list is one more `AugmentStep`. */
  lemma PushedSnoc(res: seq<int>, steps: seq<(int, int)>, a: int, b: int, df: int)
    requires StepsIn(steps, |res|) && 0 <= a < |res| && 0 <= b < |res|
    ensures StepsIn(steps + [(a, b)], |res|)
    ensures Pushed(res, steps + [(a, b)], df) == AugmentStep(Pushed(res, steps, df), a, b, df)
  {
    assert (steps + [(a, b)])[..|steps|] == steps;
  }

  /**
   * The backtrack walked `path` from `t` to `v`, each vertex followed by its
   * parent, and step `i` names the tree edge into `path[i]` and the edge
   * from `path[i]` back to its parent (0 when there is none).
   */
  ghost predicate BackPath(path: seq<int>, steps: seq<(int, int)>, parent: seq<int>, pe: seq<int>,
                           owner: seq<int>, vs: seq<int>, n: int, t: int, v: int)
  {
    && |path| == |steps| + 1 && path[0] == t && path[|steps|] == v
    && (forall i :: 0 <= i < |path| ==> 0 <= path[i] < |parent| && path[i] < |pe|)
    && forall i :: 0 <= i < |steps| ==>
         && path[i + 1] == parent[path[i]] && steps[i].0 == pe[path[i]]
         && RevEdge(steps[i].1, path[i], path[i + 1], owner, vs, n)
  }

  /** One backtrack step from `v` to its parent `u` extends the walk and its steps. */
  lemma BackPathStep(path: seq<int>, steps: seq<(int, int)>, parent: seq<int>, pe: seq<int>, owner: seq<int>, vs: seq<int>,
                     n: int, t: int, v: int, u: int, ea: int, eb: int, res0: seq<int>, df: int)
    requires BackPath(path, steps, parent, pe, owner, vs, n, t, v) && StepsIn(steps, |res0|)
    requires 0 <= v < |parent| && u == parent[v] && 0 <= u < |parent| && u < |pe| && ea == pe[v] && RevEdge(eb, v, u, owner, vs, n)
    requires 0 <= ea < |res0| && 0 <= eb < |res0|
    ensures BackPath(path + [u], steps + [(ea, eb)], parent, pe, owner, vs, n, t, u)
    ensures StepsIn(steps + [(ea, eb)], |res0|)
    ensures Pushed(res0, steps + [(ea, eb)], df) == AugmentStep(Pushed(res0, steps, df), ea, eb, df)
  {
    PushedSnoc(res0, steps, ea, eb, df);
  }

  /**
   * The backtrack has walked from `t` down to `v`: tree edges of vertices of
   * rank up to `v`'s are untouched, the residual into `t` has lost `df` once
   * `v` left `t`, the residual out of `s` loses `df` only on the step onto
   * `s`, and no edge out of `s` changes before that step.
   */
  ghost predicate Backing(res: seq<int>, res0: seq<int>, parent: seq<int>, rank: seq<int>, pe: seq<int>,
                          owner: seq<int>, vs: seq<int>, n: int, t: int, df: int, v: int)
  {
    && Tree(parent, rank, pe, owner, vs, res0, n, t, df) && 0 < df && Reached(parent, v) && |res| == |res0| && NonNeg(res)
    && (forall w :: 1 <= w <= t && parent[w] != NIL && rank[w] <= rank[v] ==> res[pe[w]] == res0[pe[w]])
    && SumWhere(res, vs, t, n) == SumWhere(res0, vs, t, n) - (if v == t then 0 else df)
    && SumWhere(res, owner, 0, n) == SumWhere(res0, owner, 0, n) - (if v == 0 then df else 0)
    && (forall e :: 1 <= e <= n && owner[e] == 0 && res[e] != res0[e] ==> v == 0)
  }

  /** Lines 361: the walk starts at `t`, found by the search, with nothing changed. */
  lemma BackStart(res0: seq<int>, parent: seq<int>, rank: seq<int>, pe: seq<int>, owner: seq<int>, vs: seq<int>, n: int, t: int, df: int)
    requires Tree(parent, rank, pe, owner, vs, res0, n, t, df) && 0 < df && NonNeg(res0) && parent[t] != NIL
    ensures Backing(res0, res0, parent, rank, pe, owner, vs, n, t, df, t)
  {
  }

  /** One step of the walk, from `v` to its parent `u`: the tree edge into `v` loses `df` and its reverse gains it. */
  lemma BackStep(res: seq<int>, res0: seq<int>, parent: seq<int>, rank: seq<int>, pe: seq<int>,
                 owner: seq<int>, vs: seq<int>, n: int, t: int, df: int, v: int, b: int)
    requires Backing(res, res0, parent, rank, pe, owner, vs, n, t, df, v) && v != 0
    requires Reverse(b, v, parent[v], owner, vs, n)
    ensures 0 <= pe[v] < |res| && 0 <= b < |res|
    ensures Backing(AugmentStep(res, pe[v], b, df), res0, parent, rank, pe, owner, vs, n, t, df, parent[v])
  {
    var u, a := parent[v], pe[v];
    assert TreeEdge(parent, rank, pe, owner, vs, res0, n, t, df, v);
    var r1 := res[a := res[a] - df];
    var r2 := r1[b := r1[b] + df];
    assert r2 == AugmentStep(res, a, b, df);
    assert a != b;
    forall w | 1 <= w <= t && parent[w] != NIL && rank[w] <= rank[u] ensures r2[pe[w]] == res0[pe[w]] {
      assert TreeEdge(parent, rank, pe, owner, vs, res0, n, t, df, w);
      assert pe[w] != a;
      assert rank[parent[w]] < rank[v] && owner[pe[w]] != v;
    }
    SumUpdate(res, vs, t, n, a, -df);
    SumUpdate(r1, vs, t, n, b, df);
    SumUpdate(res, owner, 0, n, a, -df);
    SumUpdate(r1, owner, 0, n, b, df);
    assert res[a := res[a] + -df] == r1;
  }

  /** `BackStep` with the new residuals `r` and the parent `u` named by the caller. */
  lemma BackMove(res: seq<int>, res0: seq<int>, parent: seq<int>, rank: seq<int>, pe: seq<int>,
                 owner: seq<int>, vs: seq<int>, n: int, t: int, df: int, v: int, b: int, r: seq<int>, u: int)
    requires Backing(res, res0, parent, rank, pe, owner, vs, n, t, df, v) && v != 0
    requires Reverse(b, v, parent[v], owner, vs, n) && u == parent[v]
    requires 0 <= pe[v] < |res| && 0 <= b < |res| && r == AugmentStep(res, pe[v], b, df)
    ensures Backing(r, res0, parent, rank, pe, owner, vs, n, t, df, u)
  {
    BackStep(res, res0, parent, rank, pe, owner, vs, n, t, df, v, b);
  }

  /** The tree edge into `v`, a vertex other than `s` the backtrack stands on. */
  lemma BackEdge(res: seq<int>, res0: seq<int>, parent: seq<int>, rank: seq<int>, pe: seq<int>,
                 owner: seq<int>, vs: seq<int>, n: int, t: int, df: int, v: int)
    requires Backing(res, res0, parent, rank, pe, owner, vs, n, t, df, v) && v != 0
    ensures 1 <= v <= t && 0 <= parent[v] < t && 0 <= rank[parent[v]] < rank[v] && parent[v] != v
    ensures 1 <= pe[v] <= n && owner[pe[v]] == parent[v] && vs[pe[v]] == v
    ensures Backing(res, res0, parent, rank, pe, owner, vs, n, t, df, v)
  {
    assert TreeEdge(parent, rank, pe, owner, vs, res0, n, t, df, v);
  }

  /** The as-written walk ends on the vertex whose parent is `s`; that vertex is not `t`, as no edge joins `s` to `t`. */
  lemma BackEndAsWritten(res: seq<int>, res0: seq<int>, parent: seq<int>, rank: seq<int>, pe: seq<int>,
                         owner: seq<int>, vs: seq<int>, n: int, t: int, df: int, v: int)
    requires Backing(res, res0, parent, rank, pe, owner, vs, n, t, df, v) && v != 0 && parent[v] == 0
    requires Simple(owner, vs, n, t)
    ensures SumWhere(res, vs, t, n) == SumWhere(res0, vs, t, n) - df
    ensures forall e :: 1 <= e <= n && owner[e] == 0 ==> res[e] == res0[e]
  {
    assert TreeEdge(parent, rank, pe, owner, vs, res0, n, t, df, v);
  }

  /**
   * Across the augmentations of the corrected loop: residuals stay
   * nonnegative, and the flow equals both what the edges into `t` and what
   * the edges out of `s` have lost.
   */
  ghost predicate Flowing(res: seq<int>, cap: seq<int>, owner: seq<int>, vs: seq<int>, n: int, t: int, flow: int)
  {
    && NonNeg(res) && |res| == |cap| && 0 <= n < |res| && n < |owner| && n < |vs| && 0 <= flow
    && flow + SumWhere(res, vs, t, n) == SumWhere(cap, vs, t, n)
    && flow + SumWhere(res, owner, 0, n) == SumWhere(cap, owner, 0, n)
  }

  /** Across the augmentations of the loop as written: the flow equals what the edges into `t` have lost, and the edges out of `s` keep their capacity. */
  ghost predicate FlowingAsWritten(res: seq<int>, cap: seq<int>, owner: seq<int>, vs: seq<int>, n: int, t: int, flow: int)
  {
    && NonNeg(res) && |res| == |cap| && 0 <= n < |res| && n < |owner| && n < |vs| && 0 <= flow
    && flow + SumWhere(res, vs, t, n) == SumWhere(cap, vs, t, n)
    && (forall e :: 1 <= e <= n && owner[e] == 0 ==> res[e] == cap[e])
  }

  /** Corrected: an augmentation by `df` keeps the invariant with `flow + df` and lowers the residual into `t`. */
  lemma FlowingStep(res: seq<int>, res0: seq<int>, cap: seq<int>, parent: seq<int>, rank: seq<int>, pe: seq<int>,
                    owner: seq<int>, vs: seq<int>, n: int, t: int, df: int, flow: int)
    requires Flowing(res0, cap, owner, vs, n, t, flow) && Backing(res, res0, parent, rank, pe, owner, vs, n, t, df, 0)
    ensures Flowing(res, cap, owner, vs, n, t, flow + df)
    ensures SumWhere(res, vs, t, n) < SumWhere(res0, vs, t, n)
  {
  }

  /** As written: an augmentation by `df` keeps the invariant with `flow + df` and lowers the residual into `t`. */
  lemma FlowingAsWrittenStep(res: seq<int>, res0: seq<int>, cap: seq<int>, parent: seq<int>, rank: seq<int>, pe: seq<int>,
                             owner: seq<int>, vs: seq<int>, n: int, t: int, df: int, flow: int, v: int)
    requires FlowingAsWritten(res0, cap, owner, vs, n, t, flow) && Backing(res, res0, parent, rank, pe, owner, vs, n, t, df, v)
    requires v != 0 && parent[v] == 0 && Simple(owner, vs, n, t)
    ensures FlowingAsWritten(res, cap, owner, vs, n, t, flow + df)
    ensures SumWhere(res, vs, t, n) < SumWhere(res0, vs, t, n)
  {
    BackEndAsWritten(res, res0, parent, rank, pe, owner, vs, n, t, df, v);
  }

  /** Corrected: the flow never exceeds the capacity into `t` nor the capacity out of `s`. */
  lemma FlowBound(res: seq<int>, cap: seq<int>, owner: seq<int>, vs: seq<int>, n: int, t: int, flow: int)
    requires Flowing(res, cap, owner, vs, n, t, flow)
    ensures flow <= SumWhere(cap, vs, t, n) && flow <= SumWhere(cap, owner, 0, n)
  {
    SumNonneg(res, vs, t, n);
    SumNonneg(res, owner, 0, n);
  }

  /**
   * The 1 x 2 image `5 0 / 0 10 / 20`: pixel 1 prefers the foreground by 5,
   * pixel 2 the background by 10, and their neighbour weight is 20.  Its arcs,
   * in `graph_init` order, are s->1 (5), 2->t (10), 1->2 (20) and 2->1 (20),
   * with t = 3.
   */
  lemma ExampleArcs()
    ensures InitArcs(1, 2, [5, 0], [0, 10], [[20]], []) == [Arc(0, 1, 5), Arc(2, 3, 10), Arc(1, 2, 20), Arc(2, 1, 20)]
    ensures Edges([0, 0, 2, 1, 2], [0, 1, 3, 2, 1], [0, 5, 10, 20, 20], 4) == InitArcs(1, 2, [5, 0], [0, 10], [[20]], [])
  {
    assert TermArcs([5, 0], [0, 10], 3, 1) == [Arc(0, 1, 5)];
    assert TermArcs([5, 0], [0, 10], 3, 2) == [Arc(0, 1, 5), Arc(2, 3, 10)];
    assert HRow(2, [20], 0, 2) == [Arc(1, 2, 20), Arc(2, 1, 20)];
    assert HRows(2, [[20]], 2, 2) == [Arc(1, 2, 20), Arc(2, 1, 20)];
  }

  /**
   * The first search of the example reaches 1, 2 and t through s->1, 1->2 and
   * 2->t with bottleneck 5.  The walk as written updates 2->t (reverse: edge
   * 0) and 1->2 (reverse: 2->1) and stops: the flow is 5, already the whole
   * capacity out of `s`, yet s->1 keeps its residual 5, so every search that
   * stops with a closed reached set reaches t and the loop augments again.
   */
  lemma SecondPathAsWritten()
    ensures var owner, vs, cap := [0, 0, 2, 1, 2], [0, 1, 3, 2, 1], [0, 5, 10, 20, 20];
            var res1 := AugmentStep(AugmentStep(cap, 2, 0, 5), 3, 4, 5);
            && Tree([NIL, 0, 1, 2], [0, 1, 2, 3], [0, 1, 3, 2], owner, vs, cap, 4, 3, 5)
            && SumWhere(cap, owner, 0, 4) == 5 && res1[1] == cap[1]
            && forall parent :: |parent| == 4 && Closed(parent, owner, vs, res1, 4) ==> Reached(parent, 3)
  {
    var owner, vs, cap := [0, 0, 2, 1, 2], [0, 1, 3, 2, 1], [0, 5, 10, 20, 20];
    var res1 := AugmentStep(AugmentStep(cap, 2, 0, 5), 3, 4, 5);
    assert res1 == [5, 5, 5, 15, 25];
    forall parent | |parent| == 4 && Closed(parent, owner, vs, res1, 4) ensures Reached(parent, 3) {
      assert Reached(parent, owner[1]) && 0 < res1[1];
      assert Reached(parent, vs[1]);
      assert Reached(parent, owner[3]) && 0 < res1[3];
      assert Reached(parent, vs[3]);
      assert Reached(parent, owner[2]) && 0 < res1[2];
    }
  }

  /**
   * The corrected walk also updates s->1: after the same first augmentation
   * only `s` is reached, so the search stops with the flow at 5, the
   * capacity out of `s`.
   */
  lemma StopsCorrected()
    ensures var owner, vs, cap := [0, 0, 2, 1, 2], [0, 1, 3, 2, 1], [0, 5, 10, 20, 20];
            var res1 := AugmentStep(AugmentStep(AugmentStep(cap, 2, 0, 5), 3, 4, 5), 1, 0, 5);
            && Flowing(res1, cap, owner, vs, 4, 3, 5)
            && Closed([NIL, NIL, NIL, NIL], owner, vs, res1, 4)
  {
    var owner, vs, cap := [0, 0, 2, 1, 2], [0, 1, 3, 2, 1], [0, 5, 10, 20, 20];
    var res1 := AugmentStep(AugmentStep(AugmentStep(cap, 2, 0, 5), 3, 4, 5), 1, 0, 5);
    assert res1 == [10, 0, 5, 15, 25];
    assert SumWhere(res1, vs, 3, 0) == 0 && SumWhere(cap, vs, 3, 0) == 0;
    assert SumWhere(res1, owner, 0, 0) == 0 && SumWhere(cap, owner, 0, 0) == 0;
    assert SumWhere(res1, vs, 3, 1) == 0 && SumWhere(cap, vs, 3, 1) == 0;
    assert SumWhere(res1, vs, 3, 2) == 5 && SumWhere(cap, vs, 3, 2) == 10;
    assert SumWhere(res1, vs, 3, 3) == 5 && SumWhere(cap, vs, 3, 3) == 10;
    assert SumWhere(res1, vs, 3, 4) == 5 && SumWhere(cap, vs, 3, 4) == 10;
    assert SumWhere(res1, owner, 0, 1) == 0 && SumWhere(cap, owner, 0, 1) == 5;
    assert SumWhere(res1, owner, 0, 2) == 0 && SumWhere(cap, owner, 0, 2) == 5;
    assert SumWhere(res1, owner, 0, 3) == 0 && SumWhere(cap, owner, 0, 3) == 5;
    assert SumWhere(res1, owner, 0, 4) == 0 && SumWhere(cap, owner, 0, 4) == 5;
  }
}
