/**
 * The graph of proj/2017-2018/p2/src/proj.c, lines 73-237: the edge chains
 * `first`/`next`/`pixel` with the tail pointers `last`, the capacities
 * (`residual` is the same array, so one array serves both), the search tree
 * `parent`, the base `weight` and the `segments` labels.  The ghost fields
 * name the chains the arrays encode and the owner of every edge.
 */
module PixelGraph {
  import opened Chains
  import opened PixelGrid
  import opened PixelNet
  import opened PixelSearch

  /**
   * The array writes of `graph_connect`, lines 158-168: edge `e` gets target
   * `v` and capacity `w`, and becomes `first[u]` when `u`'s chain `ch` is
   * empty, else the successor of its tail `last[u]`, and then the new tail.
   */
  method AddEdge(first: array<int>, last: array<int>, next: array<int>, pixel: array<int>, capacity: array<int>,
                 u: int, e: int, v: int, w: int, ghost ch: seq<int>)
    requires first != last && first != next && first != pixel && first != capacity
    requires last != next && last != pixel && last != capacity && next != pixel && next != capacity && pixel != capacity
    requires 0 <= u < first.Length && u < last.Length && 0 <= e < pixel.Length && e < capacity.Length
    requires (first[u] == 0) == (ch == []) && forall k :: 0 <= k < |ch| ==> 0 <= ch[k] < next.Length
    requires ch != [] ==> last[u] == ch[|ch| - 1]
    modifies first, last, next, pixel, capacity
    ensures first[..] == LinkFirst(old(first[..]), ch, u, e) && next[..] == LinkNext(old(next[..]), ch, e)
    ensures last[..] == old(last[..])[u := e]
    ensures pixel[..] == old(pixel[..])[e := v] && capacity[..] == old(capacity[..])[e := w]
  {
    pixel[e] := v;
    capacity[e] := w;
    if first[u] == 0 {
      first[u] := e;
    } else {
      var adj := last[u];
      next[adj] := e;
    }
    last[u] := e;
  }

  /**
   * The walk of `graph_get_edge`, lines 147-150, along the chain `ch` that
   * starts at `first[u]`: it stops at the first edge whose target is `v`, or
   * at the end with 0.
   */
  method WalkTo(first: array<int>, next: array<int>, pixel: array<int>, u: int, v: int, ghost ch: seq<int>) returns (e: int)
    requires 0 <= u < first.Length && first[u] == Head(ch)
    requires forall k :: 0 <= k < |ch| ==> 0 < ch[k] < next.Length && ch[k] < pixel.Length && next[ch[k]] == Succ(ch, k)
    ensures e == FirstTo(ch, pixel[..], v)
  {
    e := first[u];
    ghost var k := 0;
    while e != 0 && pixel[e] != v
      invariant 0 <= k <= |ch| && e == (if k < |ch| then ch[k] else 0)
      invariant FirstTo(ch[k..], pixel[..], v) == FirstTo(ch, pixel[..], v)
      decreases |ch| - k
    {
      assert ch[k..][1..] == ch[k + 1..];
      e := next[e];
      k := k + 1;
    }
    if k < |ch| {
      assert ch[k..][0] == ch[k];
    }
  }

  /** Lines 103-104: the vertex count `m * n + 1` and the edge slots of an `m` x `n` image, also by repeated addition. */
  method Sizes(m: int, n: int) returns (numV: int, numE: int)
    requires 1 <= m && 1 <= n
    ensures numV == NumV(m, n) == Times(m, n) + 1 && 1 < numV
    ensures numE == MaxArcs(m, n) == Times(m, n) + 2 * Times(m, n - 1) + 2 * Times(m - 1, n) && 0 <= numE
  {
    numV := m * n + 1;
    numE := MaxArcs(m, n);
    RowBases(m, n);
    TimesGrow(0, m, n - 1);
    TimesGrow(0, m - 1, n);
  }

  /**
   * Lines 114-124: the arrays of `graph_new`, all new and distinct: zeroed
   * `first` and `last` for vertices `0..num_v` and `pixel`, `next` and
   * `capacity` for edges `0..num_e`, an unset `parent`, and a 'P' label per
   * vertex below `num_v`.
   */
  method NewArrays(numV: int, numE: int) returns (first: array<int>, last: array<int>, pixel: array<int>, next: array<int>,
                                                 parent: array<int>, capacity: array<int>, segments: array<char>)
    requires 0 <= numV && 0 <= numE
    ensures fresh(first) && fresh(last) && fresh(pixel) && fresh(next) && fresh(parent) && fresh(capacity) && fresh(segments)
    ensures first != last && first != pixel && first != next && first != parent && first != capacity
    ensures last != pixel && last != next && last != parent && last != capacity
    ensures pixel != next && pixel != parent && pixel != capacity && next != parent && next != capacity && parent != capacity
    ensures first.Length == numV + 1 && last.Length == numV + 1 && parent.Length == numV + 1 && segments.Length == numV
    ensures pixel.Length == numE + 1 && next.Length == numE + 1 && capacity.Length == numE + 1
    ensures (forall u :: 0 <= u < first.Length ==> first[u] == 0) && forall e :: 0 <= e < next.Length ==> next[e] == 0
    ensures forall u :: 0 <= u < segments.Length ==> segments[u] == 'P'
  {
    first := new int[numV + 1](_ => 0);
    last := new int[numV + 1](_ => 0);
    pixel := new int[numE + 1](_ => 0);
    next := new int[numE + 1](_ => 0);
    parent := new int[numV + 1];
    capacity := new int[numE + 1](_ => 0);
    segments := new char[numV](_ => 'P');
  }

  class Graph {
    const m: int
    const n: int
    const nrVertices: int
    const s: int
    const t: int
    var nrEdges: int
    var weight: int
    const first: array<int>
    const last: array<int>
    const pixel: array<int>
    const next: array<int>
    const parent: array<int>
    const capacity: array<int>
    const segments: array<char>
    ghost var chains: seq<seq<int>>
    ghost var owner: seq<int>
    ghost var arcs: seq<Arc>

    /** Distinct arrays: `t + 1` vertex slots, as many edge slots in each edge array, and a label per vertex below `t`. */
    ghost predicate Frame()
    {
      && first != last && first != pixel && first != next && first != parent && first != capacity
      && last != pixel && last != next && last != parent && last != capacity
      && pixel != next && pixel != parent && pixel != capacity
      && next != parent && next != capacity && parent != capacity
      && s == 0 && 1 <= t && nrVertices == t
      && first.Length == t + 1 && last.Length == t + 1 && parent.Length == t + 1
      && next.Length == pixel.Length && capacity.Length == pixel.Length
      && segments.Length == t
    }

    /**
     * The sizes of an `m` x `n` image, by repeated addition: source 0, sink
     * `t = m * n + 1`, and an edge slot for each of the `MaxArcs(m, n)` arcs
     * `graph_init` can create besides the unused edge 0.
     */
    ghost predicate Grid()
    {
      && s == 0 && nrVertices == t
      && 1 <= m && 1 <= n && t == Times(m, n) + 1
      && pixel.Length == Times(m, n) + 2 * Times(m, n - 1) + 2 * Times(m - 1, n) + 1
    }

    /**
     * The arrays hold `k` edges.  Contracts write `Stored(k) == true` and
     * `Valid() == true` so that the verifier keeps each one fact instead of
     * splitting it into its conjuncts.
     */
    ghost predicate Stored(k: int)
      reads this`chains, this`owner, first, last, next, pixel
    {
      Frame() && |chains| == t + 1 && SealedNet(t, first[..], last[..], next[..], pixel[..], chains, owner, k)
    }

    /** Edges `1..nr_edges` are stored. */
    ghost predicate Valid()
      reads this`nrEdges, this`chains, this`owner, first, last, next, pixel
    {
      Stored(nrEdges)
    }

    /** `arcs` lists the stored edges, with their current capacities. */
    ghost predicate Listed()
      reads this`arcs, this`nrEdges, this`owner, pixel, capacity
    {
      && 0 <= nrEdges < |owner| && nrEdges < pixel.Length && nrEdges < capacity.Length && |arcs| == nrEdges
      && forall i :: 0 <= i < nrEdges ==> arcs[i] == Arc(owner[i + 1], pixel[i + 1], capacity[i + 1])
    }

    /**
     * Lines 101-125, `graph_new`: vertices `0..m*n+1`, no edges, zero weight,
     * every label 'P'; `parent` is left as allocated.  The edge arrays get a
     * slot for each of the `MaxArcs(m, n)` arcs `graph_init` can create (the
     * source sizes them by `num_e`, see `PixelGrid.NumEShort`).
     */
    constructor (m: int, n: int)
      requires 1 <= m && 1 <= n
      ensures Valid() == true && Listed() == true && Grid() == true && this.m == m && this.n == n
      ensures nrEdges == 0 && weight == 0 && arcs == []
      ensures t == NumV(m, n) && pixel.Length == MaxArcs(m, n) + 1
      ensures forall u :: 0 <= u < segments.Length ==> segments[u] == 'P'
      ensures forall u :: 0 <= u <= t ==> chains[u] == []
      ensures fresh(first) && fresh(last) && fresh(pixel) && fresh(next) && fresh(parent) && fresh(capacity) && fresh(segments)
    {
      var numV, numE := Sizes(m, n);
      this.m, this.n := m, n;
      s, t := 0, numV;
      nrVertices := numV;
      nrEdges, weight := 0, 0;
      var f, l, p, x, par, c, seg := NewArrays(numV, numE);
      first, last, pixel, next, parent, capacity, segments := f, l, p, x, par, c, seg;
      chains := EmptyChains(numV + 1);
      owner := NoOwners(numE + 1);
      arcs := [];
      new;
      EmptyStore();
    }

    /** Zeroed chain heads and links, with no chains and no arcs, store no edges. */
    lemma EmptyStore()
      requires Frame() == true && nrEdges == 0 && arcs == [] && chains == EmptyChains(t + 1) && 1 <= |owner| == pixel.Length
      requires (forall u :: 0 <= u < first.Length ==> first[u] == 0) && forall e :: 0 <= e < next.Length ==> next[e] == 0
      ensures Valid() == true && Listed() == true
    {
      NetEmpty(first[..], last[..], next[..], pixel[..], owner);
      Seal(t, first[..], last[..], next[..], pixel[..], chains, owner, nrEdges);
    }

    /**
     * Lines 154-170, `graph_connect`: edge `nr_edges + 1` gets target `v` and
     * capacity `w` and becomes the tail of `u`'s chain (linked after
     * `last[u]`, or as `first[u]` when the chain is empty), with no check for
     * an existing edge from `u` to `v`.
     */
    method Connect(u: int, v: int, w: int) returns (e: int)
      requires Valid() == true && Listed() == true && 0 <= u <= t && nrEdges + 1 < pixel.Length
      modifies this`nrEdges, this`chains, this`owner, this`arcs, first, last, next, pixel, capacity
      ensures Valid() == true && Listed() == true && e == nrEdges == old(nrEdges) + 1
      ensures arcs == old(arcs) + [Arc(u, v, w)]
    {
      ghost var k, f0, l0, x0, vs0, c0, o0 := nrEdges, first[..], last[..], next[..], pixel[..], chains, owner;
      ghost var cap0, a0 := capacity[..], arcs;
      assert Frame() && Listed();
      Unseal(t, f0, l0, x0, vs0, c0, o0, k);
      NetRead(f0, l0, x0, vs0, c0, o0, k, u);
      e := nrEdges + 1;
      AddEdge(first, last, next, pixel, capacity, u, e, v, w, c0[u]);
      Commit(e, c0[u := c0[u] + [e]], o0[e := u], a0 + [Arc(u, v, w)]);
      StoredAppend(u, v, w, f0, l0, x0, vs0, cap0, c0, o0, a0, k);
    }

    /** Record edge `e` as the last one in use, with the ghost chains, owners and arcs. */
    method Commit(e: int, ghost c: seq<seq<int>>, ghost o: seq<int>, ghost a: seq<Arc>)
      modifies this`nrEdges, this`chains, this`owner, this`arcs
      ensures nrEdges == e && chains == c && owner == o && arcs == a
    {
      nrEdges, chains, owner, arcs := e, c, o, a;
    }

    /** The invariant once edge `k + 1`, from `u` to `v` with capacity `w`, is linked at the tail of `u`'s chain. */
    lemma StoredAppend(u: int, v: int, w: int, f0: seq<int>, l0: seq<int>, x0: seq<int>, vs0: seq<int>, cap0: seq<int>,
                       c0: seq<seq<int>>, o0: seq<int>, a0: seq<Arc>, k: int)
      requires Frame() && |c0| == t + 1 && Net(f0, l0, x0, vs0, c0, o0, k)
      requires 0 <= u <= t && k + 1 < |x0| && |cap0| == |x0| && a0 == Edges(o0, vs0, cap0, k)
      requires first[..] == LinkFirst(f0, c0[u], u, k + 1) && next[..] == LinkNext(x0, c0[u], k + 1)
      requires last[..] == l0[u := k + 1] && pixel[..] == vs0[k + 1 := v] && capacity[..] == cap0[k + 1 := w]
      requires chains == c0[u := c0[u] + [k + 1]] && owner == o0[k + 1 := u] && nrEdges == k + 1
      requires arcs == a0 + [Arc(u, v, w)]
      ensures Valid() == true && Listed() == true
    {
      NetAppend(f0, l0, x0, vs0, c0, o0, k, u, v);
      Seal(t, first[..], last[..], next[..], pixel[..], chains, owner, nrEdges);
      EdgesSnoc(o0, vs0, cap0, k, u, v, w);
      assert arcs == Edges(owner, pixel[..], capacity[..], nrEdges);
    }

    /**
     * Lines 146-151, `graph_get_edge`: the walk along `u`'s chain stops at
     * the first edge whose target is `v`, or at the end with 0.
     */
    method GetEdge(u: int, v: int) returns (e: int)
      requires Valid() == true && 0 <= u <= t
      ensures forall k :: 0 <= k < |chains[u]| ==> 0 < chains[u][k] < pixel.Length
      ensures e == FirstTo(chains[u], pixel[..], v) && 0 <= e < pixel.Length
    {
      Unseal(t, first[..], last[..], next[..], pixel[..], chains, owner, nrEdges);
      NetRead(first[..], last[..], next[..], pixel[..], chains, owner, nrEdges, u);
      e := WalkTo(first, next, pixel, u, v, chains[u]);
    }

    /**
     * Lines 232-234, `graph_get_f_weight`: the capacity of the edge from `u`
     * to `v` when there is one; otherwise the capacity slot of edge 0.
     */
    method GetFWeight(u: int, v: int) returns (r: int)
      requires Valid() == true && 0 <= u <= t
      ensures Simple(owner, pixel[..], nrEdges, t) ==>
                && (forall e :: 1 <= e <= nrEdges && owner[e] == u && pixel[e] == v ==> r == capacity[e])
                && ((forall e :: 1 <= e <= nrEdges ==> owner[e] != u || pixel[e] != v) ==> r == capacity[0])
    {
      var e := GetEdge(u, v);
      r := capacity[e];
      if Simple(owner, pixel[..], nrEdges, t) {
        Unseal(t, first[..], last[..], next[..], pixel[..], chains, owner, nrEdges);
        FirstToSimple(first[..], last[..], next[..], pixel[..], chains, owner, nrEdges, t, u, v);
      }
    }

    /** Line 235, `graph_get_l_weight`: the capacity of the edge `s -> u`. */
    method GetLWeight(u: int) returns (r: int)
      requires Valid() == true
      ensures Simple(owner, pixel[..], nrEdges, t) ==>
                && (forall e :: 1 <= e <= nrEdges && owner[e] == s && pixel[e] == u ==> r == capacity[e])
                && ((forall e :: 1 <= e <= nrEdges ==> owner[e] != s || pixel[e] != u) ==> r == capacity[0])
    {
      r := GetFWeight(s, u);
    }

    /** Line 236, `graph_get_c_weight`: the capacity of the edge `u -> t`. */
    method GetCWeight(u: int) returns (r: int)
      requires Valid() == true && 0 <= u <= t
      ensures Simple(owner, pixel[..], nrEdges, t) ==>
                && (forall e :: 1 <= e <= nrEdges && owner[e] == u && pixel[e] == t ==> r == capacity[e])
                && ((forall e :: 1 <= e <= nrEdges ==> owner[e] != u || pixel[e] != t) ==> r == capacity[0])
    {
      r := GetFWeight(u, t);
    }

    /** The arrays hold the stored edges, and they list as the arcs `a0` followed by `more`. */
    ghost predicate Built(a0: seq<Arc>, more: seq<Arc>)
      reads this`arcs, this`nrEdges, this`chains, this`owner, first, last, next, pixel, capacity
    {
      Valid() && Listed() && arcs == a0 + more
    }

    /** Nothing is built beyond the arcs `a0` yet. */
    lemma BuiltNone(a0: seq<Arc>, more: seq<Arc>)
      requires Valid() == true && Listed() == true && arcs == a0 && more == []
      ensures Built(a0, more) == true
    {
      assert a0 + more == a0;
    }

    /** What is built so far becomes the start of the next pass. */
    lemma Rebase(a0: seq<Arc>, more: seq<Arc>, none: seq<Arc>)
      requires Built(a0, more) == true && none == []
      ensures Built(arcs, none) == true
    {
      assert arcs + none == arcs;
    }

    /**
     * Lines 185-199: per pixel `u`, the edge `s -> u` of capacity `l - c`
     * when `l > c`, the edge `u -> t` of capacity `c - l` when `l < c`, and
     * `min(l, c)` added to the weight.
     */
    method ConnectTerminals(ls: seq<int>, cs: seq<int>)
      requires Grid() && |ls| == t - 1 && |cs| == t - 1 && Built(arcs, TermArcs(ls, cs, t, 0)) == true
      requires |arcs| + (t - 1) < pixel.Length
      modifies this`nrEdges, this`weight, this`chains, this`owner, this`arcs, first, last, next, pixel, capacity
      ensures Built(old(arcs), TermArcs(ls, cs, t, t - 1)) == true
      ensures weight == old(weight) + MinSum(ls, cs, t - 1) && |arcs| <= |old(arcs)| + (t - 1)
    {
      ghost var a0, w0 := arcs, weight;
      var u := 1;
      while u != nrVertices
        decreases nrVertices - u
        invariant 1 <= u <= t && Built(a0, TermArcs(ls, cs, t, u - 1)) == true
        invariant weight == w0 + MinSum(ls, cs, u - 1) && |arcs| <= |a0| + (u - 1)
      {
        ConnectTerminalsStep(u, ls, cs, a0, w0);
        u := u + 1;
      }
      TermsAt(ls, cs, t, u - 1, t - 1);
    }

    /** Lines 185-199, one pass of the loop: pixel `u`'s terminal edge follows those of the pixels before it. */
    method ConnectTerminalsStep(u: int, ls: seq<int>, cs: seq<int>, ghost a0: seq<Arc>, ghost w0: int)
      requires Grid() && 1 <= u < t && |ls| == t - 1 && |cs| == t - 1 && Built(a0, TermArcs(ls, cs, t, u - 1)) == true
      requires weight == w0 + MinSum(ls, cs, u - 1) && |arcs| <= |a0| + (u - 1) && |a0| + (t - 1) < pixel.Length
      modifies this`nrEdges, this`weight, this`chains, this`owner, this`arcs, first, last, next, pixel, capacity
      ensures Built(a0, TermArcs(ls, cs, t, u)) == true
      ensures weight == w0 + MinSum(ls, cs, u) && |arcs| <= |a0| + u
    {
      ghost var a := arcs;
      ConnectTerminal(u, ls[u - 1], cs[u - 1]);
      TermArcsExtend(ls, cs, t, u, a0, a, arcs);
    }

    /** Lines 186-198, pixel `u` with weights `l` and `c`. */
    method ConnectTerminal(u: int, l: int, c: int)
      requires Valid() == true && Listed() == true && Grid() && 1 <= u < t && nrEdges + 1 < pixel.Length
      modifies this`nrEdges, this`weight, this`chains, this`owner, this`arcs, first, last, next, pixel, capacity
      ensures Built(old(arcs), TermStep(u, l, c, t)) == true
      ensures weight == old(weight) + Min(l, c) && nrEdges <= old(nrEdges) + 1
    {
      weight := weight + Min(l, c);
      var w := l - c;
      ghost var a0 := arcs;
      if w != 0 {
        var from, to, cap := s, u, w;
        if w < 0 {
          from, to, cap := u, t, -w;
        }
        assert TermStep(u, l, c, t) == [Arc(from, to, cap)];
        var _ := Connect(from, to, cap);
      } else {
        assert arcs == a0 + TermStep(u, l, c, t);
      }
    }

    /** Lines 208-212 and 222-226: the edges each way between neighbours `u` and `v` when their weight `w` is positive. */
    method ConnectPair(u: int, v: int, w: int)
      requires Valid() == true && Listed() == true && 0 <= u <= t && 0 <= v <= t && nrEdges + 2 < pixel.Length
      modifies this`nrEdges, this`chains, this`owner, this`arcs, first, last, next, pixel, capacity
      ensures Built(old(arcs), PairArcs(u, v, w)) == true
      ensures nrEdges <= old(nrEdges) + 2
    {
      ghost var a0 := arcs;
      if w > 0 {
        var _ := Connect(u, v, w);
        ghost var a1 := arcs;
        var _ := Connect(v, u, w);
        PairJoin(a0, a1, arcs, u, v, w);
      } else {
        assert arcs == a0 + PairArcs(u, v, w);
      }
    }

    /** Columns `1..j-1` of row `i`, at pixel `base + 1` onwards, are connected after the arcs `a0`, and the rest fit. */
    ghost predicate RowPass(i: int, j: int, row: seq<int>, base: int, a0: seq<Arc>)
      reads this`arcs, this`nrEdges, this`chains, this`owner, first, last, next, pixel, capacity
    {
      && 1 <= i && 1 <= j <= n && |row| == n - 1 && base == Times(i - 1, n) && 0 <= base && base + n < t
      && Built(a0, HRow(n, row, base, j)) && |arcs| <= |a0| + 2 * (j - 1) && |a0| + 2 * (n - 1) < pixel.Length
    }

    /** Lines 202-214, row `i`: the edges each way between horizontal neighbours with a positive weight. */
    method ConnectRow(i: int, row: seq<int>)
      requires Grid() && 1 <= i <= m && |row| == n - 1 && Built(arcs, HRow(n, row, Times(i - 1, n), 1)) == true
      requires |arcs| + 2 * (n - 1) < pixel.Length
      modifies this`nrEdges, this`chains, this`owner, this`arcs, first, last, next, pixel, capacity
      ensures Built(old(arcs), HRow(n, row, Times(i - 1, n), n)) == true && |arcs| <= |old(arcs)| + 2 * (n - 1)
    {
      ghost var base, a0 := Times(i - 1, n), arcs;
      RowPassStart(i, row);
      var j := 1;
      while j != n
        decreases n - j
        invariant RowPass(i, j, row, base, a0) == true
      {
        ConnectRight(i, j, row, base, a0);
        j := j + 1;
      }
      RowPassDone(i, j, row, base, a0);
      assert a0 == old(arcs);
    }

    /** At the start of row `i`, nothing of it is connected yet, and its pixels lie before the sink. */
    lemma RowPassStart(i: int, row: seq<int>)
      requires Grid() && 1 <= i <= m && |row| == n - 1 && Built(arcs, HRow(n, row, Times(i - 1, n), 1)) == true
      requires |arcs| + 2 * (n - 1) < pixel.Length
      ensures RowPass(i, 1, row, Times(i - 1, n), arcs) == true
    {
      TimesGrow(0, i - 1, n);
      TimesGrow(i, m, n);
      assert Times(i, n) == Times(i - 1, n) + n;
    }

    /** At the end of row `i`, its arcs are all connected. */
    lemma RowPassDone(i: int, j: int, row: seq<int>, base: int, a0: seq<Arc>)
      requires RowPass(i, j, row, base, a0) == true && j == n
      ensures Built(a0, HRow(n, row, base, n)) == true && |arcs| <= |a0| + 2 * (n - 1)
    {
    }

    /** Lines 204-213, column `j` of row `i`. */
    method ConnectRight(i: int, j: int, row: seq<int>, ghost base: int, ghost a0: seq<Arc>)
      requires RowPass(i, j, row, base, a0) == true && j < n
      modifies this`nrEdges, this`chains, this`owner, this`arcs, first, last, next, pixel, capacity
      ensures RowPass(i, j + 1, row, base, a0) == true
    {
      PixelBase(n, i, j);
      var u := GetPixel(n, i, j);
      var v := HNeighbor(u);
      ghost var a := arcs;
      ConnectPair(u, v, row[j - 1]);
      HRowExtend(n, row, base, j, u, v, a0, a, arcs);
    }

    /** The state once the horizontal edges of the rows above row `i` follow the arcs `a0`. */
    ghost predicate RowsBuilt(a0: seq<Arc>, hw: seq<seq<int>>, i: int)
      reads this`arcs, this`nrEdges, this`chains, this`owner, first, last, next, pixel, capacity
    {
      && 1 <= n && 1 <= i <= |hw| + 1 && (forall r :: 0 <= r < |hw| ==> |hw[r]| == n - 1)
      && Built(a0, HArcsAbove(n, hw, i)) && |arcs| <= |a0| + 2 * Times(i - 1, n - 1)
    }

    /** Lines 202-214: the horizontal edges of rows `1..m`. */
    method ConnectRows(hw: seq<seq<int>>)
      requires Grid() && |hw| == m && RowsBuilt(arcs, hw, 1) == true && |arcs| + 2 * Times(m, n - 1) < pixel.Length
      modifies this`nrEdges, this`chains, this`owner, this`arcs, first, last, next, pixel, capacity
      ensures RowsBuilt(old(arcs), hw, m + 1) == true
      ensures |arcs| <= |old(arcs)| + 2 * Times(m, n - 1)
    {
      ghost var a0 := arcs;
      var i := 1;
      while i != m + 1
        decreases m + 1 - i
        invariant 1 <= i <= m + 1 && RowsBuilt(a0, hw, i) == true
      {
        ConnectRowsStep(i, hw, a0);
        i := i + 1;
      }
      RowsDone(a0, hw, i);
      assert a0 == old(arcs);
    }

    /** Past the last row, the horizontal arcs of all rows are connected. */
    lemma RowsDone(a0: seq<Arc>, hw: seq<seq<int>>, i: int)
      requires RowsBuilt(a0, hw, i) == true && i == m + 1
      ensures RowsBuilt(a0, hw, m + 1) == true && |arcs| <= |a0| + 2 * Times(m, n - 1)
    {
    }

    /** Lines 202-214, one pass of the outer loop: row `i`'s horizontal edges follow those of the rows above. */
    method ConnectRowsStep(i: int, hw: seq<seq<int>>, ghost a0: seq<Arc>)
      requires Grid() && 1 <= i <= m && |hw| == m && RowsBuilt(a0, hw, i) == true && |a0| + 2 * Times(m, n - 1) < pixel.Length
      modifies this`nrEdges, this`chains, this`owner, this`arcs, first, last, next, pixel, capacity
      ensures RowsBuilt(a0, hw, i + 1) == true
    {
      TimesGrow(i, m, n - 1);
      assert Times(i, n - 1) == Times(i - 1, n - 1) + (n - 1);
      ghost var a := arcs;
      Rebase(a0, HArcsAbove(n, hw, i), HRow(n, hw[i - 1], Times(i - 1, n), 1));
      ConnectRow(i, hw[i - 1]);
      HArcsAboveNext(n, hw, i, a0, a, arcs);
    }

    /** Columns `1..j-1` of row `i`, at pixel `base + 1` onwards, are connected to the row below after the arcs `a0`, and the rest fit. */
    ghost predicate ColumnPass(i: int, j: int, row: seq<int>, base: int, a0: seq<Arc>)
      reads this`arcs, this`nrEdges, this`chains, this`owner, first, last, next, pixel, capacity
    {
      && 1 <= i && 1 <= j <= n + 1 && |row| == n && base == Times(i - 1, n) && 0 <= base && base + n + n < t
      && Built(a0, VRow(n, row, base, j)) && |arcs| <= |a0| + 2 * (j - 1) && |a0| + 2 * n < pixel.Length
    }

    /** Lines 216-228, row `i`: the edges each way between vertical neighbours with a positive weight. */
    method ConnectColumn(i: int, row: seq<int>)
      requires Grid() && 1 <= i < m && |row| == n && Built(arcs, VRow(n, row, Times(i - 1, n), 1)) == true
      requires |arcs| + 2 * n < pixel.Length
      modifies this`nrEdges, this`chains, this`owner, this`arcs, first, last, next, pixel, capacity
      ensures Built(old(arcs), VRow(n, row, Times(i - 1, n), n + 1)) == true && |arcs| <= |old(arcs)| + 2 * n
    {
      ghost var base, a0 := Times(i - 1, n), arcs;
      ColumnPassStart(i, row);
      var j := 1;
      while j != n + 1
        decreases n + 1 - j
        invariant ColumnPass(i, j, row, base, a0) == true
      {
        ConnectDown(i, j, row, base, a0);
        j := j + 1;
      }
      ColumnPassDone(i, j, row, base, a0);
      assert a0 == old(arcs);
    }

    /** At the start of row `i`, nothing of it is connected yet, and its pixels and those below lie before the sink. */
    lemma ColumnPassStart(i: int, row: seq<int>)
      requires Grid() && 1 <= i < m && |row| == n && Built(arcs, VRow(n, row, Times(i - 1, n), 1)) == true
      requires |arcs| + 2 * n < pixel.Length
      ensures ColumnPass(i, 1, row, Times(i - 1, n), arcs) == true
    {
      TimesGrow(0, i - 1, n);
      TimesGrow(i + 1, m, n);
      assert Times(i, n) == Times(i - 1, n) + n && Times(i + 1, n) == Times(i, n) + n;
    }

    /** At the end of row `i`, its arcs to the row below are all connected. */
    lemma ColumnPassDone(i: int, j: int, row: seq<int>, base: int, a0: seq<Arc>)
      requires ColumnPass(i, j, row, base, a0) == true && j == n + 1
      ensures Built(a0, VRow(n, row, base, n + 1)) == true && |arcs| <= |a0| + 2 * n
    {
    }

    /** Lines 218-227, column `j` of row `i`. */
    method ConnectDown(i: int, j: int, row: seq<int>, ghost base: int, ghost a0: seq<Arc>)
      requires ColumnPass(i, j, row, base, a0) == true && j <= n
      modifies this`nrEdges, this`chains, this`owner, this`arcs, first, last, next, pixel, capacity
      ensures ColumnPass(i, j + 1, row, base, a0) == true
    {
      PixelBase(n, i, j);
      var u := GetPixel(n, i, j);
      var v := VNeighbor(n, u);
      ghost var a := arcs;
      ConnectPair(u, v, row[j - 1]);
      VRowExtend(n, row, base, j, u, v, a0, a, arcs);
    }

    /** The state once the vertical edges of the rows above row `i` follow the arcs `a0`. */
    ghost predicate ColumnsBuilt(a0: seq<Arc>, vw: seq<seq<int>>, i: int)
      reads this`arcs, this`nrEdges, this`chains, this`owner, first, last, next, pixel, capacity
    {
      && 1 <= n && 1 <= i <= |vw| + 1 && (forall r :: 0 <= r < |vw| ==> |vw[r]| == n)
      && Built(a0, VArcsAbove(n, vw, i)) && |arcs| <= |a0| + 2 * Times(i - 1, n)
    }

    /** Lines 216-228: the vertical edges of rows `1..m-1`. */
    method ConnectColumns(vw: seq<seq<int>>)
      requires Grid() && |vw| == m - 1 && ColumnsBuilt(arcs, vw, 1) == true && |arcs| + 2 * Times(m - 1, n) < pixel.Length
      modifies this`nrEdges, this`chains, this`owner, this`arcs, first, last, next, pixel, capacity
      ensures ColumnsBuilt(old(arcs), vw, m) == true
    {
      ghost var a0 := arcs;
      var i := 1;
      while i != m
        decreases m - i
        invariant 1 <= i <= m && ColumnsBuilt(a0, vw, i) == true
      {
        ConnectColumnsStep(i, vw, a0);
        i := i + 1;
      }
      ColumnsDone(a0, vw, i);
      assert a0 == old(arcs);
    }

    /** At the last row, the vertical arcs of all rows above it are connected. */
    lemma ColumnsDone(a0: seq<Arc>, vw: seq<seq<int>>, i: int)
      requires ColumnsBuilt(a0, vw, i) == true && i == m
      ensures ColumnsBuilt(a0, vw, m) == true
    {
    }

    /** Lines 216-228, one pass of the outer loop: row `i`'s vertical edges follow those of the rows above. */
    method ConnectColumnsStep(i: int, vw: seq<seq<int>>, ghost a0: seq<Arc>)
      requires Grid() && 1 <= i < m && |vw| == m - 1 && ColumnsBuilt(a0, vw, i) == true && |a0| + 2 * Times(m - 1, n) < pixel.Length
      modifies this`nrEdges, this`chains, this`owner, this`arcs, first, last, next, pixel, capacity
      ensures ColumnsBuilt(a0, vw, i + 1) == true
    {
      ColumnsStepStart(i, vw, a0);
      ghost var a := arcs;
      ConnectColumn(i, vw[i - 1]);
      ColumnsStepDone(i, vw, a0, a);
    }

    /** Row `i`'s pass starts from the arcs of the rows above it, with room for its own. */
    lemma ColumnsStepStart(i: int, vw: seq<seq<int>>, a0: seq<Arc>)
      requires Grid() && 1 <= i < m && |vw| == m - 1 && ColumnsBuilt(a0, vw, i) == true && |a0| + 2 * Times(m - 1, n) < pixel.Length
      ensures Built(arcs, VRow(n, vw[i - 1], Times(i - 1, n), 1)) == true && |arcs| + 2 * n < pixel.Length
      ensures arcs == a0 + VArcsAbove(n, vw, i) && |arcs| <= |a0| + 2 * Times(i - 1, n)
    {
      TimesGrow(i, m - 1, n);
      assert Times(i, n) == Times(i - 1, n) + n;
      Rebase(a0, VArcsAbove(n, vw, i), VRow(n, vw[i - 1], Times(i - 1, n), 1));
    }

    /** Row `i`'s pass, started from the arcs `a` of the rows above, leaves the arcs of the rows down to row `i`. */
    lemma ColumnsStepDone(i: int, vw: seq<seq<int>>, a0: seq<Arc>, a: seq<Arc>)
      requires Grid() && 1 <= i < m && |vw| == m - 1 && forall r :: 0 <= r < |vw| ==> |vw[r]| == n
      requires a == a0 + VArcsAbove(n, vw, i) && |a| <= |a0| + 2 * Times(i - 1, n)
      requires Built(a, VRow(n, vw[i - 1], Times(i - 1, n), n + 1)) == true && |arcs| <= |a| + 2 * n
      ensures ColumnsBuilt(a0, vw, i + 1) == true
    {
      VArcsAboveNext(n, vw, i, a0, a, arcs);
      assert Times(i, n) == Times(i - 1, n) + n;
    }

    /**
     * Lines 173-229, `graph_init`, on a new graph and the weights it reads:
     * the edges are the arcs of `InitArcs` in order, they make a simple
     * network, and the weight has grown by the sum of `min(l, c)`.
     */
    method Init(ls: seq<int>, cs: seq<int>, hw: seq<seq<int>>, vw: seq<seq<int>>)
      requires Valid() == true && Listed() == true && Grid() && nrEdges == 0 && Input(m, n, ls, cs, hw, vw)
      modifies this`nrEdges, this`weight, this`chains, this`owner, this`arcs, first, last, next, pixel, capacity
      ensures Valid() == true && Listed() == true && arcs == InitArcs(m, n, ls, cs, hw, vw)
      ensures Simple(owner, pixel[..], nrEdges, t)
      ensures weight == old(weight) + MinSum(ls, cs, m * n)
    {
      RowBases(m, n);
      TimesMonotone(m, n - 1);
      TimesMonotone(m - 1, n);
      ghost var a0 := arcs;
      BuiltNone(a0, TermArcs(ls, cs, t, 0));
      ConnectTerminals(ls, cs);
      ghost var a1, w1 := arcs, weight;
      HArcsAboveFirst(n, hw);
      Rebase(a0, TermArcs(ls, cs, t, t - 1), HArcsAbove(n, hw, 1));
      ConnectRows(hw);
      assert weight == w1;
      ghost var a2 := arcs;
      VArcsAboveFirst(n, vw);
      Rebase(a1, HArcsAbove(n, hw, m + 1), VArcsAbove(n, vw, 1));
      ConnectColumns(vw);
      assert weight == w1;
      InitDone(ls, cs, hw, vw, a0, a1, a2);
      TermsAt(ls, cs, t, t - 1, m * n);
    }

    /** The arcs of the three passes make `InitArcs`, a simple network. */
    lemma InitDone(ls: seq<int>, cs: seq<int>, hw: seq<seq<int>>, vw: seq<seq<int>>, a0: seq<Arc>, a1: seq<Arc>, a2: seq<Arc>)
      requires Grid() && Input(m, n, ls, cs, hw, vw) && a0 == [] && t == m * n + 1
      requires a1 == a0 + TermArcs(ls, cs, t, t - 1) && a2 == a1 + HArcsAbove(n, hw, m + 1)
      requires ColumnsBuilt(a2, vw, m) == true
      ensures Valid() == true && Listed() == true && arcs == InitArcs(m, n, ls, cs, hw, vw)
      ensures Simple(owner, pixel[..], nrEdges, t)
    {
      InitPasses(m, n, t, ls, cs, hw, vw);
      var ts, hs, vs := TermArcs(ls, cs, t, t - 1), HArcsAbove(n, hw, m + 1), VArcsAbove(n, vw, m);
      assert a1 == ts && a2 == ts + hs;
      assert arcs == a2 + vs;
      InitArcsSimple(m, n, t, ls, cs, hw, vw);
      ListedEdges();
      SimpleFromArcs(owner, pixel[..], capacity[..], nrEdges, t, arcs);
    }

    /** `arcs` is the list of the stored edges. */
    lemma ListedEdges()
      requires Frame() && Listed()
      ensures arcs == Edges(owner, pixel[..], capacity[..], nrEdges)
    {
    }
  }
}
