/**
 * Tarjan's strongly-connected-components search of proj/2017-2018/p1, shared
 * by its C (`graph_SCC_find_aux`, `graph_SCC_find`) and C++
 * (`Graph::SCC_find_aux`, `Graph::SCC_find`) versions, which run the same
 * steps over the same adjacency lists.
 *
 * The search numbers vertices in discovery order (`disc`), keeps the
 * discovered vertices not yet assigned to a component on a marker stack, and,
 * at a vertex whose `low` equals its `disc`, pops the stack down to that
 * vertex: the popped vertices form one component, and each gets as `head`
 * the smallest id among them.
 */
module Tarjan {
  import opened Seqs
  import opened SearchState
  import opened VertexStacks
  import opened Reachability
  import opened SearchReach

  /** The C macro `min(a, b)`. */
  function Min(a: int, b: int): (r: int)
    ensures r <= a && r <= b && (r == a || r == b)
  {
    if a > b then b else a
  }

  /**
   * The state of one run of the search over the lists `adj[1..n]`
   * (`graph_SCC_find` and `graph_SCC_find_aux`): discovery numbers, low
   * links, heads, the vertex stack and the temporary stack of a popped
   * component, the discovery clock and the count of components found.
   */
  class Search {
    const n: nat
    const adj: seq<seq<int>>
    const disc: array<int>
    const low: array<int>
    const head: array<int>
    const st: VertexStack
    const stTemp: VertexStack
    var discTime: int
    var components: nat

    /** Everything a step of the search may write. */
    ghost function Repr(): set<object>
    {
      {this, disc, low, head, st, st.data, st.inStack, stTemp, stTemp.data, stTemp.inStack}
    }

    /** Sizes and separation of the buffers; fixed once constructed. */
    ghost predicate Shape()
    {
      Wellformed(adj, n) && Separate(n, disc, low, head, st, stTemp)
    }

    /**
     * The invariant of the search between steps.  Contracts in this class
     * state this and the other invariants compared with `true`
     * (`Valid() == true`): the verifier then checks each as one fact instead
     * of conjunct by conjunct, and unfolds it only where a proof needs a
     * part of it.
     */
    ghost predicate Valid()
      reads this, disc, head, st, st.data, st.inStack, stTemp, stTemp.data, stTemp.inStack
    {
      Shape() &&
      st.Valid() && stTemp.Valid() && stTemp.contents == [] &&
      Numbered(disc[..], st.contents, discTime, n) &&
      Assigned(disc[..], st.inStack[..], head[..], n) &&
      Tracked(adj, n, disc[..], st.contents, st.inStack[..], head[..]) &&
      components == |Roots(head[..], n)|
    }

    /** `Valid()` from the sequences the buffers hold. */
    lemma ValidFrom(d: seq<int>, c: seq<int>, m: seq<bool>, h: seq<int>, t: int)
      requires Shape() == true
      requires st.Valid() == true
      requires stTemp.Valid() == true
      requires stTemp.contents == []
      requires disc[..] == d
      requires st.contents == c
      requires st.inStack[..] == m
      requires head[..] == h
      requires discTime == t
      requires Numbered(d, c, t, n)
      requires Assigned(d, m, h, n)
      requires Tracked(adj, n, d, c, m, h)
      requires components == |Roots(h, n)|
      ensures Valid() == true
    {
    }

    /** The vertices not discovered yet. */
    ghost function Undiscovered(): set<int>
      reads disc
    {
      Unnumbered(disc[..], n)
    }

    /**
     * The set-up of `graph_SCC_find`: zeroed `disc`, `low` and `head` of
     * `n + 1` entries, the clock at 0, two empty stacks, no component.
     */
    constructor New(adj: seq<seq<int>>, n: nat)
      requires Wellformed(adj, n)
      ensures Valid() == true && st.contents == [] && components == 0 && discTime == 0
      ensures this.adj == adj && this.n == n
      ensures forall x :: 0 <= x <= n ==> disc[x] == 0 && head[x] == 0
      ensures fresh(disc) && fresh(low) && fresh(head) && fresh(st) && fresh(st.data) && fresh(st.inStack)
      ensures fresh(stTemp) && fresh(stTemp.data) && fresh(stTemp.inStack)
    {
      var d := new int[n + 1](_ => 0);
      var l := new int[n + 1](_ => 0);
      var h := new int[n + 1](_ => 0);
      var s1 := new VertexStack.New(n);
      var s2 := new VertexStack.New(n);
      StartState(d[..], s1.inStack[..], h[..], n);
      StartTracked(adj, d[..], s1.inStack[..], h[..], n);
      this.n, this.adj := n, adj;
      disc, low, head := d, l, h;
      st, stTemp := s1, s2;
      discTime, components := 0, 0;
    }

    /** Entry of `graph_SCC_find_aux`: `disc[u] = low[u] = ++disc_time`, then `u` is pushed. */
    method Discover(u: int)
      requires Valid() == true && 1 <= u <= n && disc[u] == 0 && ReachesFrom(adj, st.contents, 0, u)
      modifies this, disc, low, st, st.data, st.inStack
      ensures Valid() == true
      ensures st.contents == old(st.contents) + [u]
      ensures disc[..] == old(disc[..])[u := old(discTime) + 1]
      ensures low[..] == old(low[..])[u := old(discTime) + 1]
      ensures discTime == old(discTime) + 1 && components == old(components)
    {
      ghost var c, d, m, h, t := st.contents, disc[..], st.inStack[..], head[..], discTime;
      DiscoverKeepsNumbered(d, c, t, n, u);
      DiscoverKeepsAssigned(d, m, h, n, u, t + 1);
      DiscoverKeepsTracked(adj, n, d, c, m, h, u, t + 1);
      disc[u] := discTime + 1;
      low[u] := discTime + 1;
      discTime := discTime + 1;
      st.Push(u);
      ValidFrom(d[u := t + 1], c + [u], m[u := true], h, t + 1);
    }

    /** The start of the first loop: push `u` on the temporary stack, pop the top. */
    method MoveFirst(u: int, ghost p: int) returns (v: int)
      requires Shape() == true && st.Valid() == true && stTemp.Valid() == true && stTemp.contents == []
      requires AllIn(st.contents, 1, n + 1) && 0 <= p < |st.contents| && st.contents[p] == u
      modifies st, st.inStack, stTemp, stTemp.data, stTemp.inStack
      ensures Moving(st, stTemp, n, u, v, u, old(st.contents), |old(st.contents)| - 1, p, p) == true
    {
      ghost var s := st.contents;
      stTemp.Push(u);
      v := st.Pop();
      assert s[|s|..] == [];
    }

    /** The body of the first loop: `root = min(root, v)`, push `v`, pop the next. */
    method MoveOne(u: int, v: int, root: int, ghost s: seq<int>, ghost k: int, ghost p: int, ghost ri: int)
      returns (v1: int, root1: int, ghost ri1: int)
      requires Shape() == true && Moving(st, stTemp, n, u, v, root, s, k, p, ri) == true && v != u
      modifies st, st.inStack, stTemp, stTemp.data, stTemp.inStack
      ensures Moving(st, stTemp, n, u, v1, root1, s, k - 1, p, ri1) == true
    {
      MoveStep(s, k, p, stTemp.contents, n);
      ri1 := if root > v then k else ri;
      root1 := Min(root, v);
      stTemp.Push(v);
      v1 := st.Pop();
    }

    /**
     * The first loop of the root block of `graph_SCC_find_aux`: pops the
     * stack down to `u` (stacked at position `p`), moving the popped
     * vertices onto the temporary stack and taking the smallest id as root.
     */
    method MoveComponent(u: int, ghost p: int) returns (root: int, ghost t: seq<int>)
      requires Shape() == true && st.Valid() == true && stTemp.Valid() == true && stTemp.contents == []
      requires AllIn(st.contents, 1, n + 1) && 0 <= p < |st.contents| && st.contents[p] == u
      modifies st, st.inStack, stTemp, stTemp.data, stTemp.inStack
      ensures st.Valid() == true && stTemp.Valid() == true
      ensures st.contents == old(st.contents)[..p]
      ensures stTemp.contents == t && t != [] && t[0] == u && AllIn(t, 1, n + 1)
      ensures multiset(t) == multiset(old(st.contents)[p..])
      ensures root in old(st.contents)[p..]
      ensures forall i :: p <= i < |old(st.contents)| ==> root <= old(st.contents)[i]
    {
      ghost var s := st.contents;
      root := u;
      var v := MoveFirst(u, p);
      ghost var k := |s| - 1;
      ghost var ri := p;
      while v != u
        invariant Moving(st, stTemp, n, u, v, root, s, k, p, ri) == true
        decreases k
      {
        v, root, ri := MoveOne(u, v, root, s, k, p, ri);
        k := k - 1;
      }
      t := stTemp.contents;
      MoveDone(st, stTemp, n, u, root, s, k, p, ri);
    }

    /**
     * The second loop of the root block: gives `u` and every vertex popped
     * from the temporary stack the head `root`.
     */
    method AssignHeads(u: int, root: int, ghost t: seq<int>)
      requires head.Length == n + 1 && head != stTemp.data
      requires stTemp.Valid() == true && stTemp.contents == t && t != [] && t[0] == u && AllIn(t, 1, n + 1)
      modifies head, stTemp, stTemp.inStack
      ensures stTemp.Valid() == true && stTemp.contents == []
      ensures head[..] == Fill(old(head[..]), t, root)
    {
      ghost var h0 := head[..];
      head[u] := root;
      var v := stTemp.Pop();
      ghost var j := |t| - 1;
      while v != u
        invariant stTemp.Valid() == true && 0 <= j < |t| && v == t[j] && stTemp.contents == t[..j]
        invariant head[..] == Fill(h0[u := root], t[j + 1..], root)
        decreases j
      {
        PopStep(t, j, u);
        head[v] := root;
        v := stTemp.Pop();
        j := j - 1;
      }
      PopDone(h0, t, j, u, root);
    }

    /**
     * The root block of `graph_SCC_find_aux`: one more component, made of the
     * vertices stacked from `u` (at position `p`) upwards, each of which gets
     * as head the smallest of their ids.
     */
    method PopComponent(u: int, ghost p: int) returns (root: int)
      requires Valid() == true && 0 <= p < |st.contents| && st.contents[p] == u
      requires ReachesFrom(adj, st.contents, p, u) && SettledFrom(adj, n, disc[..], st.contents, st.inStack[..], disc[u], p)
      modifies this, head, st, st.inStack, stTemp, stTemp.data, stTemp.inStack
      ensures Valid() == true && discTime == old(discTime) && components == old(components) + 1
      ensures st.contents == old(st.contents)[..p]
      ensures root in old(st.contents)[p..] && forall y :: y in old(st.contents)[p..] ==> root <= y
      ensures forall x :: 0 <= x <= n ==> head[x] == if x in old(st.contents)[p..] then root else old(head[x])
    {
      ghost var s, d, m0, h0 := st.contents, disc[..], st.inStack[..], head[..];
      components := components + 1;
      ghost var t;
      root, t := MoveComponent(u, p);
      AssignHeads(u, root, t);
      PopKeeps(d, m0, st.inStack[..], h0, head[..], s, t, p, root, n, discTime);
      PopKeepsTracked(adj, n, d, s, m0, st.inStack[..], h0, head[..], p, root, discTime);
      ValidFrom(d, s[..p], st.inStack[..], head[..], discTime);
    }

    /** The entry of `graph_SCC_find_aux(u)`, which starts the loop over the targets of `u`. */
    method Begin(u: int)
      requires Valid() == true && 1 <= u <= n && disc[u] == 0 && ReachesFrom(adj, st.contents, 0, u)
      modifies this, disc, low, st, st.data, st.inStack
      ensures Valid() == true
      ensures LoopState(adj, n, u, old(st.contents), old(disc[..]), old(low[..]), old(discTime), old(Undiscovered()), 0,
                        |old(st.contents)|, disc[..], st.contents, st.inStack[..], low[..], discTime) == true
    {
      ghost var s0, d0, l0, t0 := st.contents, disc[..], low[..], discTime;
      assert Numbered(d0, s0, t0, n) && Shape();
      Discover(u);
      LoopStart(adj, n, u, s0, d0, l0, t0, disc[..], st.contents, st.inStack[..], low[..], discTime);
    }

    /**
     * `graph_SCC_find_aux(u)`: numbers and stacks `u`, explores its targets
     * in list order (recurring into undiscovered ones, lowering `low[u]` by a
     * child's `low` or by a stacked target's `disc`), and pops a component
     * when `low[u]` equals `disc[u]`.  Afterwards `VisitState` holds: `u`
     * is numbered, older numbers are kept, every vertex left stacked above
     * the old stack reaches `u`, and the targets of all of them are settled.
     */
    method Visit(u: int) returns (ghost w: int)
      requires Valid() == true && 1 <= u <= n && disc[u] == 0 && ReachesFrom(adj, st.contents, 0, u)
      modifies Repr()
      ensures Valid() == true
      ensures VisitState(adj, n, u, old(st.contents), old(disc[..]), old(low[..]), old(discTime), old(Undiscovered()), w,
                         disc[..], st.contents, st.inStack[..], low[..], discTime) == true
      decreases Undiscovered(), 4
    {
      ghost var s0, d0, l0, t0, U0 := st.contents, disc[..], low[..], discTime, Undiscovered();
      Begin(u);
      w := ExploreAll(u, s0, d0, l0, t0, U0);
      Close(u, s0, d0, l0, t0, U0, w);
    }

    /** The loop of `graph_SCC_find_aux(u)` over the targets of `u`, in list order. */
    method ExploreAll(u: int, ghost s0: seq<int>, ghost d0: seq<int>, ghost l0: seq<int>, ghost t0: int,
                      ghost U0: set<int>) returns (ghost w: int)
      requires Valid() == true && 0 <= u < |adj|
      requires LoopState(adj, n, u, s0, d0, l0, t0, U0, 0, |s0|,
                         disc[..], st.contents, st.inStack[..], low[..], discTime) == true
      modifies Repr()
      ensures Valid() == true
      ensures LoopState(adj, n, u, s0, d0, l0, t0, U0, |adj[u]|, w,
                        disc[..], st.contents, st.inStack[..], low[..], discTime) == true
      decreases U0, 3
    {
      w := |s0|;
      var i := 0;
      while i < |adj[u]|
        invariant 0 <= i <= |adj[u]| && Valid() == true
        invariant LoopState(adj, n, u, s0, d0, l0, t0, U0, i, w,
                            disc[..], st.contents, st.inStack[..], low[..], discTime) == true
      {
        w := Explore(u, adj[u][i], s0, d0, l0, t0, U0, i, w);
        i := i + 1;
      }
    }

    /**
     * The end of `graph_SCC_find_aux(u)`: when `low[u]` equals `disc[u]`,
     * the vertices stacked from `u` upwards are popped as one component.
     */
    method Close(u: int, ghost s0: seq<int>, ghost d0: seq<int>, ghost l0: seq<int>, ghost t0: int, ghost U0: set<int>,
                 ghost w: int)
      requires Valid() == true && 0 <= u < |adj|
      requires LoopState(adj, n, u, s0, d0, l0, t0, U0, |adj[u]|, w,
                         disc[..], st.contents, st.inStack[..], low[..], discTime) == true
      modifies this, head, st, st.inStack, stTemp, stTemp.data, stTemp.inStack
      ensures Valid() == true
      ensures VisitState(adj, n, u, s0, d0, l0, t0, U0, w, disc[..], st.contents, st.inStack[..], low[..], discTime) == true
    {
      ghost var D, S, M, L, T := disc[..], st.contents, st.inStack[..], low[..], discTime;
      if low[u] == disc[u] {
        Closing(adj, n, D, S, M, L[u], |s0|, u, w);
        var _ := PopComponent(u, |s0|);
        ClosePopped(adj, n, u, s0, d0, l0, t0, U0, w, D, S, M, L, T, st.contents, st.inStack[..]);
      } else {
        CloseKept(adj, n, u, s0, d0, l0, t0, U0, w, D, S, M, L, T);
      }
    }

    /** `low[u] = x`, the write of `low[u] = min(low[u], ...)`. */
    method Lower(u: int, x: int)
      requires Valid() == true && 0 <= u <= n
      modifies low
      ensures Valid() == true && low[..] == old(low[..])[u := x]
    {
      low[u] := x;
    }

    /**
     * One iteration of the loop of `graph_SCC_find_aux(u)` over its `i`-th
     * target `v`: an undiscovered `v` is visited and lowers `low[u]` to its
     * own `low`; a stacked `v` lowers `low[u]` to its `disc`; any other
     * target changes nothing.  The loop state moves on to target `i + 1`.
     */
    method Explore(u: int, v: int, ghost s0: seq<int>, ghost d0: seq<int>, ghost l0: seq<int>, ghost t0: int,
                   ghost U0: set<int>, ghost i: int, ghost w: int)
      returns (ghost w': int)
      requires Valid() == true && 0 <= u < |adj| && 0 <= i < |adj[u]| && adj[u][i] == v
      requires LoopState(adj, n, u, s0, d0, l0, t0, U0, i, w,
                         disc[..], st.contents, st.inStack[..], low[..], discTime) == true
      modifies Repr()
      ensures Valid() == true
      ensures LoopState(adj, n, u, s0, d0, l0, t0, U0, i + 1, w',
                        disc[..], st.contents, st.inStack[..], low[..], discTime) == true
      decreases U0, 2
    {
      assert Shape();
      ghost var D1, S1, M1, L1, T1 := disc[..], st.contents, st.inStack[..], low[..], discTime;
      if disc[v] == 0 {
        w' := Descend(u, v, s0, d0, l0, t0, U0, i, w);
      } else if st.Contains(v) {
        ghost var j :| 0 <= j < |S1| && S1[j] == v;
        Lower(u, Min(low[u], disc[v]));
        w' := ExploreStacked(adj, n, u, s0, d0, l0, t0, U0, i, w, D1, S1, M1, L1, T1, j, low[u]);
      } else {
        ExploreAssigned(adj, n, u, s0, d0, l0, t0, U0, i, w, D1, S1, M1, L1, T1);
        w' := w;
      }
    }

    /**
     * The recursion of `graph_SCC_find_aux(u)` into its undiscovered `i`-th
     * target `v`, followed by `low[u] = min(low[u], low[v])`.
     */
    method Descend(u: int, v: int, ghost s0: seq<int>, ghost d0: seq<int>, ghost l0: seq<int>, ghost t0: int,
                   ghost U0: set<int>, ghost i: int, ghost w: int)
      returns (ghost w': int)
      requires Valid() == true && 0 <= u < |adj| && 0 <= i < |adj[u]| && adj[u][i] == v && 1 <= v <= n && disc[v] == 0
      requires LoopState(adj, n, u, s0, d0, l0, t0, U0, i, w,
                         disc[..], st.contents, st.inStack[..], low[..], discTime) == true
      modifies Repr()
      ensures Valid() == true
      ensures LoopState(adj, n, u, s0, d0, l0, t0, U0, i + 1, w',
                        disc[..], st.contents, st.inStack[..], low[..], discTime) == true
      decreases U0, 1
    {
      ghost var D1, S1, M1, L1, T1 := disc[..], st.contents, st.inStack[..], low[..], discTime;
      ReachesTarget(adj, n, D1, S1, M1, L1[u], |s0|, u, i, w, v);
      ghost var wv := Visit(v);
      ghost var D2, S2, M2, L2, T2 := disc[..], st.contents, st.inStack[..], low[..], discTime;
      Lower(u, Min(low[u], low[v]));
      w' := ExploreChild(adj, n, u, v, s0, d0, l0, t0, U0, i, w, D1, S1, M1, L1, T1,
                         D2, S2, M2, L2, T2, wv, low[u]);
    }

    /**
     * The search loop of `graph_SCC_find`: visits every vertex `1..n` not
     * discovered yet.  Afterwards every vertex is discovered, the stack is
     * empty, the heads form a partition and the count of components is the
     * number of vertices heading their own component.
     */
    method Run()
      requires Valid() == true && st.contents == []
      modifies Repr()
      ensures Valid() == true && st.contents == []
      ensures forall x :: 1 <= x <= n ==> disc[x] != 0
      ensures Partition(head[..], n) && components == |Roots(head[..], n)|
      ensures forall x, y :: 1 <= x <= n && 1 <= y <= n ==> (head[x] == head[y] <==> Mutual(adj, x, y))
    {
      var u := 1;
      while u <= n
        invariant 1 <= u <= n + 1 && Valid() == true && st.contents == []
        invariant forall x :: 1 <= x < u ==> disc[x] != 0
      {
        if disc[u] == 0 {
          ghost var _ := Visit(u);
        }
        u := u + 1;
      }
      Finished(disc[..], st.inStack[..], head[..], n);
      TrackedFinished(adj, n, disc[..], st.inStack[..], head[..]);
    }
  }
}
