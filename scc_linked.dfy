/**
 * `graph_SCC_find` of proj/2017-2018/p1/src/proj.c: Tarjan's search over the
 * linked store (`Tarjan.Search`), then the condensation pass, which walks
 * every chain of `1..n` again and, for each arc `u -> v` whose ends have
 * different heads, calls `graph_connect(scc, head[u], head[v])`.  The
 * condensation graph so gets one arc per pair of components joined by some
 * arc, from the smallest id of one to the smallest id of the other, with
 * duplicates dropped by the store.
 */
module SccLinked {
  import opened Seqs
  import opened Chains
  import opened LinkedGraph
  import opened SearchState
  import opened Tarjan
  import opened Reachability

  /** The condensation pairs met along the first `k` targets `t` of `u`, in list order. */
  ghost function Crossing(t: seq<int>, k: int, u: int, head: seq<int>): (r: seq<(int, int)>)
    requires 0 <= u < |head| && 0 <= k <= |t| && AllIn(t, 0, |head|)
    ensures |r| <= k
    decreases k
  {
    if k == 0 then []
    else
      var v := t[k - 1];
      Crossing(t, k - 1, u, head) + (if head[u] != head[v] then [(head[u], head[v])] else [])
  }

  /** The condensation pairs of the vertices `1..m`, in the order the pass meets them. */
  ghost function Crossings(adj: seq<seq<int>>, head: seq<int>, m: int): seq<(int, int)>
    requires Wellformed(adj, |head| - 1) && 0 <= m < |adj|
    decreases m
  {
    if m == 0 then []
    else
      assert AllIn(adj[m], 0, |head|) by { TargetsIn(adj, |head| - 1, m); }
      Crossings(adj, head, m - 1) + Crossing(adj[m], |adj[m]|, m, head)
  }

  /**
   * `(a, b)` is an arc of the condensation of the vertices `1..m`: some arc
   * `u -> v`, with `u` among them, has ends with different heads `a` and `b`.
   */
  ghost predicate Crosses(adj: seq<seq<int>>, head: seq<int>, m: int, a: int, b: int)
  {
    exists u, v :: 1 <= u <= m && u < |adj| && u < |head| && v in adj[u] && 0 <= v < |head| &&
      head[u] != head[v] && a == head[u] && b == head[v]
  }

  /** Every vertex of `1..n` has a head in `1..n`, as a finished search leaves it. */
  ghost predicate HeadsIn(head: seq<int>, n: int)
  {
    |head| == n + 1 && forall x :: 1 <= x <= n ==> 1 <= head[x] <= n
  }

  lemma TargetsIn(adj: seq<seq<int>>, n: int, u: int)
    requires Wellformed(adj, n) && 0 <= u < |adj|
    ensures AllIn(adj[u], 0, n + 1) && AllIn(adj[u], 1, n + 1)
  {
  }

  /** The pairs of a prefix of a list are exactly the heads of its crossing arcs. */
  lemma {:induction false} CrossingMember(t: seq<int>, k: int, u: int, head: seq<int>, a: int, b: int)
    requires 0 <= u < |head| && 0 <= k <= |t| && AllIn(t, 0, |head|)
    ensures (a, b) in Crossing(t, k, u, head) <==>
      exists i :: 0 <= i < k && head[u] != head[t[i]] && a == head[u] && b == head[t[i]]
    decreases k
  {
    if k > 0 {
      CrossingMember(t, k - 1, u, head, a, b);
    }
  }

  /** The pairs of the vertices `1..m` are exactly the arcs of their condensation. */
  lemma {:induction false} CrossingsMember(adj: seq<seq<int>>, head: seq<int>, m: int, a: int, b: int)
    requires Wellformed(adj, |head| - 1) && 0 <= m < |adj|
    ensures (a, b) in Crossings(adj, head, m) <==> Crosses(adj, head, m, a, b)
    decreases m
  {
    if m > 0 {
      TargetsIn(adj, |head| - 1, m);
      CrossingsMember(adj, head, m - 1, a, b);
      CrossingMember(adj[m], |adj[m]|, m, head, a, b);
      if Crosses(adj, head, m, a, b) && !Crosses(adj, head, m - 1, a, b) {
        var w, v :| 1 <= w <= m && w < |adj| && w < |head| && v in adj[w] && 0 <= v < |head| &&
          head[w] != head[v] && a == head[w] && b == head[v];
        assert w == m;
        var i :| 0 <= i < |adj[m]| && adj[m][i] == v;
      }
      if (a, b) in Crossing(adj[m], |adj[m]|, m, head) {
        var i :| 0 <= i < |adj[m]| && head[m] != head[adj[m][i]] && a == head[m] && b == head[adj[m][i]];
        assert adj[m][i] in adj[m];
      }
    }
  }

  /** Once the search is finished, every pair met on a list names two heads, that is, two vertex ids. */
  lemma {:induction false} CrossingIn(t: seq<int>, k: int, u: int, head: seq<int>, n: int)
    requires HeadsIn(head, n) && 1 <= u <= n && 0 <= k <= |t| && AllIn(t, 0, n + 1) && AllIn(t, 1, n + 1)
    ensures PairsIn(Crossing(t, k, u, head), n + 1)
    decreases k
  {
    if k > 0 {
      CrossingIn(t, k - 1, u, head, n);
    }
  }

  /** The same for every list of the vertices `1..m`. */
  lemma {:induction false} CrossingsIn(adj: seq<seq<int>>, head: seq<int>, n: int, m: int)
    requires Wellformed(adj, n) && HeadsIn(head, n) && 0 <= m <= n
    ensures PairsIn(Crossings(adj, head, m), n + 1)
    decreases m
  {
    if m > 0 {
      CrossingsIn(adj, head, n, m - 1);
      TargetsIn(adj, n, m);
      CrossingIn(adj[m], |adj[m]|, m, head, n);
    }
  }

  /**
   * Every arc of the condensation joins two different heads of a finished
   * search, each the smallest id of its component.
   */
  lemma CrossesJoinsHeads(adj: seq<seq<int>>, head: seq<int>, n: int, a: int, b: int)
    requires Wellformed(adj, n) && Partition(head, n) && Crosses(adj, head, n, a, b)
    ensures a != b && a in Roots(head, n) && b in Roots(head, n)
  {
  }

  /** Two vertices of `1..n` have the same head exactly when they reach each other. */
  ghost predicate StrongHeads(adj: seq<seq<int>>, head: seq<int>, n: int)
  {
    |head| == n + 1 && forall x, y :: 1 <= x <= n && 1 <= y <= n ==> (head[x] == head[y] <==> Mutual(adj, x, y))
  }

  /** `p` is a walk along arcs of the condensation of the vertices `1..n`. */
  ghost predicate CondensedWalk(adj: seq<seq<int>>, head: seq<int>, n: int, p: seq<int>)
  {
    forall i :: 0 <= i < |p| - 1 ==> Crosses(adj, head, n, p[i], p[i + 1])
  }

  /** No walk of one or more arcs of the condensation returns to where it started. */
  ghost predicate CondensedAcyclic(adj: seq<seq<int>>, head: seq<int>, n: int)
  {
    forall p :: CondensedWalk(adj, head, n, p) && |p| >= 2 ==> p[0] != p[|p| - 1]
  }

  /** An arc of the condensation leads from a component to a component it reaches. */
  lemma CrossesReach(adj: seq<seq<int>>, head: seq<int>, n: int, a: int, b: int)
    requires Wellformed(adj, n) && Partition(head, n) && StrongHeads(adj, head, n) && Crosses(adj, head, n, a, b)
    ensures Reach(adj, a, b)
  {
    var u, v :| 1 <= u <= n && u < |adj| && u < |head| && v in adj[u] && 0 <= v < |head| &&
      head[u] != head[v] && a == head[u] && b == head[v];
    TargetsIn(adj, n, u);
    assert 1 <= v <= n;
    assert Mutual(adj, a, u) by { assert head[a] == head[u]; }
    assert Mutual(adj, v, b) by { assert head[v] == head[b]; }
    ReachArc(adj, u, v);
    ReachTrans(adj, a, u, v);
    ReachTrans(adj, a, v, b);
  }

  /** A walk of the condensation stays within reach of where it started. */
  lemma {:induction false} CondensedWalkReach(adj: seq<seq<int>>, head: seq<int>, n: int, p: seq<int>)
    requires Wellformed(adj, n) && Partition(head, n) && StrongHeads(adj, head, n)
    requires CondensedWalk(adj, head, n, p) && |p| >= 1
    ensures Reach(adj, p[0], p[|p| - 1])
    decreases |p|
  {
    if |p| == 1 {
      ReachRefl(adj, p[0]);
    } else {
      var q := p[1..];
      assert CondensedWalk(adj, head, n, q) by {
        forall i | 0 <= i < |q| - 1 ensures Crosses(adj, head, n, q[i], q[i + 1]) {
          assert q[i] == p[i + 1] && q[i + 1] == p[i + 2];
        }
      }
      CondensedWalkReach(adj, head, n, q);
      CrossesReach(adj, head, n, p[0], p[1]);
      ReachTrans(adj, p[0], p[1], p[|p| - 1]);
    }
  }

  /**
   * Once the heads name the strongly connected components, the
   * condensation has no cycle: a cycle through two heads would make them
   * reach each other, so they would be one head.
   */
  lemma CondensationAcyclic(adj: seq<seq<int>>, head: seq<int>, n: int)
    requires Wellformed(adj, n) && Partition(head, n) && StrongHeads(adj, head, n)
    ensures CondensedAcyclic(adj, head, n)
  {
    forall p | CondensedWalk(adj, head, n, p) && |p| >= 2 ensures p[0] != p[|p| - 1] {
      if p[0] == p[|p| - 1] {
        var q := p[1..];
        assert CondensedWalk(adj, head, n, q) by {
          forall i | 0 <= i < |q| - 1 ensures Crosses(adj, head, n, q[i], q[i + 1]) {
            assert q[i] == p[i + 1] && q[i + 1] == p[i + 2];
          }
        }
        CondensedWalkReach(adj, head, n, q);
        CrossesReach(adj, head, n, p[0], p[1]);
        CrossesJoinsHeads(adj, head, n, p[0], p[1]);
        assert Mutual(adj, p[0], p[1]);
        assert false;
      }
    }
  }

  /** The targets of every vertex `0..|first|-1`, read chain by chain. */
  method Lists(g: Graph) returns (adj: seq<seq<int>>)
    requires g.Valid()
    ensures adj == g.Adj()
  {
    adj := [];
    var u := 0;
    while u < g.first.Length
      invariant 0 <= u <= g.first.Length && adj == g.Adj()[..u]
    {
      var t := g.Neighbours(u);
      adj := adj + [t];
      u := u + 1;
    }
  }

  /** The pairs met once `t[k]` is read: one more when it crosses. */
  lemma CrossingNext(es: seq<(int, int)>, done: seq<(int, int)>, t: seq<int>, k: int, u: int, head: seq<int>, n: int)
      returns (next: seq<(int, int)>)
    requires HeadsIn(head, n) && 1 <= u <= n && 0 <= k < |t| && AllIn(t, 0, n + 1) && AllIn(t, 1, n + 1)
    requires done == es + Crossing(t, k, u, head) && PairsIn(done, n + 1)
    ensures next == es + Crossing(t, k + 1, u, head) && PairsIn(next, n + 1)
    ensures head[u] != head[t[k]] ==> next == done + [(head[u], head[t[k]])]
    ensures head[u] == head[t[k]] ==> next == done
  {
    next := es + Crossing(t, k + 1, u, head);
    var v := t[k];
    if head[u] != head[v] {
      assert next == done + [(head[u], head[v])];
    } else {
      assert next == done + [];
    }
  }

  /**
   * One step of the inner loop of the condensation pass: read `v = t[k]`
   * and, when `head[u] != head[v]`, `graph_connect(scc, head[u], head[v])`.
   * `done` and `next` are the pairs met before and after the step.
   */
  method ConnectNext(scc: Graph, head: seq<int>, t: seq<int>, k: int, u: int,
                     ghost n: int, ghost a0: AdjLists, ghost es: seq<(int, int)>, ghost done: seq<(int, int)>)
      returns (ghost next: seq<(int, int)>)
    requires scc.Valid() == true && scc.first.Length == n + 1 && |a0| == n + 1
    requires HeadsIn(head, n) && 1 <= u <= n && 0 <= k < |t| && AllIn(t, 0, n + 1) && AllIn(t, 1, n + 1)
    requires done == es + Crossing(t, k, u, head) && PairsIn(done, n + 1)
    requires scc.Adj() == ConnectAll(a0, done, false)
    requires scc.nrEdges + 1 < scc.vertex.Length
    modifies scc, scc.first, scc.vertex, scc.next
    ensures scc.Valid() == true && scc.nrVertices == old(scc.nrVertices)
    ensures next == es + Crossing(t, k + 1, u, head) && PairsIn(next, n + 1)
    ensures scc.Adj() == ConnectAll(a0, next, false)
    ensures scc.nrEdges <= old(scc.nrEdges) + 1
  {
    var v := t[k];
    next := CrossingNext(es, done, t, k, u, head, n);
    if head[u] != head[v] {
      ConnectAllSnoc(a0, done, (head[u], head[v]), false);
      scc.Connect(head[u], head[v], false);
    }
  }

  /**
   * The inner loop of the condensation pass: walk `u`'s targets `t` and,
   * for each `v` with `head[u] != head[v]`, `graph_connect(scc, head[u], head[v])`.
   * The head array is only read here, so its contents stand for it.
   * The store then holds the pairs `es` met before, followed by the pairs
   * of `t`, which are returned as `done`.
   */
  method ConnectCrossing(scc: Graph, head: seq<int>, t: seq<int>, u: int, ghost n: int, ghost a0: AdjLists, ghost es: seq<(int, int)>)
      returns (ghost done: seq<(int, int)>)
    requires scc.Valid() == true && scc.first.Length == n + 1 && |a0| == n + 1
    requires HeadsIn(head, n) && 1 <= u <= n && AllIn(t, 0, n + 1) && AllIn(t, 1, n + 1)
    requires PairsIn(es, n + 1) && scc.Adj() == ConnectAll(a0, es, false)
    requires scc.nrEdges + |t| < scc.vertex.Length
    modifies scc, scc.first, scc.vertex, scc.next
    ensures scc.Valid() == true && scc.nrVertices == old(scc.nrVertices)
    ensures done == es + Crossing(t, |t|, u, head) && PairsIn(done, n + 1)
    ensures scc.Adj() == ConnectAll(a0, done, false)
    ensures scc.nrEdges <= old(scc.nrEdges) + |t|
  {
    done := es;
    assert es + Crossing(t, 0, u, head) == es;
    var k := 0;
    while k < |t|
      invariant 0 <= k <= |t| && scc.first.Length == n + 1
      invariant scc.Valid() == true && scc.nrVertices == old(scc.nrVertices)
      invariant done == es + Crossing(t, k, u, head) && PairsIn(done, n + 1)
      invariant scc.Adj() == ConnectAll(a0, done, false)
      invariant scc.nrEdges <= old(scc.nrEdges) + k
    {
      done := ConnectNext(scc, head, t, k, u, n, a0, es, done);
      k := k + 1;
    }
  }

  /**
   * The condensation pass of `graph_SCC_find`: for every `u` of `1..n`, in
   * order, connect the heads of the arcs of `u` that cross components.
   * `adj` holds the chains of the searched graph, which the pass does not
   * change; `pairs` are the pairs met, in order.
   */
  method Condense(scc: Graph, adj: seq<seq<int>>, head: seq<int>, n: nat) returns (ghost pairs: seq<(int, int)>)
    requires Wellformed(adj, n) && HeadsIn(head, n)
    requires scc.Valid() == true && scc.first.Length == n + 1 && scc.nrEdges + TotalLength(adj) < scc.vertex.Length
    modifies scc, scc.first, scc.vertex, scc.next
    ensures scc.Valid() == true && scc.nrVertices == old(scc.nrVertices)
    ensures pairs == Crossings(adj, head, n) && PairsIn(pairs, n + 1)
    ensures scc.Adj() == ConnectAll(old(scc.Adj()), pairs, false)
  {
    ghost var a0, e0 := scc.Adj(), scc.nrEdges;
    TotalLengthBound(adj, 1);
    pairs := [];
    var u := 1;
    while u <= n
      invariant 1 <= u <= n + 1 && scc.first.Length == n + 1
      invariant scc.Valid() == true && scc.nrVertices == old(scc.nrVertices)
      invariant pairs == Crossings(adj, head, u - 1) && PairsIn(pairs, n + 1)
      invariant scc.Adj() == ConnectAll(a0, pairs, false)
      invariant scc.nrEdges <= e0 + TotalLength(adj[..u])
    {
      TargetsIn(adj, n, u);
      TotalLengthPrefix(adj, u);
      TotalLengthBound(adj, u + 1);
      pairs := ConnectCrossing(scc, head, adj[u], u, n, a0, pairs);
      u := u + 1;
    }
  }

  /**
   * The first half of `graph_SCC_find`: Tarjan's search from every
   * undiscovered vertex of `1..n`, in order, over fresh `disc`, `low`,
   * `head` and stacks, on the chains `adj` of the graph.  Returns the final
   * head array and the number of components met.
   */
  method Components(adj: seq<seq<int>>, n: nat) returns (head: seq<int>, count: nat)
    requires Wellformed(adj, n)
    ensures Partition(head, n) && count == |Roots(head, n)|
    ensures StrongHeads(adj, head, n)
  {
    var search := new Search.New(adj, n);
    search.Run();
    head, count := search.head[..], search.components;
  }

  /** `scc->nr_vertices` set to `count`; the store is unchanged. */
  method SetVertices(scc: Graph, count: nat)
    requires scc.Valid() == true
    modifies scc
    ensures scc.Valid() == true && scc.nrVertices == count && scc.Adj() == old(scc.Adj())
    ensures scc.nrEdges == old(scc.nrEdges)
  {
    ghost var f, x, vs := scc.first[..], scc.next[..], scc.vertex[..];
    scc.nrVertices := count;
    scc.ValidFrom(f, x, vs, scc.chains, scc.owner, scc.nrEdges);
  }

  /**
   * Connecting the pairs of the condensation pass adds exactly the arcs of
   * the condensation to what the store held.
   */
  lemma {:induction false} CondensedArcs(a0: AdjLists, adj: seq<seq<int>>, head: seq<int>, n: nat)
    requires Wellformed(adj, n) && |head| == n + 1 && PairsIn(Crossings(adj, head, n), |a0|)
    ensures forall a, b :: (a, b) in Arcs(ConnectAll(a0, Crossings(adj, head, n), false)) <==>
      (a, b) in Arcs(a0) || Crosses(adj, head, n, a, b)
  {
    ConnectAllArcs(a0, Crossings(adj, head, n));
    forall a, b ensures (a, b) in Arcs(ConnectAll(a0, Crossings(adj, head, n), false)) <==> (a, b) in Arcs(a0) || Crosses(adj, head, n, a, b) {
      CrossingsMember(adj, head, n, a, b);
    }
  }

  /**
   * `graph_SCC_find(g, scc)`: search `g`, count the components into
   * `scc.nrVertices`, and connect, in chain order, the heads of the ends
   * of every arc that crosses components.  `head` is the search's head
   * array at the end; an arc `(a, b)` is in `scc` after the call exactly
   * when it was before or it joins two components of `g`.  The count is
   * stored last here; `graph_connect` does not read it.
   */
  method SccFind(g: Graph, scc: Graph) returns (ghost head: seq<int>)
    requires g.Valid() == true && scc.Valid() == true && Wellformed(g.Adj(), g.nrVertices)
    requires g != scc && g.first !in {scc.first, scc.vertex, scc.next}
    requires g.vertex !in {scc.first, scc.vertex, scc.next} && g.next !in {scc.first, scc.vertex, scc.next}
    requires scc.first.Length == g.first.Length && scc.nrEdges + g.nrEdges < scc.vertex.Length
    modifies scc, scc.first, scc.vertex, scc.next
    ensures Partition(head, g.nrVertices) && scc.Valid() == true
    ensures scc.nrVertices == |Roots(head, g.nrVertices)|
    ensures forall a, b :: (a, b) in Arcs(scc.Adj()) <==> (a, b) in Arcs(old(scc.Adj())) || Crosses(old(g.Adj()), head, g.nrVertices, a, b)
    ensures StrongHeads(old(g.Adj()), head, g.nrVertices) && CondensedAcyclic(old(g.Adj()), head, g.nrVertices)
  {
    var n := g.nrVertices;
    var adj := Lists(g);
    var h, count := Components(adj, n);
    head := h;
    ghost var a0 := scc.Adj();
    ghost var pairs := Condense(scc, adj, h, n);
    SetVertices(scc, count);
    CondensedArcs(a0, adj, head, n);
    CondensationAcyclic(adj, head, n);
  }
}
