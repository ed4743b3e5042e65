/**
 * The invariant of the vertex-deletion sort of proj/2016-2017/p1/src/proj.c
 * (Kahn's algorithm), over the sequences its arrays hold.  `adj` are the
 * target lists of vertices `0..n`, `ind` the `indegree` array, `q` every
 * vertex ever enqueued (`Queue.data[0..rear)`), `front` the number dequeued
 * and `rest` the targets of the vertex being released not yet read.
 */
module KahnState {
  import opened Seqs
  import opened LinkedGraph
  import opened SearchState
  import opened KahnOrder

  /** The number of arcs into `v` from the vertices `0..m-1` outside `gone`. */
  ghost function Pending(adj: AdjLists, gone: set<int>, m: int, v: int): (r: nat)
    requires 0 <= m <= |adj|
    decreases m
  {
    if m == 0 then 0
    else Pending(adj, gone, m - 1, v) + (if m - 1 in gone then 0 else multiset(adj[m - 1])[v])
  }

  /** The number of arcs into `v`: what `connect_graph` counts in `indegree[v]`. */
  ghost function InDegree(adj: AdjLists, v: int): nat
  {
    Pending(adj, {}, |adj|, v)
  }

  /** Removing one more vertex `u` takes its arcs out of the pending count. */
  lemma {:induction false} PendingRemove(adj: AdjLists, gone: set<int>, m: int, u: int, v: int)
    requires 0 <= u < m <= |adj| && u !in gone
    ensures Pending(adj, gone, m, v) == Pending(adj, gone + {u}, m, v) + multiset(adj[u])[v]
    decreases m
  {
    if m - 1 != u {
      PendingRemove(adj, gone, m - 1, u, v);
    } else {
      PendingSame(adj, gone, gone + {u}, m - 1, v);
    }
  }

  lemma {:induction false} PendingSame(adj: AdjLists, g1: set<int>, g2: set<int>, m: int, v: int)
    requires 0 <= m <= |adj| && forall x :: 0 <= x < m ==> (x in g1 <==> x in g2)
    ensures Pending(adj, g1, m, v) == Pending(adj, g2, m, v)
    decreases m
  {
    if m > 0 {
      PendingSame(adj, g1, g2, m - 1, v);
    }
  }

  /** No arc into `v` is pending exactly when no vertex outside `gone` has `v` as a target. */
  lemma {:induction false} PendingZero(adj: AdjLists, gone: set<int>, m: int, v: int)
    requires 0 <= m <= |adj|
    ensures Pending(adj, gone, m, v) == 0 <==> forall x :: 0 <= x < m && x !in gone ==> v !in adj[x]
    decreases m
  {
    if m > 0 {
      PendingZero(adj, gone, m - 1, v);
      assert v in adj[m - 1] <==> v in multiset(adj[m - 1]);
    }
  }

  /** An arc `u -> b` appended to the lists adds one arc into `b`. */
  lemma {:induction false} PendingAppend(adj: AdjLists, gone: set<int>, m: int, u: int, b: int, v: int)
    requires 0 <= m <= |adj| && 0 <= u < |adj| && gone == {}
    ensures Pending(adj[u := adj[u] + [b]], gone, m, v) ==
      Pending(adj, gone, m, v) + (if u < m && v == b then 1 else 0)
    decreases m
  {
    if m > 0 {
      PendingAppend(adj, gone, m - 1, u, b, v);
      assert multiset(adj[u] + [b]) == multiset(adj[u]) + multiset{b};
    }
  }

  /** `indegree[v]` counts the arcs into `v` from the vertices outside `gone` plus those among `rest`. */
  ghost predicate Counted(adj: AdjLists, n: int, ind: seq<int>, gone: set<int>, rest: seq<int>)
  {
    |adj| == n + 1 && |ind| == n + 1 &&
    forall v :: 1 <= v <= n ==> ind[v] == Pending(adj, gone, n + 1, v) + multiset(rest)[v]
  }

  /** The vertices queued are exactly those whose `indegree` has dropped to 0. */
  ghost predicate Zeroes(ind: seq<int>, q: seq<int>, n: int)
  {
    |ind| == n + 1 && forall v :: 1 <= v <= n ==> (v in q <==> ind[v] == 0)
  }

  /**
   * The loop invariant of `graph_sort`: `q` is duplicate-free, its vertices
   * are the ones whose `indegree` is 0, `indegree[v]` counts the arcs into
   * `v` from vertices not dequeued yet plus those among `rest`, and every
   * queued vertex comes after the sources of its in-arcs.
   */
  ghost predicate Ready(adj: AdjLists, n: int, ind: seq<int>, q: seq<int>, front: int, rest: seq<int>)
  {
    0 <= n && Wellformed(adj, n) && adj[0] == [] && 0 <= front <= |q| &&
    Distinct(q) && AllIn(q, 1, n + 1) && AllIn(rest, 1, n + 1) &&
    Counted(adj, n, ind, Elems(q[..front]), rest) && Zeroes(ind, q, n) && Ordered(adj, q, n)
  }

  /** A queue in range without repeats fits the `n` slots of `Queue.data`. */
  lemma ReadyBound(adj: AdjLists, n: int, ind: seq<int>, q: seq<int>, front: int, rest: seq<int>)
    requires Ready(adj, n, ind, q, front, rest)
    ensures |q| <= n
  {
    DistinctBounded(q, 1, n + 1);
  }

  /** The state after `init_graph`: nothing dequeued, the queue holds the vertices without in-arcs. */
  lemma ReadyStart(adj: AdjLists, n: int, ind: seq<int>, q: seq<int>)
    requires 0 <= n && Wellformed(adj, n) && adj[0] == [] && |ind| == n + 1
    requires forall v :: 1 <= v <= n ==> ind[v] == InDegree(adj, v)
    requires Distinct(q) && AllIn(q, 1, n + 1) && Zeroes(ind, q, n)
    ensures Ready(adj, n, ind, q, 0, [])
  {
    assert Elems(q[..0]) == {};
    forall i | 0 <= i < |q| ensures forall x :: 0 <= x <= n ==> q[i] !in adj[x] {
      var v := q[i];
      assert 1 <= v <= n && v in q;
      PendingZero(adj, {}, n + 1, v);
    }
  }

  /**
   * `u = dequeue()`: `u` has no pending in-arc, and the arcs of `u` move
   * from the pending count to the ones still to read.
   */
  lemma ReadyTake(adj: AdjLists, n: int, ind: seq<int>, q: seq<int>, front: int)
    requires Ready(adj, n, ind, q, front, []) && front < |q|
    ensures ind[q[front]] == 0 && 1 <= q[front] <= n
    ensures Ready(adj, n, ind, q, front + 1, adj[q[front]])
  {
    var u := q[front];
    var g := Elems(q[..front]);
    assert Elems(q[..front + 1]) == g + {u} by {
      assert q[..front + 1] == q[..front] + [u];
    }
    assert u !in g;
    forall v | 1 <= v <= n
      ensures ind[v] == Pending(adj, g + {u}, n + 1, v) + multiset(adj[u])[v]
    {
      PendingRemove(adj, g, n + 1, u, v);
    }
  }

  /** Reading target `v` off `rest` and decrementing its count keeps the count. */
  lemma CountedRelease(adj: AdjLists, n: int, ind: seq<int>, gone: set<int>, rest: seq<int>)
    requires Counted(adj, n, ind, gone, rest) && rest != [] && 1 <= rest[0] <= n
    ensures ind[rest[0]] >= 1
    ensures ind[rest[0]] == 1 ==> Pending(adj, gone, n + 1, rest[0]) == 0
    ensures Counted(adj, n, ind[rest[0] := ind[rest[0]] - 1], gone, rest[1..])
  {
    assert rest == [rest[0]] + rest[1..];
    assert multiset(rest) == multiset{rest[0]} + multiset(rest[1..]);
  }

  /** Decrementing a positive count to 0 is what enqueues `v`. */
  lemma ZeroesRelease(ind: seq<int>, q: seq<int>, n: int, v: int)
    requires Zeroes(ind, q, n) && 1 <= v <= n && ind[v] >= 1
    ensures v !in q
    ensures Zeroes(ind[v := ind[v] - 1], if ind[v] == 1 then q + [v] else q, n)
  {
  }

  /** A vertex without pending in-arcs may follow every vertex already dequeued. */
  lemma OrderedRelease(adj: AdjLists, n: int, q: seq<int>, front: int, v: int)
    requires Ordered(adj, q, n) && 0 <= front <= |q| && n + 1 <= |adj|
    requires forall x :: 0 <= x < n + 1 && x !in Elems(q[..front]) ==> v !in adj[x]
    ensures Ordered(adj, q + [v], n)
  {
    var q1 := q + [v];
    forall i, x | 0 <= i < |q1| && 0 <= x <= n && x < |adj| && q1[i] in adj[x] ensures x in q1[..i] {
      if i < |q| {
        assert q1[i] == q[i] && q1[..i] == q[..i];
      } else {
        assert x in Elems(q[..front]);
        assert q1[..i] == q;
      }
    }
  }

  /**
   * Reading the next target `v` of the vertex being released:
   * `--indegree[v]`, and `enqueue(v)` when that reaches 0.  `v` then had an
   * arc pending, so it was not queued, and the queue still fits.
   */
  lemma ReadyRelease(adj: AdjLists, n: int, ind: seq<int>, q: seq<int>, front: int, rest: seq<int>)
    requires Ready(adj, n, ind, q, front, rest) && rest != []
    ensures 1 <= rest[0] <= n && ind[rest[0]] >= 1
    ensures ind[rest[0]] == 1 ==> rest[0] !in q && |q| < n
    ensures Ready(adj, n, ind[rest[0] := ind[rest[0]] - 1],
                  if ind[rest[0]] == 1 then q + [rest[0]] else q, front, rest[1..])
  {
    var v := rest[0];
    CountedRelease(adj, n, ind, Elems(q[..front]), rest);
    if ind[v] == 1 {
      ReleaseFree(adj, n, ind, q, front, rest);
    } else {
      ZeroesRelease(ind, q, n, v);
    }
  }

  /** `ReadyRelease` when the count of `v` reaches 0: `v` joins the queue. */
  lemma ReleaseFree(adj: AdjLists, n: int, ind: seq<int>, q: seq<int>, front: int, rest: seq<int>)
    requires Ready(adj, n, ind, q, front, rest) && rest != [] && ind[rest[0]] == 1
    requires Counted(adj, n, ind[rest[0] := 0], Elems(q[..front]), rest[1..])
    ensures rest[0] !in q && |q| < n
    ensures Ready(adj, n, ind[rest[0] := 0], q + [rest[0]], front, rest[1..])
  {
    var v := rest[0];
    var g := Elems(q[..front]);
    var q1 := q + [v];
    ZeroesRelease(ind, q, n, v);
    PendingZero(adj, g, n + 1, v);
    OrderedRelease(adj, n, q, front, v);
    assert q1[..front] == q[..front];
    assert Distinct(q1);
    DistinctBounded(q1, 1, n + 1);
  }

  /**
   * A count of 0 means every in-arc comes from a dequeued vertex, and with no
   * target left to read the converse holds: a free vertex is queued.
   */
  lemma ReadyFree(adj: AdjLists, n: int, ind: seq<int>, q: seq<int>, front: int, rest: seq<int>, v: int)
    requires Ready(adj, n, ind, q, front, rest) && 1 <= v <= n
    ensures ind[v] == 0 ==> Free(adj, n, q[..front], v)
    ensures Free(adj, n, q[..front], v) && multiset(rest)[v] == 0 ==> v in q
  {
    PendingZero(adj, Elems(q[..front]), n + 1, v);
  }

  /** A drained queue: the order is complete when it holds `n` vertices, stuck otherwise. */
  lemma Finish(adj: AdjLists, n: int, ind: seq<int>, q: seq<int>)
    requires Ready(adj, n, ind, q, |q|, [])
    ensures Outcome(adj, n, q, if |q| == n then Correct else Incoherent)
  {
    ReadyBound(adj, n, ind, q, |q|, []);
    assert q[..|q|] == q;
    forall v | 1 <= v <= n && v !in q ensures !Free(adj, n, q, v) {
      ReadyFree(adj, n, ind, q, |q|, [], v);
    }
  }

  /** The early return of `graph_sort`: the dequeued prefix and the two targets it freed. */
  lemma Halt(adj: AdjLists, n: int, ind: seq<int>, q: seq<int>, front: int, rest: seq<int>)
    requires Ready(adj, n, ind, q, front, rest) && Split(adj, n, q[..front])
    ensures Outcome(adj, n, q[..front], Insufficient)
  {
    ListingPrefix(adj, q, n, front);
    var u, x, y :| 0 <= u < |adj| && u in q[..front] && x in adj[u] && y in adj[u] && Pair(adj, n, q[..front], x, y);
  }

  /**
   * Two targets of `u`, the vertex last dequeued, queued after the dequeued
   * prefix: the pair `graph_sort` stops on.
   */
  lemma Freed(adj: AdjLists, n: int, ind: seq<int>, q: seq<int>, front: int, rest: seq<int>, u: int, i: int, j: int)
    requires Ready(adj, n, ind, q, front, rest) && 1 <= front <= i < j < |q| && q[front - 1] == u
    requires 0 <= u < |adj| && q[i] in adj[u] && q[j] in adj[u]
    ensures Split(adj, n, q[..front])
  {
    var x, y := q[i], q[j];
    ReadyFree(adj, n, ind, q, front, rest, x);
    ReadyFree(adj, n, ind, q, front, rest, y);
    assert x !in q[..front] && y !in q[..front] by {
      forall k | 0 <= k < front ensures q[k] != x && q[k] != y {
      }
    }
    assert u == q[..front][front - 1];
    assert Pair(adj, n, q[..front], x, y);
  }

  /** Two vertices waiting at once can be listed in either order. */
  lemma Crowd(adj: AdjLists, n: int, ind: seq<int>, q: seq<int>, front: int)
    requires Ready(adj, n, ind, q, front, []) && front + 1 < |q|
    ensures Outcome(adj, n, q[..front], Insufficient)
  {
    ListingPrefix(adj, q, n, front);
    var x, y := q[front], q[front + 1];
    ReadyFree(adj, n, ind, q, front, [], x);
    ReadyFree(adj, n, ind, q, front, [], y);
    assert x !in q[..front] by {
      forall i | 0 <= i < front ensures q[i] != x {
      }
    }
    assert y !in q[..front] by {
      forall i | 0 <= i < front ensures q[i] != y {
      }
    }
    assert Pair(adj, n, q[..front], x, y);
  }

  /** Dequeuing the only vertex waiting lists the only free vertex. */
  lemma ForcedStep(adj: AdjLists, n: int, ind: seq<int>, q: seq<int>, front: int)
    requires Ready(adj, n, ind, q, front, []) && Forced(adj, n, q[..front]) && |q| == front + 1
    ensures Forced(adj, n, q)
  {
    forall i, v | 0 <= i < |q| && 1 <= v <= n && v !in q[..i] && Free(adj, n, q[..i], v) ensures v == q[i] {
      if i < front {
        assert q[..front][..i] == q[..i];
      } else {
        ReadyFree(adj, n, ind, q, front, [], v);
        assert q == q[..front] + [q[front]];
      }
    }
  }

  /** The targets of the edges out of `u`, in input order. */
  ghost function OutOf(edges: seq<(int, int)>, u: int): seq<int>
    decreases |edges|
  {
    if edges == [] then []
    else OutOf(edges[..|edges| - 1], u) + (if edges[|edges| - 1].0 == u then [edges[|edges| - 1].1] else [])
  }

  /**
   * The target lists of vertices `0..m-1` once `edges` are connected in
   * order: each edge appends its target to its source's list.
   */
  ghost function EdgeLists(m: nat, edges: seq<(int, int)>): (r: AdjLists)
    ensures |r| == m
    decreases |edges|
  {
    if edges == [] then NoArcs(m)
    else
      var l, (u, v) := EdgeLists(m, edges[..|edges| - 1]), edges[|edges| - 1];
      if 0 <= u < m then l[u := l[u] + [v]] else l
  }

  /** How many of `edges` end at `v`. */
  ghost function Into(edges: seq<(int, int)>, v: int): nat
    decreases |edges|
  {
    if edges == [] then 0 else Into(edges[..|edges| - 1], v) + (if edges[|edges| - 1].1 == v then 1 else 0)
  }

  /** `d` holds, for every vertex, how many of `edges` end at it. */
  ghost predicate Counts(d: seq<int>, edges: seq<(int, int)>)
  {
    forall v :: 0 <= v < |d| ==> d[v] == Into(edges, v)
  }

  /** Counting one more edge raises the count of its target, and only that one. */
  lemma CountsSnoc(d: seq<int>, edges: seq<(int, int)>, a: int, b: int)
    requires Counts(d, edges) && 0 <= b < |d|
    ensures Counts(d[b := d[b] + 1], edges + [(a, b)])
  {
    assert (edges + [(a, b)])[..|edges|] == edges;
  }

  /** Connecting one more edge appends its target to its source's list and counts it into its target. */
  lemma EdgeListsSnoc(m: nat, edges: seq<(int, int)>, u: int, v: int)
    requires 0 <= u < m
    ensures EdgeLists(m, edges + [(u, v)]) == EdgeLists(m, edges)[u := EdgeLists(m, edges)[u] + [v]]
    ensures forall w :: Into(edges + [(u, v)], w) == Into(edges, w) + (if w == v then 1 else 0)
  {
    assert (edges + [(u, v)])[..|edges|] == edges;
  }

  /** The list of `u` holds the targets of the edges out of `u`, in input order. */
  lemma {:induction false} EdgeListsOut(m: nat, edges: seq<(int, int)>, u: int)
    requires 0 <= u < m
    ensures EdgeLists(m, edges)[u] == OutOf(edges, u)
    decreases |edges|
  {
    if edges != [] {
      EdgeListsOut(m, edges[..|edges| - 1], u);
    }
  }

  /** `v` is a target of `u` exactly when some edge goes from `u` to `v`. */
  lemma {:induction false} OutOfMember(edges: seq<(int, int)>, u: int, v: int)
    ensures v in OutOf(edges, u) <==> exists i :: 0 <= i < |edges| && edges[i] == (u, v)
    decreases |edges|
  {
    if edges != [] {
      var e := edges[..|edges| - 1];
      OutOfMember(e, u, v);
      if exists i :: 0 <= i < |e| && e[i] == (u, v) {
        var i :| 0 <= i < |e| && e[i] == (u, v);
        assert edges[i] == (u, v);
      }
      if exists i :: 0 <= i < |edges| && edges[i] == (u, v) {
        var i :| 0 <= i < |edges| && edges[i] == (u, v);
        if i < |e| {
          assert e[i] == (u, v);
        }
      }
    }
  }

  /** Counts kept edge by edge are the in-degrees of the lists the edges build. */
  lemma CountsInDegree(d: seq<int>, n: nat, edges: seq<(int, int)>)
    requires Counts(d, edges) && |d| == n + 1
    requires forall i :: 0 <= i < |edges| ==> 1 <= edges[i].0 <= n
    ensures forall v :: 1 <= v <= n ==> d[v] == InDegree(EdgeLists(n + 1, edges), v)
  {
    forall v | 1 <= v <= n ensures d[v] == InDegree(EdgeLists(n + 1, edges), v) {
      InDegreeCount(n + 1, edges, v);
    }
  }

  /** The in-degree of `v` in the lists built from `edges` is the number of edges into `v`. */
  lemma {:induction false} InDegreeCount(m: nat, edges: seq<(int, int)>, v: int)
    requires forall i :: 0 <= i < |edges| ==> 0 <= edges[i].0 < m
    ensures InDegree(EdgeLists(m, edges), v) == Into(edges, v)
    decreases |edges|
  {
    if edges == [] {
      PendingNone(EdgeLists(m, edges), m, v);
    } else {
      var e := edges[..|edges| - 1];
      var (u, b) := edges[|edges| - 1];
      InDegreeCount(m, e, v);
      PendingAppend(EdgeLists(m, e), {}, m, u, b, v);
    }
  }

  lemma {:induction false} PendingNone(adj: AdjLists, m: int, v: int)
    requires 0 <= m <= |adj| && forall x :: 0 <= x < m ==> adj[x] == []
    ensures Pending(adj, {}, m, v) == 0
    decreases m
  {
    if m > 0 {
      PendingNone(adj, m - 1, v);
    }
  }

  /** The vertices of `1..k` whose count in `ind` is 0, in increasing order: the orphans of `init_graph`. */
  ghost function Zeros(ind: seq<int>, k: int): seq<int>
    requires k < |ind|
    decreases k
  {
    if k <= 0 then [] else Zeros(ind, k - 1) + (if ind[k] == 0 then [k] else [])
  }

  /** The orphans are exactly the vertices of `1..k` with count 0, each once, increasing. */
  lemma {:induction false} ZerosMember(ind: seq<int>, k: int)
    requires k < |ind|
    ensures AllIn(Zeros(ind, k), 1, k + 1) && |Zeros(ind, k)| <= if k < 0 then 0 else k
    ensures forall i, j :: 0 <= i < j < |Zeros(ind, k)| ==> Zeros(ind, k)[i] < Zeros(ind, k)[j]
    ensures forall v :: v in Zeros(ind, k) <==> 1 <= v <= k && ind[v] == 0
    decreases k
  {
    if k > 0 {
      ZerosMember(ind, k - 1);
    }
  }
}
