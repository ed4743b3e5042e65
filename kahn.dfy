/**
 * proj/2016-2017/p1/src/proj.c: a graph stored as target chains in the
 * `first`/`next`/`vertex` arrays, with an `indegree` count per vertex, and
 * the vertex-deletion sort (Kahn's algorithm) over a global queue, which
 * lists the vertices in a topological order and sets `status`.
 */
module Kahn {
  import opened Seqs
  import opened Chains
  import opened LinkedGraph
  import opened SearchState
  import opened ArcStore
  import opened KahnOrder
  import opened KahnState
  import opened KahnPass

  /** The global queue of lines 23-30: `enqueue` writes at `rear++`, `dequeue` reads at `front++`. */
  class Queue {
    const data: array<int>
    var front: int
    var rear: int

    ghost predicate Valid()
      reads this
    {
      0 <= front <= rear <= data.Length
    }

    /** The items waiting, oldest first. */
    ghost function Items(): seq<int>
      reads this, data
      requires Valid()
    {
      data[front..rear]
    }

    /** `new_queue(size)`: room for `size` items, none waiting. */
    constructor New(size: nat)
      ensures Valid() && Items() == [] && front == 0 && data.Length == size && fresh(data)
    {
      data := new int[size];
      front, rear := 0, 0;
    }

    /** `is_empty()`. */
    function IsEmpty(): (r: bool)
      reads this, data
      requires Valid()
      ensures r <==> Items() == []
    {
      front == rear
    }

    /** `enqueue(x)`: `x` joins the back; the slots written before stay. */
    method Enqueue(x: int)
      requires Valid() && rear < data.Length
      modifies this, data
      ensures Valid() && Items() == old(Items()) + [x]
      ensures front == old(front) && rear == old(rear) + 1
      ensures data[..rear] == old(data[..rear]) + [x]
    {
      data[rear] := x;
      rear := rear + 1;
      assert data[..rear] == old(data[..rear]) + [x];
    }

    /** `dequeue()`: the oldest item leaves the front; the buffer is not written. */
    method Dequeue() returns (x: int)
      requires Valid() && front < rear
      modifies this
      ensures Valid() && x == old(Items())[0] && Items() == old(Items())[1..]
      ensures front == old(front) + 1 && rear == old(rear)
    {
      x := data[front];
      front := front + 1;
    }
  }

  /**
   * The store holds `m` edges: `first`/`next` chain them, every target is a
   * vertex of `1..n`, and vertex 0 has no edge.
   */
  ghost predicate Holds(f: seq<int>, x: seq<int>, vs: seq<int>, chains: seq<seq<int>>, owner: seq<int>, m: int, n: int)
  {
    0 <= n && Chained(f, x, vs, chains, owner, m) && Wellformed(Targets(chains, vs), n) && Targets(chains, vs)[0] == []
  }

  /** `connect_graph(a, b)` on the contents: edge `m + 1`, with target `b`, joins the tail of `a`'s chain. */
  lemma HoldsAppend(f: seq<int>, x: seq<int>, vs: seq<int>, chains: seq<seq<int>>, owner: seq<int>, m: int, n: int, a: int, b: int)
    requires Holds(f, x, vs, chains, owner, m, n) && 1 <= a <= n && 1 <= b <= n && m + 1 < |x|
    ensures Holds(LinkFirst(f, chains[a], a, m + 1), LinkNext(x, chains[a], m + 1), vs[m + 1 := b],
                  chains[a := chains[a] + [m + 1]], owner[m + 1 := a], m + 1, n)
    ensures Targets(chains[a := chains[a] + [m + 1]], vs[m + 1 := b]) ==
            Targets(chains, vs)[a := Targets(chains, vs)[a] + [b]]
  {
    ChainedAppend(f, x, vs, chains, owner, m, a, b);
    var t := Targets(chains, vs);
    var t1 := t[a := t[a] + [b]];
    assert Wellformed(t1, n) by {
      forall u, k | 0 <= u < |t1| && 0 <= k < |t1[u]| ensures 1 <= t1[u][k] <= n {
        if u == a && k == |t[a]| {
          assert t1[u][k] == b;
        } else {
          assert t1[u][k] == t[u][k];
        }
      }
    }
  }

  /**
   * The store part of `connect_graph`, lines 61 and 64-74: the target `b` goes
   * to slot `e`, and edge `e` becomes `first[a]` when `a` has no edge, else
   * the successor of the tail found by walking `a`'s chain `ch`.
   */
  method LinkEdge(first: array<int>, next: array<int>, vertex: array<int>, a: int, b: int, e: int,
                  ghost ch: seq<int>)
    requires first != next && first != vertex && next != vertex && 0 <= a < first.Length && 0 <= e < vertex.Length
    requires first[a] == Head(ch)
    requires forall k :: 0 <= k < |ch| ==> 0 < ch[k] < next.Length && next[ch[k]] == Succ(ch, k)
    modifies first, next, vertex
    ensures first[..] == LinkFirst(old(first[..]), ch, a, e) && next[..] == LinkNext(old(next[..]), ch, e)
    ensures vertex[..] == old(vertex[..])[e := b]
  {
    vertex[e] := b;
    if first[a] == 0 {
      first[a] := e;
    } else {
      var last := FindTail(next, first[a], ch);
      next[last] := e;
    }
  }

  /** `indegree[b] += d`, stated on the contents of the count array and of the three store arrays. */
  method Bump(indegree: array<int>, b: int, d: int, ghost first: array<int>, ghost next: array<int>, ghost vertex: array<int>)
    requires 0 <= b < indegree.Length && indegree != first && indegree != next && indegree != vertex
    modifies indegree
    ensures indegree[..] == old(indegree[..])[b := old(indegree[b]) + d]
    ensures first[..] == old(first[..]) && next[..] == old(next[..]) && vertex[..] == old(vertex[..])
  {
    indegree[b] := indegree[b] + d;
  }

  /** The graph of lines 43-56. */
  class Graph {
    const nrVertices: int
    var nrEdges: int
    var status: Status
    const first: array<int>
    const vertex: array<int>
    const next: array<int>
    const indegree: array<int>
    const result: array<int>
    ghost var chains: seq<seq<int>>
    ghost var owner: seq<int>

    /** Five distinct arrays: `n + 1` vertex slots, `n` result slots. */
    ghost predicate Frame()
    {
      && first != vertex && first != next && first != indegree && first != result
      && vertex != next && vertex != indegree && vertex != result
      && next != indegree && next != result && indegree != result
      && 0 <= nrVertices && first.Length == nrVertices + 1 && indegree.Length == nrVertices + 1
      && result.Length == nrVertices
    }

    /**
     * The arrays hold `m` edges.  Contracts write `Stored(m) == true` and
     * `Valid() == true` so that the verifier keeps each one fact instead of
     * splitting it into its conjuncts.
     */
    ghost predicate Stored(m: int)
      reads this`chains, this`owner, first, vertex, next
    {
      Frame() && Holds(first[..], next[..], vertex[..], chains, owner, m, nrVertices)
    }

    /** Between two calls of `connect_graph`, edges `1..nr_edges-1` are stored. */
    ghost predicate Valid()
      reads this`nrEdges, this`chains, this`owner, first, vertex, next
    {
      Stored(nrEdges - 1)
    }

    /** The invariant, read off sequences equal to the arrays' contents. */
    lemma StoredFrom(f: seq<int>, x: seq<int>, vs: seq<int>, c: seq<seq<int>>, o: seq<int>, m: int)
      requires first[..] == f && next[..] == x && vertex[..] == vs && chains == c && owner == o
      requires Frame() && Holds(f, x, vs, c, o, m, nrVertices)
      ensures Stored(m) == true && Adj() == Targets(c, vs)
    {
    }

    /** The target lists the chains encode, vertex by vertex. */
    ghost function Adj(): AdjLists
      reads this`chains, vertex
      requires ChainsIn(chains, vertex.Length)
    {
      Targets(chains, vertex[..])
    }

    /** The queue is a separate buffer with one slot per vertex. */
    ghost predicate Attached(q: Queue)
      reads q
    {
      && q.data != first && q.data != vertex && q.data != next && q.data != indegree && q.data != result
      && q.data.Length == nrVertices && q.Valid()
    }

    /**
     * `init_graph(g, num_v, num_e)` with the `num_e` pairs read as `edges`:
     * status `INCOHERENT`, the edges connected in input order, and the count
     * of every vertex its in-degree.
     */
    constructor New(numV: nat, edges: seq<(int, int)>)
      requires forall i :: 0 <= i < |edges| ==> 1 <= edges[i].0 <= numV && 1 <= edges[i].1 <= numV
      ensures Valid() == true && nrVertices == numV && status == Incoherent && nrEdges == |edges| + 1
      ensures Adj() == EdgeLists(numV + 1, edges)
      ensures forall v :: 1 <= v <= numV ==> indegree[v] == InDegree(Adj(), v)
      ensures fresh(first) && fresh(vertex) && fresh(next) && fresh(indegree) && fresh(result)
    {
      nrVertices := numV;
      status := Incoherent;
      first := new int[numV + 1](_ => 0);
      vertex := new int[|edges| + 1](_ => 0);
      next := new int[|edges| + 1](_ => 0);
      indegree := new int[numV + 1](_ => 0);
      result := new int[numV];
      nrEdges := 1;
      chains := EmptyChains(numV + 1);
      owner := seq(|edges| + 1, _ => 0);
      new;
      LoadedStart(edges);
      Load(edges);
    }

    /** Zeroed arrays hold no edge and count nothing. */
    lemma LoadedStart(edges: seq<(int, int)>)
      requires Frame() && vertex.Length == |edges| + 1 && next.Length == |edges| + 1
      requires chains == EmptyChains(nrVertices + 1) && owner == seq(|edges| + 1, _ => 0)
      requires forall u :: 0 <= u < first.Length ==> first[u] == 0
      requires forall e :: 0 <= e < next.Length ==> next[e] == 0
      requires forall v :: 0 <= v < indegree.Length ==> indegree[v] == 0
      ensures Loaded(edges, 1) == true
    {
      ChainedEmpty(first[..], next[..], vertex[..], owner);
      assert edges[..0] == [];
    }

    /** The first `k - 1` of `edges` are stored, in order, and counted in `indegree`. */
    ghost predicate Loaded(edges: seq<(int, int)>, k: int)
      reads this`chains, this`owner, first, vertex, next, indegree
    {
      && 1 <= k <= |edges| + 1 && Stored(k - 1)
      && Adj() == EdgeLists(nrVertices + 1, edges[..k - 1])
      && Counts(indegree[..], edges[..k - 1])
    }

    /** The edge loop of `init_graph`, lines 92-101: `connect_graph` for edges `1..num_e`. */
    method Load(edges: seq<(int, int)>)
      requires Frame() && Loaded(edges, 1) == true && vertex.Length == |edges| + 1
      requires forall i :: 0 <= i < |edges| ==> 1 <= edges[i].0 <= nrVertices && 1 <= edges[i].1 <= nrVertices
      modifies this`nrEdges, this`chains, this`owner, first, vertex, next, indegree
      ensures Valid() == true && nrEdges == |edges| + 1 && Adj() == EdgeLists(nrVertices + 1, edges)
      ensures forall v :: 1 <= v <= nrVertices ==> indegree[v] == InDegree(Adj(), v)
    {
      nrEdges := 1;
      while nrEdges <= |edges|
        invariant Loaded(edges, nrEdges) == true
      {
        Step(edges);
      }
      LoadedCounts(indegree[..], Adj(), nrVertices, edges, nrEdges);
    }

    /** Once all `k - 1` edges are stored and counted, each count is an in-degree. */
    static lemma LoadedCounts(d: seq<int>, t: AdjLists, n: nat, edges: seq<(int, int)>, k: int)
      requires k == |edges| + 1 && |d| == n + 1
      requires forall i :: 0 <= i < |edges| ==> 1 <= edges[i].0 <= n
      requires t == EdgeLists(n + 1, edges[..k - 1]) && Counts(d, edges[..k - 1])
      ensures t == EdgeLists(n + 1, edges)
      ensures forall v :: 1 <= v <= n ==> d[v] == InDegree(t, v)
    {
      assert edges[..k - 1] == edges;
      CountsInDegree(d, n, edges);
    }

    /** One pass of the edge loop: edge `nr_edges` is connected and the count moves on. */
    method Step(edges: seq<(int, int)>)
      requires Frame() && Loaded(edges, nrEdges) == true && nrEdges <= |edges| && vertex.Length == |edges| + 1
      requires forall i :: 0 <= i < |edges| ==> 1 <= edges[i].0 <= nrVertices && 1 <= edges[i].1 <= nrVertices
      modifies this`nrEdges, this`chains, this`owner, first, vertex, next, indegree
      ensures Loaded(edges, nrEdges) == true && nrEdges == old(nrEdges) + 1
    {
      var a, b := edges[nrEdges - 1].0, edges[nrEdges - 1].1;
      ghost var k, t, d := nrEdges, Adj(), indegree[..];
      Connect(a, b);
      nrEdges := nrEdges + 1;
      LoadedNext(edges, k, t, d);
    }

    /** `Loaded` moves on by one edge once that edge is connected. */
    lemma LoadedNext(edges: seq<(int, int)>, k: int, t: AdjLists, d: seq<int>)
      requires 1 <= k <= |edges| && 1 <= edges[k - 1].0 <= nrVertices && Stored(k) == true
      requires t == EdgeLists(nrVertices + 1, edges[..k - 1]) && Counts(d, edges[..k - 1])
      requires Adj() == t[edges[k - 1].0 := t[edges[k - 1].0] + [edges[k - 1].1]]
      requires 0 <= edges[k - 1].1 < |d| && indegree[..] == d[edges[k - 1].1 := d[edges[k - 1].1] + 1]
      ensures Loaded(edges, k + 1) == true
    {
      var a, b := edges[k - 1].0, edges[k - 1].1;
      EdgeListsSnoc(nrVertices + 1, edges[..k - 1], a, b);
      CountsSnoc(d, edges[..k - 1], a, b);
      assert edges[..k] == edges[..k - 1] + [(a, b)];
    }

    /**
     * `connect_graph(a, b)`, lines 59-76: the edge `a -> b` is stored and
     * `indegree[b]` grows by one.
     */
    method Connect(a: int, b: int)
      requires Frame() && Stored(nrEdges - 1) == true
      requires 1 <= a <= nrVertices && 1 <= b <= nrVertices && nrEdges < vertex.Length
      modifies this`chains, this`owner, first, vertex, next, indegree
      ensures Stored(nrEdges) == true
      ensures Adj() == old(Adj())[a := old(Adj())[a] + [b]]
      ensures indegree[..] == old(indegree[..])[b := old(indegree[b]) + 1]
    {
      Attach(a, b);
      Bump(indegree, b, 1, first, next, vertex);
    }

    /**
     * The store part of `connect_graph`, lines 61 and 64-74: the target `b`
     * goes to slot `nr_edges`, which becomes `first[a]` or the successor of
     * the tail of `a`'s chain.
     */
    method Attach(a: int, b: int)
      requires Frame() && Stored(nrEdges - 1) == true
      requires 1 <= a <= nrVertices && 1 <= b <= nrVertices && nrEdges < vertex.Length
      modifies this`chains, this`owner, first, vertex, next
      ensures Stored(nrEdges) == true
      ensures Adj() == old(Adj())[a := old(Adj())[a] + [b]]
    {
      ghost var m, f0, x0, v0, c0, o0 := nrEdges - 1, first[..], next[..], vertex[..], chains, owner;
      ChainedRead(f0, x0, v0, c0, o0, m, a);
      LinkEdge(first, next, vertex, a, b, nrEdges, c0[a]);
      chains, owner := c0[a := c0[a] + [nrEdges]], o0[nrEdges := a];
      StoredAppend(a, b, f0, x0, v0, c0, o0, m);
    }

    /** The invariant once edge `m + 1`, with target `b`, is linked at the tail of `a`'s chain. */
    lemma StoredAppend(a: int, b: int, f0: seq<int>, x0: seq<int>, v0: seq<int>, c0: seq<seq<int>>, o0: seq<int>, m: int)
      requires Frame() && Holds(f0, x0, v0, c0, o0, m, nrVertices)
      requires 1 <= a <= nrVertices && 1 <= b <= nrVertices && m + 1 < |x0|
      requires first[..] == LinkFirst(f0, c0[a], a, m + 1) && next[..] == LinkNext(x0, c0[a], m + 1)
      requires vertex[..] == v0[m + 1 := b] && chains == c0[a := c0[a] + [m + 1]] && owner == o0[m + 1 := a]
      ensures Stored(m + 1) == true && Adj() == Targets(c0, v0)[a := Targets(c0, v0)[a] + [b]]
    {
      HoldsAppend(f0, x0, v0, c0, o0, m, nrVertices, a, b);
    }

    /** Lines 103-108: every vertex without in-arcs is enqueued, in increasing order. */
    method EnqueueOrphans(q: Queue)
      requires Valid() == true && Attached(q) == true && q.front == 0 && q.rear == 0
      modifies q, q.data
      ensures Attached(q) == true && q.front == 0
      ensures q.data[..q.rear] == Zeros(indegree[..], nrVertices)
    {
      var u := 1;
      while u <= nrVertices
        invariant 1 <= u <= nrVertices + 1 && Attached(q) == true && q.front == 0
        invariant q.data[..q.rear] == Zeros(indegree[..], u - 1)
      {
        ZerosMember(indegree[..], u - 1);
        if indegree[u] == 0 {
          q.Enqueue(u);
        }
        u := u + 1;
      }
    }

    /** The queue `init_graph` leaves, every vertex without in-arcs, starts the sort. */
    lemma Start(q: Queue)
      requires Valid() == true && Frame() && Attached(q) == true
      requires q.data[..q.rear] == Zeros(indegree[..], nrVertices)
      requires forall v :: 1 <= v <= nrVertices ==> indegree[v] == InDegree(Adj(), v)
      ensures Ready(Adj(), nrVertices, indegree[..], q.data[..q.rear], 0, []) == true
    {
      ghost var qs := q.data[..q.rear];
      ZerosMember(indegree[..], nrVertices);
      assert Distinct(qs);
      ReadyStart(Adj(), nrVertices, indegree[..], qs);
    }

    /**
     * `graph_sort`, lines 143-174, from the state `init_graph` leaves: the
     * vertices are listed in dequeue order; `status` is `CORRECT` with all
     * `n` listed in a topological order, stays `INCOHERENT` when the queue
     * drains early, and becomes `INSUFFICIENT` when one vertex frees two.
     */
    method Sort(q: Queue, ghost adj: AdjLists)
      requires Valid() == true && Attached(q) == true && status == Incoherent && q.front == 0 && adj == Adj()
      requires Ready(adj, nrVertices, indegree[..], q.data[..q.rear], 0, []) == true
      modifies this`status, indegree, result, q, q.data
      ensures Attached(q) == true
      ensures Outcome(adj, nrVertices, result[..q.front], status)
      ensures status == Insufficient ==> Split(adj, nrVertices, result[..q.front])
    {
      ValidWalks();
      var stop, rest := Run(q, adj);
      if stop {
        status := Insufficient;
      } else if q.front == nrVertices {
        status := Correct;
      }
      Settle(adj, nrVertices, Pass(indegree[..], q.data[..q.rear], rest, stop), q.front, result[..q.front], status);
    }

    /**
     * The loop of `graph_sort`, lines 146-169: vertices are taken off the
     * queue until it drains or a release stops the sort.
     */
    method Run(q: Queue, ghost adj: AdjLists) returns (stop: bool, ghost rest: seq<int>)
      requires Frame() && Walks(adj) == true && Attached(q) == true && q.front == 0
      requires Ready(adj, nrVertices, indegree[..], q.data[..q.rear], 0, []) == true
      modifies indegree, result, q, q.data
      ensures Attached(q) == true && result[..q.front] == q.data[..q.rear][..q.front] && (!stop ==> q.front == q.rear)
      ensures Passed(adj, nrVertices, q.front, Pass(indegree[..], q.data[..q.rear], rest, stop)) == true
    {
      var count := 0;
      stop, rest := false, [];
      while q.front != q.rear && !stop
        invariant Attached(q) == true && count == q.front
        invariant result[..count] == q.data[..count]
        invariant Passed(adj, nrVertices, q.front, Pass(indegree[..], q.data[..q.rear], rest, stop)) == true
        decreases nrVertices - q.front
      {
        stop, rest := Take(q, adj);
        count := count + 1;
      }
      assert result[..q.front] == q.data[..q.rear][..q.front];
    }

    /**
     * `graph_sort` with the verdict it is meant to give: `INSUFFICIENT` also
     * when two vertices wait in the queue at once, which the source misses
     * when they were enqueued by `init_graph`.  A `CORRECT` order is then the
     * only topological order.
     */
    method SortUnique(q: Queue, ghost adj: AdjLists)
      requires Valid() == true && Attached(q) == true && status == Incoherent && q.front == 0 && adj == Adj()
      requires Ready(adj, nrVertices, indegree[..], q.data[..q.rear], 0, []) == true
      modifies this`status, indegree, result, q, q.data
      ensures Attached(q) == true
      ensures Outcome(adj, nrVertices, result[..q.front], status)
      ensures status == Correct ==> Unique(adj, nrVertices, result[..q.front])
    {
      ValidWalks();
      var stop, crowd, rest := RunForced(q, adj);
      if stop || crowd {
        status := Insufficient;
      } else if q.front == nrVertices {
        status := Correct;
      }
      SettleUnique(adj, nrVertices, Pass(indegree[..], q.data[..q.rear], rest, stop), q.front, crowd, result[..q.front], status);
    }

    /**
     * The loop of `SortUnique`: before each vertex is taken, it stops when
     * a second vertex waits in the queue (`crowd`).
     */
    method RunForced(q: Queue, ghost adj: AdjLists) returns (stop: bool, crowd: bool, ghost rest: seq<int>)
      requires Frame() && Walks(adj) == true && Attached(q) == true && q.front == 0
      requires Ready(adj, nrVertices, indegree[..], q.data[..q.rear], 0, []) == true
      modifies indegree, result, q, q.data
      ensures Attached(q) == true && result[..q.front] == q.data[..q.rear][..q.front]
      ensures Passed(adj, nrVertices, q.front, Pass(indegree[..], q.data[..q.rear], rest, stop)) == true
      ensures Forced(adj, nrVertices, q.data[..q.rear][..q.front])
      ensures crowd ==> !stop && q.front + 1 < q.rear
      ensures !stop && !crowd ==> q.front == q.rear
    {
      var count := 0;
      stop, crowd, rest := false, false, [];
      assert q.data[..q.rear][..0] == [];
      while q.front != q.rear && !stop && !crowd
        invariant Attached(q) == true && count == q.front
        invariant result[..count] == q.data[..count]
        invariant Passed(adj, nrVertices, q.front, Pass(indegree[..], q.data[..q.rear], rest, stop)) == true
        invariant Forced(adj, nrVertices, q.data[..q.rear][..q.front])
        invariant crowd ==> !stop && q.front + 1 < q.rear
        decreases nrVertices - q.front, if crowd then 0 else 1
      {
        if q.rear - q.front > 1 {
          crowd := true;
        } else {
          stop, rest := TakeForced(q, adj);
          count := count + 1;
        }
      }
      assert result[..q.front] == q.data[..q.rear][..q.front];
    }

    /** A pass of the loop of `RunForced`: the only waiting vertex is taken, so it was forced. */
    method TakeForced(q: Queue, ghost adj: AdjLists) returns (stop: bool, ghost rest: seq<int>)
      requires Frame() && Walks(adj) == true && Attached(q) == true && q.front + 1 == q.rear
      requires result[..q.front] == q.data[..q.front]
      requires Ready(adj, nrVertices, indegree[..], q.data[..q.rear], q.front, []) == true
      requires Forced(adj, nrVertices, q.data[..q.rear][..q.front])
      modifies indegree, result, q, q.data
      ensures Attached(q) == true && q.front == old(q.front) + 1
      ensures result[..q.front] == q.data[..q.front]
      ensures Passed(adj, nrVertices, q.front, Pass(indegree[..], q.data[..q.rear], rest, stop)) == true
      ensures Forced(adj, nrVertices, q.data[..q.rear][..q.front])
    {
      ForcedStep(adj, nrVertices, indegree[..], q.data[..q.rear], q.front);
      ghost var taken := q.data[..q.rear];
      stop, rest := Take(q, adj);
      assert q.data[..q.rear][..q.front] == taken;
    }

    /**
     * One pass of the outer loop of `graph_sort`, lines 147-168: `u` is
     * dequeued, written to `result[count++]` and released.  The test
     * `indegree[u] == 0` of line 150 always holds (`ReadyTake`).
     */
    method Take(q: Queue, ghost adj: AdjLists) returns (stop: bool, ghost rest: seq<int>)
      requires Frame() && Walks(adj) == true && Attached(q) == true && q.front < q.rear
      requires result[..q.front] == q.data[..q.front]
      requires Ready(adj, nrVertices, indegree[..], q.data[..q.rear], q.front, []) == true
      modifies indegree, result, q, q.data
      ensures Attached(q) == true && q.front == old(q.front) + 1 && old(q.data[..q.rear]) <= q.data[..q.rear]
      ensures result[..q.front] == q.data[..q.front]
      ensures Passed(adj, nrVertices, q.front, Pass(indegree[..], q.data[..q.rear], rest, stop)) == true
    {
      ghost var d, s, front := indegree[..], q.data[..q.rear], q.front;
      TakeReady(adj, nrVertices, d, s, front);
      var u := Pop(q);
      stop, rest := Release(u, q, chains[u], adj[u]);
      ghost var t := q.data[..q.rear];
      PrefixKept(s, t, front + 1);
      assert q.data[..q.front] == t[..front + 1];
    }

    /** Every vertex's chain starts at `first[u]` and reads its targets in `adj`. */
    ghost predicate Walks(adj: AdjLists)
      reads this`chains, first, next, vertex
    {
      |chains| == first.Length && |adj| == first.Length &&
      forall u :: 0 <= u < first.Length ==> first[u] == Head(chains[u]) && ChainAt(next[..], vertex[..], chains[u], adj[u])
    }

    /** The stored edges can be walked vertex by vertex. */
    lemma ValidWalks()
      requires Valid() == true
      ensures Walks(Adj()) == true
    {
      forall u | 0 <= u < first.Length
        ensures first[u] == Head(chains[u]) && ChainAt(next[..], vertex[..], chains[u], Adj()[u])
      {
        ChainedRead(first[..], next[..], vertex[..], chains, owner, nrEdges - 1, u);
      }
    }

    /** Lines 148-149: the head of the queue is dequeued into `result[count++]`. */
    method Pop(q: Queue) returns (u: int)
      requires Frame() && Attached(q) == true && q.front < q.rear && result[..q.front] == q.data[..q.front]
      modifies result, q
      ensures Attached(q) == true && q.front == old(q.front) + 1 && q.rear == old(q.rear)
      ensures u == q.data[old(q.front)] && result[..q.front] == q.data[..q.front]
    {
      u := q.Dequeue();
      result[q.front - 1] := u;
    }

    /**
     * The inner loop of `graph_sort`, lines 151-167, along the chain `ch`
     * of `u`, whose targets are `ts`: it does what `Drain` describes.
     */
    method Release(u: int, q: Queue, ghost ch: seq<int>, ghost ts: seq<int>) returns (stop: bool, ghost rest: seq<int>)
      requires Frame() && Attached(q) == true && 0 <= u < first.Length
      requires first[u] == Head(ch) && ChainAt(next[..], vertex[..], ch, ts)
      requires AllIn(ts, 0, indegree.Length) && Fits(indegree[..], q.data[..q.rear], ts, 0, nrVertices)
      modifies indegree, q, q.data
      ensures Attached(q) == true && q.front == old(q.front)
      ensures Pass(indegree[..], q.data[..q.rear], rest, stop) == Drain(old(indegree[..]), old(q.data[..q.rear]), ts, 0)
    {
      ghost var p := Drain(indegree[..], q.data[..q.rear], ts, 0);
      ghost var nx, vx := next[..], vertex[..];
      var e := first[u];
      var maxSolutions := 0;
      ghost var k := 0;
      while e != 0
        invariant 0 <= k <= |ch| && e == (if k < |ch| then ch[k] else 0)
        invariant next[..] == nx && vertex[..] == vx
        invariant Attached(q) == true && q.front == old(q.front) && 0 <= maxSolutions <= 1
        invariant Releasing(q, ts[k..], maxSolutions, p) == true
        decreases |ch| - k
      {
        ChainStep(nx, vx, ch, ts, k);
        var v := vertex[e];
        var freed := Visit(v, q, ts[k..], maxSolutions);
        if freed {
          maxSolutions := maxSolutions + 1;
        }
        k := k + 1;
        assert ts[k - 1..][1..] == ts[k..];
        if maxSolutions > 1 {
          return true, p.rest;
        }
        e := next[e];
      }
      assert ts[k..] == [];
      return false, p.rest;
    }

    /** Entry `k` of a chain: its successor and its target. */
    static lemma ChainStep(x: seq<int>, vs: seq<int>, ch: seq<int>, ts: seq<int>, k: int)
      requires ChainAt(x, vs, ch, ts) && 0 <= k < |ch|
      ensures 0 < ch[k] < |x| && ch[k] < |vs| && x[ch[k]] == (if k + 1 < |ch| then ch[k + 1] else 0) && vs[ch[k]] == ts[k]
    {
    }

    /** What is left of a release: reading the targets `ts` from here still ends in `p`, and fits. */
    ghost predicate Releasing(q: Queue, ts: seq<int>, found: int, p: Pass)
      reads indegree, q, q.data
    {
      q.Valid() && AllIn(ts, 0, indegree.Length) &&
      Drain(indegree[..], q.data[..q.rear], ts, found) == p && Fits(indegree[..], q.data[..q.rear], ts, found, nrVertices)
    }

    /** One pass of the inner loop on the target `v = ts[0]`, as `Drain` takes it. */
    method Visit(v: int, q: Queue, ghost ts: seq<int>, ghost found: int) returns (freed: bool)
      requires Attached(q) == true && ts != [] && ts[0] == v && 0 <= found <= 1
      requires AllIn(ts, 0, indegree.Length) && Fits(indegree[..], q.data[..q.rear], ts, found, nrVertices)
      modifies indegree, q, q.data
      ensures Attached(q) == true && q.front == old(q.front) && AllIn(ts[1..], 0, indegree.Length)
      ensures (if freed then found + 1 else found) > 1 ==>
        Drain(old(indegree[..]), old(q.data[..q.rear]), ts, found) == Pass(indegree[..], q.data[..q.rear], ts[1..], true)
      ensures (if freed then found + 1 else found) <= 1 ==>
        Drain(old(indegree[..]), old(q.data[..q.rear]), ts, found) ==
          Drain(indegree[..], q.data[..q.rear], ts[1..], if freed then found + 1 else found) &&
        Fits(indegree[..], q.data[..q.rear], ts[1..], if freed then found + 1 else found, nrVertices)
    {
      DrainStep(indegree[..], q.data[..q.rear], ts, found, nrVertices);
      freed := Drop(v, q);
    }

    /** Lines 155-160 for the target `v`: its count drops, and it is enqueued when that reaches 0. */
    method Drop(v: int, q: Queue)
      returns (freed: bool)
      requires Attached(q) == true && 0 <= v < indegree.Length
      requires indegree[v] == 1 ==> q.rear < nrVertices
      modifies indegree, q, q.data
      ensures Attached(q) == true && q.front == old(q.front) && freed == (old(indegree[v]) == 1)
      ensures indegree[..] == old(indegree[..])[v := old(indegree[v]) - 1]
      ensures q.data[..q.rear] == if freed then old(q.data[..q.rear]) + [v] else old(q.data[..q.rear])
    {
      indegree[v] := indegree[v] - 1;
      freed := indegree[v] == 0;
      if freed {
        q.Enqueue(v);
      }
    }
  }

  /** `examine_graph`, lines 121-140: the line printed for each status, the order itself for `CORRECT`. */
  function Message(status: Status): (r: string)
    ensures r == "" <==> status == Correct
  {
    match status
    case Incoherent => "Incoerente"
    case Insufficient => "Insuficiente"
    case Correct => ""
  }

  /** Different verdicts print different lines. */
  lemma MessageDistinct(s: Status, t: Status)
    requires Message(s) == Message(t)
    ensures s == t
  {
  }

  /**
   * `main`, lines 177-192, as written, with the header and edges given as
   * `numV` and `edges`: the queue, the graph, its orphans, then
   * `graph_sort`.  Returns the status and the listed vertices.
   */
  method SolveAsWritten(numV: nat, edges: seq<(int, int)>) returns (status: Status, order: seq<int>)
    requires forall i :: 0 <= i < |edges| ==> 1 <= edges[i].0 <= numV && 1 <= edges[i].1 <= numV
    ensures Outcome(EdgeLists(numV + 1, edges), numV, order, status)
    ensures status == Insufficient ==> Split(EdgeLists(numV + 1, edges), numV, order)
  {
    var q := new Queue.New(numV);
    var g := new Graph.New(numV, edges);
    g.EnqueueOrphans(q);
    g.Start(q);
    g.Sort(q, EdgeLists(numV + 1, edges));
    status, order := g.status, g.result[..q.front];
  }

  /**
   * `main` corrected: the same run with the uniqueness test applied to the
   * initial orphans too, so that a Correct verdict means the order listed
   * is the only topological order.
   */
  method Solve(numV: nat, edges: seq<(int, int)>) returns (status: Status, order: seq<int>)
    requires forall i :: 0 <= i < |edges| ==> 1 <= edges[i].0 <= numV && 1 <= edges[i].1 <= numV
    ensures Outcome(EdgeLists(numV + 1, edges), numV, order, status)
    ensures status == Correct ==> Unique(EdgeLists(numV + 1, edges), numV, order)
  {
    var q := new Queue.New(numV);
    var g := new Graph.New(numV, edges);
    g.EnqueueOrphans(q);
    g.Start(q);
    g.SortUnique(q, EdgeLists(numV + 1, edges));
    status, order := g.status, g.result[..q.front];
  }
}
