/**
 * proj/2020-2021/p1/src/proj.c: `DFS`, `DP` and `TopologicalSort` over the
 * de-duplicating store of module LinkedGraph and the marker stacks of module
 * MarkerStack.  Each method is proved against the value-level search of
 * module DfsWalk (with `marked == true`) and the pass of module PathDp.
 *
 * `DP` takes the update rule as a parameter: `Assign` is line 194 as
 * written, `Lift` the corrected update.
 */
module TopoC {
  import opened Seqs
  import opened Chains
  import opened LinkedGraph
  import opened MarkerStack
  import opened DfsWalk
  import opened PathDp
  import opened KahnOrder

  /**
   * The storage of `DFS`: the `dfs` and `order` stacks and the `is_last` and
   * `visited` arrays, all sized for the vertices `0..n`, none sharing storage
   * with another.
   */
  ghost predicate Apart(dfs: Stack, isLast: array<bool>, visited: array<bool>, order: Stack, n: int)
  {
    && dfs.data.Length == n + 1 && dfs.inStack.Length == n + 1
    && order.data.Length == n + 1 && order.inStack.Length == n + 1
    && isLast.Length == n + 1 && visited.Length == n + 1
    && dfs != order && dfs.data != order.data && dfs.inStack != order.inStack
    && dfs.inStack != isLast && dfs.inStack != visited && order.inStack != isLast && order.inStack != visited
    && isLast != visited
  }

  /** A marker stack of distinct ids of `1..n` that misses `u` has room for it. */
  lemma Room(s: seq<int>, n: int, u: int)
    requires Distinct(s) && AllIn(s, 1, n + 1) && 1 <= u <= n && u !in s
    ensures |s| < n
  {
    var t := s + [u];
    assert forall i :: 0 <= i < |s| ==> t[i] == s[i];
    DistinctBounded(t, 1, n + 1);
  }

  /** Lines 228-231: an unvisited `v` is pushed (a no-op when held) and marked not last. */
  method PushUnvisited(v: int, dfs: Stack, isLast: array<bool>, visited: array<bool>, ghost n: int)
    requires dfs.Valid() && dfs.data.Length == n + 1 && dfs.inStack.Length == n + 1
    requires isLast.Length == n + 1 && visited.Length == n + 1 && dfs.inStack != isLast && dfs.inStack != visited && isLast != visited
    requires AllIn(dfs.Contents(), 1, n + 1) && 1 <= v <= n
    modifies dfs, dfs.data, dfs.inStack, isLast
    ensures dfs.Valid() && AllIn(dfs.Contents(), 1, n + 1)
    ensures dfs.Contents() == if visited[v] then old(dfs.Contents()) else DfsWalk.Push(true, old(dfs.Contents()), v)
    ensures isLast[..] == if visited[v] then old(isLast[..]) else old(isLast[..])[v := false]
  {
    ghost var last := isLast[..];
    if !visited[v] {
      if !dfs.inStack[v] {
        Room(dfs.Contents(), n, v);
      }
      MarkerStack.Push(dfs, v);
      assert isLast[..] == last;
      isLast[v] := false;
    }
  }

  /**
   * Lines 226-232: the walk along the chain `ch` of the vertex expanded,
   * whose targets are `ts`, pushing every unvisited target and clearing its
   * `is_last`; `o` is the `order` the step leaves alone.
   */
  method PushTargets(next: array<int>, vertex: array<int>, start: int, ghost ch: seq<int>, ghost ts: seq<int>,
                     dfs: Stack, isLast: array<bool>, visited: array<bool>, ghost o: seq<int>, ghost n: int)
    requires start == Head(ch) && ChainAt(next[..], vertex[..], ch, ts) && AllIn(ts, 1, n + 1)
    requires dfs.data != next && dfs.data != vertex
    requires dfs.Valid() && dfs.data.Length == n + 1 && dfs.inStack.Length == n + 1
    requires isLast.Length == n + 1 && visited.Length == n + 1 && dfs.inStack != isLast && dfs.inStack != visited && isLast != visited
    requires AllIn(dfs.Contents(), 1, n + 1)
    modifies dfs, dfs.data, dfs.inStack, isLast
    ensures dfs.Valid() && AllIn(dfs.Contents(), 1, n + 1)
    ensures Walk(dfs.Contents(), isLast[..], visited[..], o) == Scan(true, ts, Walk(old(dfs.Contents()), old(isLast[..]), visited[..], o))
  {
    ghost var w0 := Walk(dfs.Contents(), isLast[..], visited[..], o);
    var e := start;
    ghost var k := 0;
    while e != 0
      invariant 0 <= k <= |ch| && e == (if k < |ch| then ch[k] else 0)
      invariant dfs.Valid() && AllIn(dfs.Contents(), 1, n + 1) && AllIn(ts[k..], 0, n + 1)
      invariant Scan(true, ts[k..], Walk(dfs.Contents(), isLast[..], visited[..], o)) == Scan(true, ts, w0)
      decreases |ch| - k
    {
      assert vertex[..][ch[k]] == ts[k] && next[..][ch[k]] == Succ(ch, k);
      var v := vertex[e];
      PushUnvisited(v, dfs, isLast, visited, n);
      assert ts[k..][1..] == ts[k + 1..];
      e := next[e];
      k := k + 1;
    }
  }

  /** Line 219: a vertex popped with `is_last` set is pushed onto `order` (a no-op when held). */
  method Finish(u: int, dfs: Stack, isLast: array<bool>, visited: array<bool>, order: Stack, ghost n: int)
    requires Apart(dfs, isLast, visited, order, n) && dfs.Valid() && order.Valid()
    requires AllIn(order.Contents(), 1, n + 1) && 1 <= u <= n
    modifies order, order.data, order.inStack
    ensures dfs.Valid() && order.Valid()
    ensures Walk(dfs.Contents(), isLast[..], visited[..], order.Contents())
         == Walk(old(dfs.Contents()), old(isLast[..]), old(visited[..]), DfsWalk.Push(true, old(order.Contents()), u))
  {
    ghost var held, last, seen := dfs.Contents(), isLast[..], visited[..];
    if !order.inStack[u] {
      Room(order.Contents(), n, u);
    }
    MarkerStack.Push(order, u);
    assert dfs.Valid() && dfs.Contents() == held && isLast[..] == last && visited[..] == seen;
  }

  /** Lines 222-224: `u` is visited and pushed back with `is_last` set. */
  method Reopen(u: int, dfs: Stack, isLast: array<bool>, visited: array<bool>, ghost n: int)
    requires 1 <= u <= n
    requires dfs.Valid() && dfs.data.Length == n + 1 && dfs.inStack.Length == n + 1
    requires isLast.Length == n + 1 && visited.Length == n + 1 && dfs.inStack != isLast && dfs.inStack != visited && isLast != visited
    requires AllIn(dfs.Contents(), 1, n + 1) && u !in dfs.Contents()
    modifies dfs, dfs.data, dfs.inStack, isLast, visited
    ensures dfs.Valid() && AllIn(dfs.Contents(), 1, n + 1)
    ensures dfs.Contents() == DfsWalk.Push(true, old(dfs.Contents()), u)
    ensures isLast[..] == old(isLast[..])[u := true] && visited[..] == old(visited[..])[u := true]
  {
    ghost var last, seen := isLast[..], visited[..];
    visited[u] := true;
    Room(dfs.Contents(), n, u);
    MarkerStack.Push(dfs, u);
    assert isLast[..] == last && visited[..] == seen[u := true];
    isLast[u] := true;
  }

  /**
   * Lines 222-232: a vertex popped with `is_last` clear is visited, pushed
   * back with `is_last` set, and its unvisited targets `ts`, read along the
   * chain `ch` that starts at `start`, are pushed above it.
   */
  method Expand(u: int, next: array<int>, vertex: array<int>, start: int, ghost ch: seq<int>, ghost ts: seq<int>,
                dfs: Stack, isLast: array<bool>, visited: array<bool>, order: Stack, ghost n: int)
    requires start == Head(ch) && ChainAt(next[..], vertex[..], ch, ts) && AllIn(ts, 1, n + 1) && 1 <= u <= n
    requires dfs.data != next && dfs.data != vertex
    requires Apart(dfs, isLast, visited, order, n) && dfs.Valid() && order.Valid()
    requires AllIn(dfs.Contents(), 1, n + 1) && u !in dfs.Contents()
    modifies dfs, dfs.data, dfs.inStack, isLast, visited
    ensures dfs.Valid() && order.Valid() && AllIn(dfs.Contents(), 1, n + 1)
    ensures Walk(dfs.Contents(), isLast[..], visited[..], order.Contents())
      == Scan(true, ts, Walk(DfsWalk.Push(true, old(dfs.Contents()), u), old(isLast[..])[u := true], old(visited[..])[u := true], old(order.Contents())))
  {
    ghost var nx, vx, o := next[..], vertex[..], order.Contents();
    Reopen(u, dfs, isLast, visited, n);
    assert next[..] == nx && vertex[..] == vx && order.Valid() && order.Contents() == o;
    PushTargets(next, vertex, start, ch, ts, dfs, isLast, visited, o, n);
    assert order.Valid() && order.Contents() == o;
  }

  /**
   * What the search reads of the edge store: `first[u]` heads `u`'s chain in
   * `ch`, and that chain walks `next` through the targets `adj[u]`.
   */
  ghost predicate Reads(first: seq<int>, next: seq<int>, vertex: seq<int>, ch: seq<seq<int>>, adj: AdjLists, n: int)
  {
    && |first| == n + 1 && |ch| == n + 1 && |adj| == n + 1
    && forall u :: 0 <= u <= n ==> first[u] == Head(ch[u]) && ChainAt(next, vertex, ch[u], adj[u])
  }

  /** A valid store can be read chain by chain. */
  lemma StoreReads(g: Graph, n: int)
    requires g.Valid() && g.first.Length == n + 1
    ensures Reads(g.first[..], g.next[..], g.vertex[..], g.chains, g.Adj(), n)
  {
    forall u | 0 <= u <= n
      ensures g.first[..][u] == Head(g.chains[u]) && ChainAt(g.next[..], g.vertex[..], g.chains[u], g.Adj()[u])
    {
      StoreRead(g.first[..], g.next[..], g.vertex[..], g.chains, g.owner, g.nrEdges, u);
    }
  }

  /** Line 215: the top of a nonempty `dfs` stack of ids `1..n` is popped. */
  method PopTop(dfs: Stack, ghost n: int) returns (u: int)
    requires dfs.Valid() && dfs.inStack.Length == n + 1 && AllIn(dfs.Contents(), 1, n + 1) && dfs.Contents() != []
    modifies dfs, dfs.inStack
    ensures dfs.Valid() && AllIn(dfs.Contents(), 1, n + 1)
    ensures old(dfs.Contents()) == dfs.Contents() + [u] && u !in dfs.Contents() && 1 <= u <= n
  {
    ghost var c := dfs.Contents();
    u := MarkerStack.Pop(dfs);
    assert c == dfs.Contents() + [u] && c[|c| - 1] == u;
  }

  /** Lines 214-232: one pass of the `while (!Stack_IsEmpty(&dfs))` loop. */
  method Advance(first: array<int>, next: array<int>, vertex: array<int>, ghost ch: seq<seq<int>>, ghost adj: AdjLists,
                 dfs: Stack, isLast: array<bool>, visited: array<bool>, order: Stack, ghost n: int)
    requires Reads(first[..], next[..], vertex[..], ch, adj, n)
    requires dfs.data != next && dfs.data != vertex && dfs.data != first
    requires order.data != next && order.data != vertex && order.data != first
    requires Apart(dfs, isLast, visited, order, n) && dfs.Valid() && order.Valid()
    requires Shape(adj, n, Walk(dfs.Contents(), isLast[..], visited[..], order.Contents())) && dfs.Contents() != []
    modifies dfs, dfs.data, dfs.inStack, isLast, visited, order, order.data, order.inStack
    ensures dfs.Valid() && order.Valid()
    ensures Walk(dfs.Contents(), isLast[..], visited[..], order.Contents()) == Step(true, adj, n, old(Walk(dfs.Contents(), isLast[..], visited[..], order.Contents())))
  {
    ghost var w := Walk(dfs.Contents(), isLast[..], visited[..], order.Contents());
    ghost var fx, nx, vx := first[..], next[..], vertex[..];
    var u := PopTop(dfs, n);
    ghost var s := dfs.Contents();
    assert first[..] == fx && next[..] == nx && vertex[..] == vx;
    assert isLast[..] == w.last && visited[..] == w.visited && order.Contents() == w.order && order.Valid();
    if isLast[u] {
      StepClose(true, adj, n, w, s, u);
      Finish(u, dfs, isLast, visited, order, n);
    } else {
      StepOpen(true, adj, n, w, s, u);
      assert first[..][u] == Head(ch[u]) && ChainAt(next[..], vertex[..], ch[u], adj[u]);
      Expand(u, next, vertex, first[u], ch[u], adj[u], dfs, isLast, visited, order, n);
    }
  }

  /** Lines 213-233: the `while (!Stack_IsEmpty(&dfs))` loop. */
  method DrainStack(first: array<int>, next: array<int>, vertex: array<int>, ghost ch: seq<seq<int>>, ghost adj: AdjLists,
                    dfs: Stack, isLast: array<bool>, visited: array<bool>, order: Stack, ghost n: int)
    requires Reads(first[..], next[..], vertex[..], ch, adj, n)
    requires dfs.data != next && dfs.data != vertex && dfs.data != first
    requires order.data != next && order.data != vertex && order.data != first
    requires Apart(dfs, isLast, visited, order, n) && dfs.Valid() && order.Valid()
    requires Shape(adj, n, Walk(dfs.Contents(), isLast[..], visited[..], order.Contents()))
    modifies dfs, dfs.data, dfs.inStack, isLast, visited, order, order.data, order.inStack
    ensures dfs.Valid() && order.Valid()
    ensures Walk(dfs.Contents(), isLast[..], visited[..], order.Contents()) == Drain(true, adj, n, old(Walk(dfs.Contents(), isLast[..], visited[..], order.Contents())))
  {
    ghost var goal := Drain(true, adj, n, Walk(dfs.Contents(), isLast[..], visited[..], order.Contents()));
    ghost var fx, nx, vx := first[..], next[..], vertex[..];
    while !MarkerStack.IsEmpty(dfs)
      invariant first[..] == fx && next[..] == nx && vertex[..] == vx
      invariant dfs.Valid() && order.Valid()
      invariant Shape(adj, n, Walk(dfs.Contents(), isLast[..], visited[..], order.Contents()))
      invariant Drain(true, adj, n, Walk(dfs.Contents(), isLast[..], visited[..], order.Contents())) == goal
      decreases Unvisited(visited[..]), |dfs.Contents()|
    {
      Advance(first, next, vertex, ch, adj, dfs, isLast, visited, order, n);
    }
  }

  /** Lines 209-233: one pass of the `for (src ...)` loop, from an empty `dfs` stack. */
  method Visit(src: int, first: array<int>, next: array<int>, vertex: array<int>, ghost ch: seq<seq<int>>, ghost adj: AdjLists,
               dfs: Stack, isLast: array<bool>, visited: array<bool>, order: Stack, ghost n: int)
    requires Reads(first[..], next[..], vertex[..], ch, adj, n) && 1 <= src <= n
    requires dfs.data != next && dfs.data != vertex && dfs.data != first
    requires order.data != next && order.data != vertex && order.data != first
    requires Apart(dfs, isLast, visited, order, n) && dfs.Valid() && order.Valid() && dfs.Contents() == []
    requires Shape(adj, n, Walk(dfs.Contents(), isLast[..], visited[..], order.Contents()))
    modifies dfs, dfs.data, dfs.inStack, isLast, visited, order, order.data, order.inStack
    ensures dfs.Valid() && order.Valid()
    ensures Walk(dfs.Contents(), isLast[..], visited[..], order.Contents())
         == Round(true, adj, n, src, old(Walk(dfs.Contents(), isLast[..], visited[..], order.Contents())))
  {
    ghost var w := Walk(dfs.Contents(), isLast[..], visited[..], order.Contents());
    ghost var fx, nx, vx := first[..], next[..], vertex[..];
    PushUnvisited(src, dfs, isLast, visited, n);
    assert first[..] == fx && next[..] == nx && vertex[..] == vx;
    assert order.Valid() && order.Contents() == w.order && visited[..] == w.visited;
    assert Walk(dfs.Contents(), isLast[..], visited[..], order.Contents()) == Start(true, src, w);
    DrainStack(first, next, vertex, ch, adj, dfs, isLast, visited, order, n);
  }

  /** Lines 208-234: the `for (src = 1; src <= g->nr_vertices; src++)` loop. */
  method Sweep(first: array<int>, next: array<int>, vertex: array<int>, ghost ch: seq<seq<int>>, ghost adj: AdjLists,
               dfs: Stack, isLast: array<bool>, visited: array<bool>, order: Stack, n: nat)
    requires Reads(first[..], next[..], vertex[..], ch, adj, n)
    requires dfs.data != next && dfs.data != vertex && dfs.data != first
    requires order.data != next && order.data != vertex && order.data != first
    requires Apart(dfs, isLast, visited, order, n) && dfs.Valid() && order.Valid() && dfs.Contents() == []
    requires Shape(adj, n, Walk(dfs.Contents(), isLast[..], visited[..], order.Contents()))
    modifies dfs, dfs.data, dfs.inStack, isLast, visited, order, order.data, order.inStack
    ensures dfs.Valid() && order.Valid()
    ensures Walk(dfs.Contents(), isLast[..], visited[..], order.Contents())
         == Search(true, adj, n, 1, old(Walk(dfs.Contents(), isLast[..], visited[..], order.Contents())))
  {
    ghost var goal := Search(true, adj, n, 1, Walk(dfs.Contents(), isLast[..], visited[..], order.Contents()));
    ghost var fx, nx, vx := first[..], next[..], vertex[..];
    var src := 1;
    while src <= n
      invariant 1 <= src <= n + 1
      invariant first[..] == fx && next[..] == nx && vertex[..] == vx
      invariant dfs.Valid() && order.Valid() && dfs.Contents() == []
      invariant Shape(adj, n, Walk(dfs.Contents(), isLast[..], visited[..], order.Contents()))
      invariant Search(true, adj, n, src, Walk(dfs.Contents(), isLast[..], visited[..], order.Contents())) == goal
    {
      SearchNext(true, adj, n, src, Walk(dfs.Contents(), isLast[..], visited[..], order.Contents()));
      Visit(src, first, next, vertex, ch, adj, dfs, isLast, visited, order, n);
      src := src + 1;
    }
  }

  /** Lines 201-205: the `dfs` stack, `is_last` (calloc) and a new `order` stack. */
  method Storage(visited: array<bool>, n: nat) returns (dfs: Stack, isLast: array<bool>, order: Stack)
    requires visited.Length == n + 1
    ensures fresh(dfs) && fresh(dfs.data) && fresh(dfs.inStack) && fresh(isLast)
    ensures fresh(order) && fresh(order.data) && fresh(order.inStack)
    ensures Apart(dfs, isLast, visited, order, n) && dfs.Valid() && order.Valid()
    ensures dfs.Contents() == [] && order.Contents() == [] && isLast[..] == seq(n + 1, _ => false)
  {
    dfs := new Stack.New(n + 1);
    order := new Stack.New(n + 1);
    isLast := new bool[n + 1](_ => false);
  }

  /**
   * `DFS` (lines 199-238): with nothing visited yet, the search leaves in
   * `order` and `visited` exactly what the value-level search `Dfs` computes.
   */
  method DFS(g: Graph, visited: array<bool>) returns (order: Stack)
    requires g.Valid() && Within(g.Adj(), g.nrVertices) && visited.Length == g.nrVertices + 1
    requires forall v :: 0 <= v < visited.Length ==> !visited[v]
    modifies visited
    ensures fresh(order) && fresh(order.data) && fresh(order.inStack) && order.Valid()
    ensures order.data.Length == g.nrVertices + 1 && order.inStack.Length == g.nrVertices + 1
    ensures order.Contents() == Dfs(true, g.Adj(), g.nrVertices).order
    ensures AllIn(order.Contents(), 1, g.nrVertices + 1) && AllIn(Reversed(order.Contents()), 0, g.nrVertices + 1)
    ensures visited[..] == Dfs(true, g.Adj(), g.nrVertices).visited
    ensures g.Valid() && g.Adj() == old(g.Adj())
  {
    StoreReads(g, g.nrVertices);
    order := Traverse(g.first, g.next, g.vertex, g.chains, g.Adj(), visited, g.nrVertices);
  }

  /** The body of `DFS` on the arrays of the graph store, read through the chains `ch`. */
  method Traverse(first: array<int>, next: array<int>, vertex: array<int>, ghost ch: seq<seq<int>>, ghost adj: AdjLists,
                  visited: array<bool>, n: nat) returns (order: Stack)
    requires Reads(first[..], next[..], vertex[..], ch, adj, n) && Within(adj, n) && visited.Length == n + 1
    requires forall v :: 0 <= v < visited.Length ==> !visited[v]
    modifies visited
    ensures fresh(order) && fresh(order.data) && fresh(order.inStack) && order.Valid()
    ensures order.data.Length == n + 1 && order.inStack.Length == n + 1
    ensures order.Contents() == Dfs(true, adj, n).order && visited[..] == Dfs(true, adj, n).visited
    ensures AllIn(order.Contents(), 1, n + 1) && AllIn(Reversed(order.Contents()), 0, n + 1)
  {
    var dfs, isLast;
    dfs, isLast, order := Storage(visited, n);
    assert visited[..] == seq(n + 1, _ => false);
    Sweep(first, next, vertex, ch, adj, dfs, isLast, visited, order, n);
    ReversedIn(order.Contents(), 1, n + 1);
  }

  /** Lines 192-195: every target `v` of `u` along the chain `ch` gets `dist[v]` updated by `rule`. */
  method RelaxTargets(next: array<int>, vertex: array<int>, start: int, ghost ch: seq<int>, ghost ts: seq<int>,
                      u: int, dist: array<int>, rule: Rule)
    requires start == Head(ch) && ChainAt(next[..], vertex[..], ch, ts) && AllIn(ts, 0, dist.Length)
    requires dist != next && dist != vertex && 0 <= u < dist.Length
    modifies dist
    ensures dist[..] == RelaxFrom(rule, ts, u, old(dist[..]))
  {
    ghost var goal := RelaxFrom(rule, ts, u, dist[..]);
    var e := start;
    ghost var k := 0;
    while e != 0
      invariant 0 <= k <= |ch| && e == (if k < |ch| then ch[k] else 0)
      invariant AllIn(ts[k..], 0, dist.Length)
      invariant RelaxFrom(rule, ts[k..], u, dist[..]) == goal
      decreases |ch| - k
    {
      ghost var k' := k + 1;
      assert vertex[..][ch[k]] == ts[k] && next[..][ch[k]] == Succ(ch, k) == (if k' < |ch| then ch[k'] else 0);
      var v, after := vertex[e], next[e];
      ghost var d := dist[..];
      RelaxOne(dist, u, v, rule);
      RelaxNext(rule, ts, k, k', u, d, dist[..], goal);
      e, k := after, k';
    }
  }

  /** Line 194 for one target `v`: `dist[v]` is updated by `rule`. */
  method RelaxOne(dist: array<int>, u: int, v: int, rule: Rule)
    requires 0 <= u < dist.Length && 0 <= v < dist.Length
    modifies dist
    ensures dist[..] == Relaxed(rule, old(dist[..]), u, v)
  {
    dist[v] := if rule == Assign then dist[u] + 1 else if dist[v] < dist[u] + 1 then dist[u] + 1 else dist[v];
  }

  /** One turn of the loop of `RelaxTargets`, on values: relaxing `ts[k]` leaves `ts[k + 1..]` to reach the same goal. */
  lemma RelaxNext(rule: Rule, ts: seq<int>, k: int, k': int, u: int, d: seq<int>, d': seq<int>, goal: seq<int>)
    requires 0 <= k < |ts| && k' == k + 1 && 0 <= u < |d| && AllIn(ts[k..], 0, |d|) && RelaxFrom(rule, ts[k..], u, d) == goal
    requires 0 <= ts[k] < |d| && d' == Relaxed(rule, d, u, ts[k])
    ensures AllIn(ts[k'..], 0, |d'|) && RelaxFrom(rule, ts[k'..], u, d') == goal
  {
    assert ts[k..][1..] == ts[k'..] && ts[k..][0] == ts[k];
  }

  /** Lines 191-195: the targets of `u`, read along its chain, are relaxed. */
  method RelaxVertex(u: int, first: array<int>, next: array<int>, vertex: array<int>, ghost ch: seq<seq<int>>, ghost adj: AdjLists,
                     dist: array<int>, rule: Rule, ghost n: int)
    requires Reads(first[..], next[..], vertex[..], ch, adj, n) && Within(adj, n) && 1 <= u <= n
    requires dist != first && dist != next && dist != vertex && dist.Length == n + 1
    modifies dist
    ensures AllIn(adj[u], 0, n + 1) && dist[..] == RelaxFrom(rule, adj[u], u, old(dist[..]))
  {
    assert forall k :: 0 <= k < |adj[u]| ==> 1 <= adj[u][k] <= n;
    assert first[..][u] == Head(ch[u]) && ChainAt(next[..], vertex[..], ch[u], adj[u]);
    RelaxTargets(next, vertex, first[u], ch[u], adj[u], u, dist, rule);
  }

  /** Lines 189-195: one pass of the `while (!Stack_IsEmpty(order))` loop. */
  method RelaxTop(first: array<int>, next: array<int>, vertex: array<int>, ghost ch: seq<seq<int>>, ghost adj: AdjLists,
                  order: Stack, dist: array<int>, rule: Rule, ghost n: int)
    requires Reads(first[..], next[..], vertex[..], ch, adj, n) && Within(adj, n)
    requires dist != first && dist != next && dist != vertex && dist != order.data && dist.Length == n + 1
    requires order.Valid() && order.inStack.Length == n + 1 && AllIn(order.Contents(), 1, n + 1) && order.Contents() != []
    modifies order, order.inStack, dist
    ensures order.Valid() && AllIn(order.Contents(), 1, n + 1) && |order.Contents()| < |old(order.Contents())|
    ensures AllIn(Reversed(order.Contents()), 0, n + 1)
    ensures Relax(rule, adj, n, Reversed(order.Contents()), dist[..])
         == Relax(rule, adj, n, Reversed(old(order.Contents())), old(dist[..]))
  {
    ghost var c, d, fx, nx, vx := order.Contents(), dist[..], first[..], next[..], vertex[..];
    var u := PopTop(order, n);
    ghost var s := order.Contents();
    assert dist[..] == d && first[..] == fx && next[..] == nx && vertex[..] == vx;
    RelaxVertex(u, first, next, vertex, ch, adj, dist, rule, n);
    assert order.Valid() && order.Contents() == s;
    RelaxPopped(rule, adj, n, c, s, u, d, dist[..]);
  }

  /** The pure step behind `RelaxTop`: popping `u` off `c` and relaxing its targets is the first step of `Relax` over `c` reversed. */
  lemma RelaxPopped(rule: Rule, adj: AdjLists, n: int, c: seq<int>, s: seq<int>, u: int, d: seq<int>, d': seq<int>)
    requires Within(adj, n) && c == s + [u] && AllIn(c, 1, n + 1) && 1 <= u <= n && |d| == n + 1
    requires AllIn(adj[u], 0, n + 1) && d' == RelaxFrom(rule, adj[u], u, d)
    ensures AllIn(s, 0, n + 1) && AllIn(Reversed(s), 0, n + 1) && AllIn(Reversed(c), 0, n + 1)
    ensures Relax(rule, adj, n, Reversed(s), d') == Relax(rule, adj, n, Reversed(c), d)
  {
    RelaxPop(rule, adj, n, s, u, d);
    ReversedIn(s, 0, n + 1);
    ReversedIn(c, 0, n + 1);
  }

  /** Lines 186-197: `order` is popped empty, each popped vertex relaxing its targets. */
  method Relaxation(first: array<int>, next: array<int>, vertex: array<int>, ghost ch: seq<seq<int>>, ghost adj: AdjLists,
                    order: Stack, dist: array<int>, rule: Rule, ghost n: int)
    requires Reads(first[..], next[..], vertex[..], ch, adj, n) && Within(adj, n)
    requires dist != first && dist != next && dist != vertex && dist != order.data && dist.Length == n + 1
    requires order.Valid() && order.inStack.Length == n + 1 && AllIn(order.Contents(), 1, n + 1)
    modifies order, order.inStack, dist
    ensures order.Valid() && order.Contents() == []
    ensures dist[..] == Relax(rule, adj, n, Reversed(old(order.Contents())), old(dist[..]))
  {
    ReversedIn(order.Contents(), 1, n + 1);
    assert AllIn(Reversed(order.Contents()), 0, n + 1);
    ghost var goal := Relax(rule, adj, n, Reversed(order.Contents()), dist[..]);
    ghost var fx, nx, vx := first[..], next[..], vertex[..];
    while !MarkerStack.IsEmpty(order)
      invariant first[..] == fx && next[..] == nx && vertex[..] == vx
      invariant order.Valid() && AllIn(order.Contents(), 1, n + 1)
      invariant AllIn(Reversed(order.Contents()), 0, n + 1)
      invariant Relax(rule, adj, n, Reversed(order.Contents()), dist[..]) == goal
      decreases |order.Contents()|
    {
      RelaxTop(first, next, vertex, ch, adj, order, dist, rule, n);
    }
  }

  /** `DP` (lines 186-197): popping `order` empty relaxes its vertices top first. */
  method DP(g: Graph, order: Stack, dist: array<int>, rule: Rule)
    requires g.Valid() && Within(g.Adj(), g.nrVertices)
    requires order.Valid() && order.inStack.Length == g.nrVertices + 1 && AllIn(order.Contents(), 1, g.nrVertices + 1)
    requires dist.Length == g.nrVertices + 1 && dist != order.data && dist != g.first && dist != g.next && dist != g.vertex
    modifies order, order.inStack, dist
    ensures order.Valid() && order.Contents() == []
    ensures dist[..] == Relax(rule, g.Adj(), g.nrVertices, Reversed(old(order.Contents())), old(dist[..]))
    ensures g.Valid() && g.Adj() == old(g.Adj())
  {
    ghost var adj := g.Adj();
    StoreReads(g, g.nrVertices);
    Relaxation(g.first, g.next, g.vertex, g.chains, adj, order, dist, rule, g.nrVertices);
    assert g.Valid() && g.Adj() == adj;
  }

  /**
   * Lines 252-256: `nr_paths` counts the vertices with `dist` 0 and
   * `longest_path`, from 0, is one more than the largest `dist`.
   */
  method Summarise(dist: array<int>, n: nat) returns (nrPaths: int, longestPath: int)
    requires dist.Length == n + 1
    ensures nrPaths == CountZero(dist[..], n) && longestPath == MaxDist(dist[..], n) + 1
  {
    nrPaths, longestPath := 0, 0;
    var u := 1;
    while u <= n
      invariant 1 <= u <= n + 1
      invariant nrPaths == CountZero(dist[..], u - 1) && longestPath == MaxDist(dist[..], u - 1)
    {
      if dist[u] == 0 {
        nrPaths := nrPaths + 1;
      }
      longestPath := if longestPath < dist[u] then dist[u] else longestPath;
      u := u + 1;
    }
    longestPath := longestPath + 1;
  }

  /** `dist` after `DFS` and `DP` by `rule`, from `visited` all false and `dist` all 0. */
  ghost function DfsDist(rule: Rule, adj: AdjLists, n: nat): (r: seq<int>)
    requires Within(adj, n)
    ensures |r| == n + 1
  {
    ReversedIn(Dfs(true, adj, n).order, 1, n + 1);
    Relax(rule, adj, n, Reversed(Dfs(true, adj, n).order), seq(n + 1, _ => 0))
  }

  /**
   * What the summary reports after `DFS` and `DP` from `dist` all 0: the
   * number of vertices no arc enters, and the vertex count of a real path
   * that, with `Lift` and a topological pop order, no path exceeds.
   */
  lemma DfsReports(rule: Rule, adj: AdjLists, n: nat, d: seq<int>)
    requires Within(adj, n)
    requires d == DfsDist(rule, adj, n)
    ensures CountZero(d, n) == Sources(adj, n, n)
    ensures n >= 1 ==> exists p :: Path(adj, n, p) && |p| == MaxDist(d, n) + 1
    ensures rule == Lift && Topological(adj, Reversed(Dfs(true, adj, n).order), n)
            ==> forall p :: Path(adj, n, p) ==> |p| <= MaxDist(d, n) + 1
  {
    var order := Dfs(true, adj, n).order;
    DfsCovers(true, adj, n);
    ReversedIn(order, 1, n + 1);
    NrPathsCountsSources(rule, adj, n, Reversed(order));
    if n >= 1 {
      LongestRealised(rule, adj, n, Reversed(order));
    }
    if rule == Lift && Topological(adj, Reversed(order), n) {
      LiftLongest(adj, n, Reversed(order));
      forall p | Path(adj, n, p) ensures |p| <= MaxDist(d, n) + 1 {
        assert 1 <= p[|p| - 1] <= n;
      }
    }
  }

  /** Lines 242-251: `DFS` then `DP`, from `visited` all false and `dist` all 0. */
  method Distances(g: Graph, rule: Rule) returns (dist: array<int>)
    requires g.Valid() && Within(g.Adj(), g.nrVertices)
    ensures fresh(dist) && dist.Length == g.nrVertices + 1
    ensures dist[..] == DfsDist(rule, g.Adj(), g.nrVertices)
  {
    var n := g.nrVertices;
    ghost var adj := g.Adj();
    var visited := new bool[n + 1](_ => false);
    dist := new int[n + 1](_ => 0);
    ghost var zeros := dist[..];
    assert zeros == seq(n + 1, _ => 0);
    var order := DFS(g, visited);
    ghost var c := order.Contents();
    assert dist[..] == zeros;
    DP(g, order, dist, rule);
    DfsDistIs(rule, adj, n, c, zeros, dist[..]);
  }

  /** `DfsDist` is `Relax` over the popped order of the search, from all 0. */
  lemma DfsDistIs(rule: Rule, adj: AdjLists, n: nat, c: seq<int>, zeros: seq<int>, d: seq<int>)
    requires Within(adj, n) && c == Dfs(true, adj, n).order && zeros == seq(n + 1, _ => 0)
    requires AllIn(Reversed(c), 0, n + 1) && d == Relax(rule, adj, n, Reversed(c), zeros)
    ensures d == DfsDist(rule, adj, n)
  {
  }

  /**
   * `TopologicalSort` (lines 240-262), with `DP` updating by `rule` and the
   * two results returned rather than stored in `g`.  Whatever the rule,
   * `nr_paths` is the number of vertices no arc enters and `longest_path`
   * counts the vertices of a real path; with `Lift` and a topological pop
   * order, no path is longer.
   */
  method TopologicalSort(g: Graph, rule: Rule) returns (nrPaths: int, longestPath: int)
    requires g.Valid() && Within(g.Adj(), g.nrVertices)
    ensures nrPaths == Sources(g.Adj(), g.nrVertices, g.nrVertices)
    ensures longestPath == MaxDist(DfsDist(rule, g.Adj(), g.nrVertices), g.nrVertices) + 1
    ensures g.nrVertices >= 1 ==> exists p :: Path(g.Adj(), g.nrVertices, p) && |p| == longestPath
    ensures rule == Lift && Topological(g.Adj(), Reversed(Dfs(true, g.Adj(), g.nrVertices).order), g.nrVertices)
            ==> forall p :: Path(g.Adj(), g.nrVertices, p) ==> |p| <= longestPath
  {
    var dist := Distances(g, rule);
    nrPaths, longestPath := Summarise(dist, g.nrVertices);
    DfsReports(rule, g.Adj(), g.nrVertices, dist[..]);
  }
}
