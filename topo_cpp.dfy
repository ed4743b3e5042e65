/**
 * proj/2020-2021/p1/src/proj.cpp: the class `Graph` with `list<int>`
 * adjacency lists (no de-duplication), a plain `std::stack` for the
 * search, and `dist`, `visited` and `order` kept as vectors in the object.
 * `DFS` is proved against the value-level search of module DfsWalk with
 * `marked == false`, `DP` against the pass of module PathDp over every
 * entry of `order` but the first.
 *
 * As in module TopoC, `DP` takes the update rule as a parameter: `Assign`
 * is line 88 as written, `Lift` the corrected update.
 */
module TopoCpp {
  import opened Seqs
  import opened LinkedGraph
  import opened DfsWalk
  import opened PathDp
  import opened KahnOrder
  import opened KahnState

  /** The arcs one call to `Connect(u, v)` adds, in the order it adds them. */
  function Link(u: int, v: int, bidir: bool): (r: seq<(int, int)>)
    ensures |r| == (if bidir then 2 else 1) && r[0] == (u, v)
    ensures forall a :: a in r <==> a == (u, v) || (bidir && a == (v, u))
  {
    if bidir then [(u, v), (v, u)] else [(u, v)]
  }

  /** The arcs the input loop of `operator>>` adds for `edges`, in order. */
  function Connections(edges: seq<(int, int)>, bidir: bool): (r: seq<(int, int)>)
    ensures |r| == |edges| * (if bidir then 2 else 1)
    decreases |edges|
  {
    if edges == [] then []
    else
      var e := edges[|edges| - 1];
      Connections(edges[..|edges| - 1], bidir) + Link(e.0, e.1, bidir)
  }

  /**
   * An arc is added exactly when it is an input edge, or the reverse of one
   * in a bidirectional graph.
   */
  lemma {:induction false} ConnectionsMember(edges: seq<(int, int)>, bidir: bool, u: int, v: int)
    ensures (u, v) in Connections(edges, bidir)
        <==> exists i :: 0 <= i < |edges| && (edges[i] == (u, v) || (bidir && edges[i] == (v, u)))
    decreases |edges|
  {
    if edges != [] {
      var e := edges[..|edges| - 1];
      ConnectionsMember(e, bidir, u, v);
      if exists i :: 0 <= i < |e| && (e[i] == (u, v) || (bidir && e[i] == (v, u))) {
        var i :| 0 <= i < |e| && (e[i] == (u, v) || (bidir && e[i] == (v, u)));
        assert edges[i] == e[i];
      }
      if exists i :: 0 <= i < |edges| && (edges[i] == (u, v) || (bidir && edges[i] == (v, u))) {
        var i :| 0 <= i < |edges| && (edges[i] == (u, v) || (bidir && edges[i] == (v, u)));
        if i < |e| {
          assert e[i] == edges[i];
        }
      }
    }
  }

  /**
   * After `operator>>`, `v` is in `adj[u]` exactly when some input edge
   * joins `u` to `v` (either way round when the graph is bidirectional).
   */
  lemma ReadTargets(n: nat, edges: seq<(int, int)>, bidir: bool, u: int, v: int)
    requires 0 <= u <= n
    ensures v in EdgeLists(n + 1, Connections(edges, bidir))[u]
        <==> exists i :: 0 <= i < |edges| && (edges[i] == (u, v) || (bidir && edges[i] == (v, u)))
  {
    var arcs := Connections(edges, bidir);
    EdgeListsOut(n + 1, arcs, u);
    OutOfMember(arcs, u, v);
    ConnectionsMember(edges, bidir, u, v);
    if exists i :: 0 <= i < |arcs| && arcs[i] == (u, v) {
      var i :| 0 <= i < |arcs| && arcs[i] == (u, v);
      assert (u, v) in arcs;
    }
    if (u, v) in arcs {
      var i :| 0 <= i < |arcs| && arcs[i] == (u, v);
    }
  }

  /** Edges between vertices of `1..n` give lists of targets in `1..n`. */
  lemma ReadWithin(n: nat, edges: seq<(int, int)>, bidir: bool)
    requires forall i :: 0 <= i < |edges| ==> 1 <= edges[i].0 <= n && 1 <= edges[i].1 <= n
    ensures Within(EdgeLists(n + 1, Connections(edges, bidir)), n)
  {
    var adj := EdgeLists(n + 1, Connections(edges, bidir));
    forall u, k | 0 <= u <= n && 0 <= k < |adj[u]| ensures 1 <= adj[u][k] <= n {
      ReadTargets(n, edges, bidir, u, adj[u][k]);
    }
  }

  /** The pass over `order` back to front that stops before `order[0]`. */
  function Skipped(order: seq<int>): (r: seq<int>)
    requires |order| >= 1
    ensures Reversed(order) == r + [order[0]]
  {
    var r := Reversed(order[1..]);
    assert Reversed(order) == r + [order[0]];
    r
  }

  /** Skipping a vertex that has no targets changes nothing. */
  lemma SkipSink(rule: Rule, adj: AdjLists, n: int, order: seq<int>, d: seq<int>)
    requires Within(adj, n) && AllIn(order, 0, n + 1) && |d| == n + 1 && |order| >= 1
    requires adj[order[0]] == []
    ensures AllIn(Skipped(order), 0, n + 1)
    ensures Relax(rule, adj, n, Skipped(order), d) == Relax(rule, adj, n, Reversed(order), d)
  {
    var pops := Reversed(order);
    ReversedIn(order, 0, n + 1);
    RelaxSplit(rule, adj, n, pops, d, |pops| - 1);
    assert pops[..|pops| - 1] == Skipped(order);
    assert pops[|pops| - 1..] == [order[0]];
  }

  /** The search with a plain stack visits every vertex, so for `n >= 1` `order` is not empty. */
  lemma OrderFilled(adj: AdjLists, n: nat)
    requires Within(adj, n) && n >= 1
    ensures |Dfs(false, adj, n).order| >= 1 && AllIn(Dfs(false, adj, n).order, 1, n + 1)
  {
    DfsCovers(false, adj, n);
    assert 1 in Range(1, n + 1) by { RangeSize(1, n + 1); }
  }

  /** A search from any all-false `visited`, with `is_last` equal to it, is the search from scratch. */
  lemma SearchFresh(adj: AdjLists, n: nat, vs: seq<bool>)
    requires Within(adj, n) && |vs| == n + 1 && forall v :: 0 <= v <= n ==> !vs[v]
    ensures Search(false, adj, n, 1, Walk([], vs, vs, [])) == Dfs(false, adj, n)
  {
    assert vs == seq(n + 1, _ => false);
  }

  /** The first vertex the search finishes: `order[0]`, the one `DP` skips. */
  ghost function FirstDone(adj: AdjLists, n: nat): (r: int)
    requires Within(adj, n) && n >= 1
    ensures 1 <= r <= n && |Dfs(false, adj, n).order| >= 1 && r == Dfs(false, adj, n).order[0]
  {
    OrderFilled(adj, n);
    Dfs(false, adj, n).order[0]
  }

  /** `dist` after `DFS` and `DP`, from `d`. */
  ghost function ListDist(rule: Rule, adj: AdjLists, n: nat, d: seq<int>): (r: seq<int>)
    requires Within(adj, n) && n >= 1 && |d| == n + 1
    ensures |r| == n + 1
  {
    var order := Dfs(false, adj, n).order;
    OrderFilled(adj, n);
    ReversedIn(order[1..], 1, n + 1);
    Relax(rule, adj, n, Skipped(order), d)
  }

  /** `longest_path` after `max(longest_path, dist[u] + 1)` over `u` in `1..k`, from `from`. */
  function Peak(d: seq<int>, k: int, from: int): (r: int)
    requires 0 <= k < |d|
    ensures r >= from && forall v :: 1 <= v <= k ==> r >= d[v] + 1
    ensures r == from || exists v :: 1 <= v <= k && r == d[v] + 1
  {
    if k == 0 then from else if Peak(d, k - 1, from) < d[k] + 1 then d[k] + 1 else Peak(d, k - 1, from)
  }

  /** From 0 and over nonnegative values, the fold is one more than the largest value. */
  lemma {:induction false} PeakMax(d: seq<int>, k: int)
    requires 1 <= k < |d| && NonNegative(d)
    ensures Peak(d, k, 0) == MaxDist(d, k) + 1
  {
    if k > 1 {
      PeakMax(d, k - 1);
    }
  }

  /**
   * What `TopologicalSort` reports from `dist`: `nr_paths` counts the
   * sources whenever the skipped `order[0]` has no targets (as in every
   * acyclic graph); the length is that of a real path; and with `Lift` over
   * a topological order no path is longer.
   */
  lemma ListReports(rule: Rule, adj: AdjLists, n: nat, d: seq<int>)
    requires Within(adj, n) && n >= 1
    requires d == ListDist(rule, adj, n, seq(n + 1, _ => 0))
    ensures NonNegative(d) && Peak(d, n, 0) == MaxDist(d, n) + 1
    ensures exists p :: Path(adj, n, p) && |p| == Peak(d, n, 0)
    ensures adj[FirstDone(adj, n)] == [] ==> CountZero(d, n) == Sources(adj, n, n)
    ensures adj[FirstDone(adj, n)] == [] && rule == Lift && Topological(adj, Reversed(Dfs(false, adj, n).order), n)
            ==> forall p :: Path(adj, n, p) ==> |p| <= Peak(d, n, 0)
  {
    var order := Dfs(false, adj, n).order;
    var zeros := seq(n + 1, _ => 0);
    OrderFilled(adj, n);
    ReversedIn(order[1..], 1, n + 1);
    RelaxMarks(rule, adj, n, Skipped(order), zeros);
    PeakMax(d, n);
    LongestRealised(rule, adj, n, Skipped(order));
    if adj[order[0]] == [] {
      DfsCovers(false, adj, n);
      ReversedIn(order, 1, n + 1);
      SkipSink(rule, adj, n, order, zeros);
      NrPathsCountsSources(rule, adj, n, Reversed(order));
      if rule == Lift && Topological(adj, Reversed(order), n) {
        LiftLongest(adj, n, Reversed(order));
        forall p | Path(adj, n, p) ensures |p| <= MaxDist(d, n) + 1 {
          assert 1 <= p[|p| - 1] <= n;
        }
      }
    }
  }

  /** Lines 117-123: each unvisited target of `u` is pushed and marked not last. */
  method PushTargets(ts: seq<int>, dfs0: seq<int>, isLast0: seq<bool>, visited: seq<bool>, ghost order: seq<int>)
    returns (dfs: seq<int>, isLast: seq<bool>)
    requires |isLast0| == |visited| && AllIn(ts, 0, |visited|)
    ensures Walk(dfs, isLast, visited, order) == Scan(false, ts, Walk(dfs0, isLast0, visited, order))
  {
    ghost var goal := Scan(false, ts, Walk(dfs0, isLast0, visited, order));
    dfs, isLast := dfs0, isLast0;
    var i := 0;
    while i < |ts|
      invariant 0 <= i <= |ts| && |isLast| == |visited|
      invariant Scan(false, ts[i..], Walk(dfs, isLast, visited, order)) == goal
    {
      assert ts[i..][1..] == ts[i + 1..];
      var v := ts[i];
      if !visited[v] {
        dfs := dfs + [v];
        isLast := isLast[v := false];
      }
      i := i + 1;
    }
  }

  /** Lines 86-89: each target `v` of `u` gets `dist[u] + 1` (or, with `Lift`, the larger of that and `dist[v]`). */
  method RelaxTargets(ts: seq<int>, u: int, dist0: seq<int>, rule: Rule) returns (dist: seq<int>)
    requires 0 <= u < |dist0| && AllIn(ts, 0, |dist0|)
    ensures dist == RelaxFrom(rule, ts, u, dist0)
  {
    dist := dist0;
    var i := 0;
    while i < |ts|
      invariant 0 <= i <= |ts| && |dist| == |dist0|
      invariant RelaxFrom(rule, ts[i..], u, dist) == RelaxFrom(rule, ts, u, dist0)
    {
      assert ts[i..][1..] == ts[i + 1..];
      var v := ts[i];
      dist := dist[v := if rule == Assign then dist[u] + 1 else if dist[v] < dist[u] + 1 then dist[u] + 1 else dist[v]];
      i := i + 1;
    }
  }

  /** Lines 71-77: `v` is appended to `adj[u]`, and `u` to `adj[v]` when bidirectional. */
  method Connect(adj: array<seq<int>>, isBidir: bool, u: int, v: int, ghost arcs: seq<(int, int)>)
    requires 0 <= u < adj.Length && 0 <= v < adj.Length
    requires adj[..] == EdgeLists(adj.Length, arcs)
    modifies adj
    ensures adj[..] == EdgeLists(adj.Length, arcs + Link(u, v, isBidir))
  {
    EdgeListsSnoc(adj.Length, arcs, u, v);
    adj[u] := adj[u] + [v];
    if isBidir {
      EdgeListsSnoc(adj.Length, arcs + [(u, v)], v, u);
      assert arcs + [(u, v)] + [(v, u)] == arcs + Link(u, v, isBidir);
      adj[v] := adj[v] + [u];
    }
  }

  /** Lines 41-45: every edge connected in input order, starting from empty lists. */
  method ConnectEdges(adj: array<seq<int>>, edges: seq<(int, int)>, isBidir: bool)
    requires forall i :: 0 <= i < |edges| ==> 1 <= edges[i].0 < adj.Length && 1 <= edges[i].1 < adj.Length
    requires forall u :: 0 <= u < adj.Length ==> adj[u] == []
    modifies adj
    ensures adj[..] == EdgeLists(adj.Length, Connections(edges, isBidir))
  {
    assert adj[..] == EdgeLists(adj.Length, Connections([], isBidir));
    for i := 0 to |edges|
      invariant adj[..] == EdgeLists(adj.Length, Connections(edges[..i], isBidir))
    {
      assert edges[..i + 1][..i] == edges[..i];
      Connect(adj, isBidir, edges[i].0, edges[i].1, Connections(edges[..i], isBidir));
    }
    assert edges[..|edges|] == edges;
  }

  /** Lines 34-45: fresh empty lists for `0..numV`, then every edge connected in input order. */
  method ReadLists(numV: nat, edges: seq<(int, int)>, isBidir: bool) returns (lists: array<seq<int>>)
    requires forall i :: 0 <= i < |edges| ==> 1 <= edges[i].0 <= numV && 1 <= edges[i].1 <= numV
    ensures fresh(lists) && lists.Length == numV + 1
    ensures lists[..] == EdgeLists(numV + 1, Connections(edges, isBidir))
  {
    lists := new seq<int>[numV + 1](_ => []);
    ConnectEdges(lists, edges, isBidir);
  }

  /** Lines 82-90 on `adj` read as `a`: `order[idx]` for `idx` from the last index down to 1. */
  method RelaxBack(adj: array<seq<int>>, ghost a: AdjLists, n: int, order: seq<int>, dist0: seq<int>, rule: Rule)
    returns (dist: seq<int>)
    requires a == adj[..] && Within(a, n) && AllIn(order, 0, n + 1) && |order| >= 1 && |dist0| == n + 1
    ensures AllIn(Skipped(order), 0, n + 1)
    ensures dist == Relax(rule, a, n, Skipped(order), dist0)
  {
    ReversedIn(order[1..], 0, n + 1);
    ghost var goal := Relax(rule, a, n, Skipped(order), dist0);
    dist := dist0;
    var idx := |order| - 1;
    assert order[1..idx + 1] == order[1..];
    while idx > 0
      invariant 0 <= idx < |order| && |dist| == n + 1
      invariant Relax(rule, a, n, Reversed(order[1..idx + 1]), dist) == goal
    {
      dist := RelaxAt(adj, a, n, order, idx, dist, rule);
      idx := idx - 1;
    }
  }

  /** Lines 83-89: the vertex `order[idx]` relaxes its targets, the last pop of `order[1..idx + 1]`. */
  method RelaxAt(adj: array<seq<int>>, ghost a: AdjLists, n: int, order: seq<int>, idx: int, dist0: seq<int>, rule: Rule)
    returns (dist: seq<int>)
    requires a == adj[..] && Within(a, n) && AllIn(order, 0, n + 1) && 0 < idx < |order| && |dist0| == n + 1
    ensures AllIn(order[1..idx], 0, n + 1) && |dist| == n + 1
    ensures Relax(rule, a, n, Reversed(order[1..idx]), dist) == Relax(rule, a, n, Reversed(order[1..idx + 1]), dist0)
  {
    var u := order[idx];
    assert order[1..idx + 1] == order[1..idx] + [u];
    RelaxPop(rule, a, n, order[1..idx], u, dist0);
    assert adj[u] == a[u];
    dist := RelaxTargets(adj[u], u, dist0, rule);
  }

  class Graph {
    const isBidir: bool
    var adj: array<seq<int>>
    var dist: seq<int>
    var visited: seq<bool>
    var order: seq<int>
    var nrVertices: int
    var nrEdges: int
    var longestPath: int
    var nrPaths: int

    /** The lists and the vectors cover the ids `0..nr_vertices`. */
    ghost predicate Valid()
      reads this
    {
      nrVertices >= 0 && adj.Length == nrVertices + 1 && |dist| == nrVertices + 1 && |visited| == nrVertices + 1
    }

    /** Lines 65-69: the direction flag is kept and both results start at 0. */
    constructor (isBidirectional: bool)
      ensures isBidir == isBidirectional && longestPath == 0 && nrPaths == 0 && order == []
    {
      isBidir := isBidirectional;
      adj := new seq<int>[0];
      dist, visited, order := [], [], [];
      nrVertices, nrEdges := 0, 0;
      longestPath, nrPaths := 0, 0;
    }

    /**
     * Lines 32-48, `operator>>` with the numbers it scans as parameters:
     * fresh empty lists, `visited` all false, `dist` all 0, then every edge
     * connected in input order.
     */
    method Read(numV: nat, edges: seq<(int, int)>)
      requires forall i :: 0 <= i < |edges| ==> 1 <= edges[i].0 <= numV && 1 <= edges[i].1 <= numV
      modifies this
      ensures Valid() && fresh(adj) && nrVertices == numV && nrEdges == |edges|
      ensures adj[..] == EdgeLists(numV + 1, Connections(edges, isBidir)) && Within(adj[..], numV)
      ensures visited == seq(numV + 1, _ => false) && dist == seq(numV + 1, _ => 0)
      ensures order == old(order) && longestPath == old(longestPath) && nrPaths == old(nrPaths)
    {
      ReadWithin(numV, edges, isBidir);
      var lists := ReadLists(numV, edges, isBidir);
      nrVertices, nrEdges, adj := numV, |edges|, lists;
      visited := seq(numV + 1, _ => false);
      dist := seq(numV + 1, _ => 0);
    }

    /** Lines 106-123: one pass of the `while (!dfs.empty())` loop. */
    method Advance(dfs0: seq<int>, isLast0: seq<bool>, ghost a: AdjLists) returns (dfs: seq<int>, isLast: seq<bool>)
      requires Valid() && a == adj[..] && Shape(a, nrVertices, Walk(dfs0, isLast0, visited, order)) && dfs0 != []
      modifies this`visited, this`order
      ensures Valid()
      ensures Walk(dfs, isLast, visited, order) == Step(false, a, nrVertices, Walk(dfs0, isLast0, old(visited), old(order)))
    {
      var u := dfs0[|dfs0| - 1];
      var s := dfs0[..|dfs0| - 1];
      assert dfs0 == s + [u] && 1 <= u <= nrVertices;
      if isLast0[u] {
        StepClose(false, a, nrVertices, Walk(dfs0, isLast0, visited, order), s, u);
        order := order + [u];
        dfs, isLast := s, isLast0;
        return;
      }
      StepOpen(false, a, nrVertices, Walk(dfs0, isLast0, visited, order), s, u);
      visited := visited[u := true];
      dfs, isLast := PushTargets(adj[u], s + [u], isLast0[u := true], visited, order);
    }

    /** Lines 100-124: `src` is pushed if unvisited, then the stack is drained. */
    method Visit(src: int, isLast0: seq<bool>, ghost a: AdjLists) returns (isLast: seq<bool>)
      requires Valid() && a == adj[..] && Shape(a, nrVertices, Walk([], isLast0, visited, order)) && 1 <= src <= nrVertices
      modifies this`visited, this`order
      ensures Valid()
      ensures Walk([], isLast, visited, order) == Round(false, a, nrVertices, src, Walk([], isLast0, old(visited), old(order)))
    {
      ghost var goal := Round(false, a, nrVertices, src, Walk([], isLast0, visited, order));
      var dfs: seq<int> := [];
      isLast := isLast0;
      if !visited[src] {
        dfs := dfs + [src];
        isLast := isLast[src := false];
      }
      assert Walk(dfs, isLast, visited, order) == Start(false, src, Walk([], isLast0, visited, order));
      while dfs != []
        invariant Valid() && Shape(a, nrVertices, Walk(dfs, isLast, visited, order))
        invariant Drain(false, a, nrVertices, Walk(dfs, isLast, visited, order)) == goal
        decreases Unvisited(visited), |dfs|
      {
        dfs, isLast := Advance(dfs, isLast, a);
      }
    }

    /**
     * Lines 93-126: the search with a plain stack, from `visited` all false,
     * appends to `order` what the value-level search appends.
     */
    method DFS()
      requires Valid() && Within(adj[..], nrVertices) && AllIn(order, 1, nrVertices + 1)
      requires visited == seq(nrVertices + 1, _ => false)
      modifies this`visited, this`order
      ensures Valid()
      ensures visited == Search(false, adj[..], nrVertices, 1, Walk([], old(visited), old(visited), old(order))).visited
      ensures order == Search(false, adj[..], nrVertices, 1, Walk([], old(visited), old(visited), old(order))).order
    {
      var isLast := seq(nrVertices + 1, _ => false);
      assert isLast == visited;
      SearchAll(isLast, adj[..]);
    }

    /** Lines 97-125: every `src` in turn is visited, with `is_last` shared by the rounds. */
    method SearchAll(isLast0: seq<bool>, ghost a: AdjLists)
      requires Valid() && a == adj[..] && Shape(a, nrVertices, Walk([], isLast0, visited, order)) == true
      modifies this`visited, this`order
      ensures Valid()
      ensures visited == Search(false, a, nrVertices, 1, Walk([], isLast0, old(visited), old(order))).visited
      ensures order == Search(false, a, nrVertices, 1, Walk([], isLast0, old(visited), old(order))).order
    {
      ghost var goal := Search(false, a, nrVertices, 1, Walk([], isLast0, visited, order));
      var isLast := isLast0;
      for src := 1 to nrVertices + 1
        invariant Valid() && Shape(a, nrVertices, Walk([], isLast, visited, order)) == true
        invariant Search(false, a, nrVertices, src, Walk([], isLast, visited, order)) == goal
      {
        SearchNext(false, a, nrVertices, src, Walk([], isLast, visited, order));
        isLast := Visit(src, isLast, a);
      }
    }

    /**
     * Lines 79-91: `order` back to front, stopping before `order[0]`, each
     * vertex relaxing its targets.
     */
    method DP(rule: Rule)
      requires Valid() && Within(adj[..], nrVertices) && AllIn(order, 0, nrVertices + 1) && |order| >= 1
      modifies this`dist
      ensures AllIn(Skipped(order), 0, nrVertices + 1)
      ensures dist == Relax(rule, adj[..], nrVertices, Skipped(order), old(dist))
    {
      dist := RelaxBack(adj, adj[..], nrVertices, order, dist, rule);
    }
    /** Lines 133-136: `nr_paths` counts the zeros, `longest_path` folds `dist[u] + 1` in. */
    method Tally()
      requires Valid()
      modifies this`nrPaths, this`longestPath
      ensures nrPaths == old(nrPaths) + CountZero(dist, nrVertices)
      ensures longestPath == Peak(dist, nrVertices, old(longestPath))
    {
      for u := 1 to nrVertices + 1
        invariant nrPaths == old(nrPaths) + CountZero(dist, u - 1)
        invariant longestPath == Peak(dist, u - 1, old(longestPath))
      {
        if dist[u] == 0 {
          nrPaths := nrPaths + 1;
        }
        longestPath := if longestPath < dist[u] + 1 then dist[u] + 1 else longestPath;
      }
    }

    /**
     * Lines 128-137, from the state `operator>>` leaves: `DFS`, then `DP`,
     * then the counts folded into `nr_paths` and `longest_path`.
     */
    method TopologicalSort(rule: Rule)
      requires Valid() && Within(adj[..], nrVertices) && nrVertices >= 1 && order == []
      requires visited == seq(nrVertices + 1, _ => false) && dist == seq(nrVertices + 1, _ => 0)
      modifies this`visited, this`order, this`dist, this`nrPaths, this`longestPath
      ensures order == Dfs(false, adj[..], nrVertices).order
      ensures dist == ListDist(rule, adj[..], nrVertices, old(dist))
      ensures nrPaths == old(nrPaths) + CountZero(dist, nrVertices)
      ensures longestPath == Peak(dist, nrVertices, old(longestPath))
    {
      ghost var a, n, d0 := adj[..], nrVertices, dist;
      SearchFresh(a, n, visited);
      DFS();
      assert order == Dfs(false, a, n).order;
      OrderFilled(a, n);
      DP(rule);
      assert dist == ListDist(rule, a, n, d0);
      Tally();
    }
  }

  /**
   * Lines 139-154: a directed graph read from `numV` and `edges`, sorted,
   * and its two results: the number of sources, and the vertex count of a
   * real path that, with `Lift` over a topological order, no path exceeds.
   */
  method Solve(numV: nat, edges: seq<(int, int)>, rule: Rule) returns (nrPaths: int, longestPath: int)
    requires numV >= 1
    requires forall i :: 0 <= i < |edges| ==> 1 <= edges[i].0 <= numV && 1 <= edges[i].1 <= numV
    ensures var adj := EdgeLists(numV + 1, Connections(edges, false));
            && Within(adj, numV)
            && (exists p :: Path(adj, numV, p) && |p| == longestPath)
            && (adj[FirstDone(adj, numV)] == [] ==> nrPaths == Sources(adj, numV, numV))
            && (adj[FirstDone(adj, numV)] == [] && rule == Lift && Topological(adj, Reversed(Dfs(false, adj, numV).order), numV)
                ==> forall p :: Path(adj, numV, p) ==> |p| <= longestPath)
  {
    var g := new Graph(false);
    g.Read(numV, edges);
    g.TopologicalSort(rule);
    ListReports(rule, g.adj[..], numV, g.dist);
    nrPaths, longestPath := g.nrPaths, g.longestPath;
  }
}
