/**
 * The iterative depth-first search of `DFS` in proj/2020-2021/p1/src/proj.c
 * and of `Graph::DFS` in proj/2020-2021/p1/src/proj.cpp, as a function on
 * values.  A vertex popped unmarked is visited, pushed back marked
 * `is_last` and its unvisited targets are pushed above it; a vertex popped
 * marked is appended to `order`.
 *
 * The two programs differ only in their pushes: the C stack and the C
 * `order` are marker stacks whose push is a no-op on a held id
 * (`marked == true`), the C++ `std::stack` and `vector` push every time
 * (`marked == false`).
 */
module DfsWalk {
  import opened Seqs
  import opened LinkedGraph

  /** Lists for the vertices `0..n`, every target a vertex of `1..n`. */
  ghost predicate Within(adj: AdjLists, n: int)
  {
    && |adj| == n + 1
    && forall u, k :: 0 <= u <= n && 0 <= k < |adj[u]| ==> 1 <= adj[u][k] <= n
  }

  /** The state of the search: the `dfs` stack, `is_last`, `visited` and `order`. */
  datatype Walk = Walk(stack: seq<int>, last: seq<bool>, visited: seq<bool>, order: seq<int>)

  /** A push: a marker stack ignores an id it holds, a plain stack does not. */
  function Push(marked: bool, s: seq<int>, v: int): (r: seq<int>)
    ensures s <= r && v in r && |r| <= |s| + 1
    ensures forall x :: x in r ==> x in s || x == v
    ensures marked && Distinct(s) ==> Distinct(r)
  {
    if marked && v in s then s else s + [v]
  }

  /** The number of vertices not yet visited. */
  function Unvisited(vs: seq<bool>): (r: nat)
    ensures r <= |vs|
  {
    if vs == [] then 0 else (if vs[0] then 0 else 1) + Unvisited(vs[1..])
  }

  /** Visiting a new vertex lowers the count by one. */
  lemma {:induction false} UnvisitedMark(vs: seq<bool>, u: int)
    requires 0 <= u < |vs| && !vs[u]
    ensures Unvisited(vs[u := true]) == Unvisited(vs) - 1
  {
    if u > 0 {
      assert vs[u := true][1..] == vs[1..][u - 1 := true];
      UnvisitedMark(vs[1..], u - 1);
    }
  }

  /** Values drawn from two sequences in `[lo, hi)` are in `[lo, hi)`. */
  lemma InFrom(r: seq<int>, s: seq<int>, t: seq<int>, lo: int, hi: int)
    requires AllIn(s, lo, hi) && AllIn(t, lo, hi)
    requires forall x :: x in r ==> x in s || x in t
    ensures AllIn(r, lo, hi)
  {
    forall i | 0 <= i < |r| ensures lo <= r[i] < hi {
      assert r[i] in r;
    }
  }

  /** The shape every state of the search keeps; `is_last` always equals `visited`. */
  ghost predicate Shape(adj: AdjLists, n: int, w: Walk)
  {
    && Within(adj, n)
    && |w.visited| == n + 1 && w.last == w.visited
    && AllIn(w.stack, 1, n + 1) && AllIn(w.order, 1, n + 1)
  }

  /** The loop over `u`'s targets: each unvisited one is pushed and marked not last. */
  function Scan(marked: bool, ts: seq<int>, w: Walk): (r: Walk)
    requires |w.last| == |w.visited| && AllIn(ts, 0, |w.visited|)
    ensures r.visited == w.visited && r.order == w.order && |r.last| == |w.last|
    ensures w.stack <= r.stack && forall x :: x in r.stack ==> x in w.stack || x in ts
    ensures w.last == w.visited ==> r.last == r.visited
    ensures marked && Distinct(w.stack) ==> Distinct(r.stack)
    decreases |ts|
  {
    if ts == [] then w
    else
      var v := ts[0];
      var w' := if w.visited[v] then w else w.(stack := Push(marked, w.stack, v), last := w.last[v := false]);
      Scan(marked, ts[1..], w')
  }

  /** One pass of the `while (!Stack_IsEmpty(&dfs))` loop. */
  ghost function Step(marked: bool, adj: AdjLists, n: int, w: Walk): (r: Walk)
    requires Shape(adj, n, w) && w.stack != []
    ensures Shape(adj, n, r)
    ensures Unvisited(r.visited) < Unvisited(w.visited)
         || (Unvisited(r.visited) == Unvisited(w.visited) && |r.stack| < |w.stack|)
  {
    var u := w.stack[|w.stack| - 1];
    var s := w.stack[..|w.stack| - 1];
    if w.last[u] then
      w.(stack := s, order := Push(marked, w.order, u))
    else
      UnvisitedMark(w.visited, u);
      assert AllIn(adj[u], 1, n + 1);
      var r := Scan(marked, adj[u], Walk(Push(marked, s, u), w.last[u := true], w.visited[u := true], w.order));
      InFrom(r.stack, w.stack, adj[u], 1, n + 1);
      r
  }

  /** `Step` on a stack topped by `u` with `is_last` set. */
  lemma StepClose(marked: bool, adj: AdjLists, n: int, w: Walk, s: seq<int>, u: int)
    requires Shape(adj, n, w) && w.stack == s + [u] && 1 <= u <= n && w.last[u]
    ensures Step(marked, adj, n, w) == w.(stack := s, order := Push(marked, w.order, u))
  {
    assert w.stack[..|w.stack| - 1] == s;
  }

  /** `Step` on a stack topped by `u` with `is_last` clear. */
  lemma StepOpen(marked: bool, adj: AdjLists, n: int, w: Walk, s: seq<int>, u: int)
    requires Shape(adj, n, w) && w.stack == s + [u] && 1 <= u <= n && !w.last[u]
    ensures AllIn(adj[u], 0, n + 1)
    ensures Step(marked, adj, n, w)
         == Scan(marked, adj[u], Walk(Push(marked, s, u), w.last[u := true], w.visited[u := true], w.order))
  {
    assert w.stack[..|w.stack| - 1] == s;
    assert forall k :: 0 <= k < |adj[u]| ==> 1 <= adj[u][k] <= n;
  }

  /** The inner loop: steps until the stack is empty. */
  ghost function Drain(marked: bool, adj: AdjLists, n: int, w: Walk): (r: Walk)
    requires Shape(adj, n, w)
    ensures Shape(adj, n, r) && r.stack == []
    decreases Unvisited(w.visited), |w.stack|
  {
    if w.stack == [] then w else Drain(marked, adj, n, Step(marked, adj, n, w))
  }

  /** The head of the `for (src ...)` loop: an unvisited `src` is pushed, marked not last. */
  ghost function Start(marked: bool, src: int, w: Walk): (r: Walk)
    requires 0 <= src < |w.visited| == |w.last|
    ensures r.visited == w.visited && r.order == w.order
    ensures w.last == w.visited ==> r.last == r.visited
    ensures src in r.stack || w.visited[src]
    ensures forall x :: x in r.stack ==> x in w.stack || x == src
    ensures 1 <= src && AllIn(w.stack, 1, |w.visited|) ==> AllIn(r.stack, 1, |w.visited|)
  {
    if w.visited[src] then w
    else
      var s := Push(marked, w.stack, src);
      var r := w.(stack := s, last := w.last[src := false]);
      if 1 <= src && AllIn(w.stack, 1, |w.visited|) then InFrom(s, w.stack, [src], 1, |w.visited|); r else r
  }

  /** The `for (src = from; src <= nr_vertices; src++)` loop. */
  ghost function Search(marked: bool, adj: AdjLists, n: int, src: int, w: Walk): (r: Walk)
    requires Shape(adj, n, w) && 1 <= src
    ensures Shape(adj, n, r) && (w.stack == [] ==> r.stack == [])
    decreases n + 1 - src
  {
    if src > n then w else Search(marked, adj, n, src + 1, Round(marked, adj, n, src, w))
  }

  /** One pass of the outer loop: `src` is pushed if unvisited, then the stack is drained. */
  ghost function Round(marked: bool, adj: AdjLists, n: int, src: int, w: Walk): (r: Walk)
    requires Shape(adj, n, w) && 1 <= src <= n
    ensures Shape(adj, n, r) && r.stack == []
  {
    Drain(marked, adj, n, Start(marked, src, w))
  }

  /** The search from nothing visited, `is_last` cleared and empty stacks. */
  ghost function Dfs(marked: bool, adj: AdjLists, n: nat): (r: Walk)
    requires Within(adj, n)
    ensures Shape(adj, n, r)
  {
    Search(marked, adj, n, 1, Walk([], seq(n + 1, _ => false), seq(n + 1, _ => false), []))
  }

  /**
   * What the search keeps besides its shape: a visited vertex is in `order`
   * or still on the stack, a vertex in `order` is visited, and with marker
   * stacks neither `order` nor the stack holds a vertex twice.
   */
  ghost predicate Covered(marked: bool, n: int, w: Walk)
  {
    && |w.visited| == n + 1
    && (forall v :: 1 <= v <= n && w.visited[v] ==> v in w.order || v in w.stack)
    && (forall v :: v in w.order ==> 0 <= v <= n && w.visited[v])
    && (marked ==> Distinct(w.order) && Distinct(w.stack))
  }

  /** A step keeps `Covered`, never unvisits, and visits whatever leaves the stack. */
  lemma StepCovered(marked: bool, adj: AdjLists, n: int, w: Walk)
    requires Shape(adj, n, w) && w.stack != [] && Covered(marked, n, w)
    ensures Covered(marked, n, Step(marked, adj, n, w))
    ensures forall v :: 0 <= v <= n && w.visited[v] ==> Step(marked, adj, n, w).visited[v]
    ensures forall x :: x in w.stack ==> x in Step(marked, adj, n, w).stack || Step(marked, adj, n, w).visited[x]
  {
    var u := w.stack[|w.stack| - 1];
    var s := w.stack[..|w.stack| - 1];
    assert w.stack == s + [u];
    if w.last[u] {
      FinishCovered(marked, n, w, s, u);
    } else {
      var w' := Walk(Push(marked, s, u), w.last[u := true], w.visited[u := true], w.order);
      VisitCovered(marked, n, w, s, u);
      assert Step(marked, adj, n, w) == Scan(marked, adj[u], w');
    }
  }

  /** A vertex popped marked `is_last` moves to `order`. */
  lemma FinishCovered(marked: bool, n: int, w: Walk, s: seq<int>, u: int)
    requires Covered(marked, n, w) && w.stack == s + [u] && 0 <= u <= n && w.visited[u]
    ensures Covered(marked, n, w.(stack := s, order := Push(marked, w.order, u)))
    ensures forall x :: x in w.stack ==> x in s || x == u
  {
    if marked {
      assert forall i :: 0 <= i < |s| ==> s[i] == w.stack[i];
    }
  }

  /** A vertex popped unmarked is visited and pushed back. */
  lemma VisitCovered(marked: bool, n: int, w: Walk, s: seq<int>, u: int)
    requires Covered(marked, n, w) && w.stack == s + [u] && 0 <= u <= n && |w.last| == n + 1
    ensures Covered(marked, n, Walk(Push(marked, s, u), w.last[u := true], w.visited[u := true], w.order))
    ensures forall x :: x in w.stack ==> x in Push(marked, s, u)
  {
    if marked {
      assert forall i :: 0 <= i < |s| ==> s[i] == w.stack[i];
    }
  }

  /** The inner loop keeps `Covered` and visits every vertex on the stack. */
  lemma {:induction false} DrainCovered(marked: bool, adj: AdjLists, n: int, w: Walk)
    requires Shape(adj, n, w) && Covered(marked, n, w)
    ensures Covered(marked, n, Drain(marked, adj, n, w))
    ensures forall v :: 0 <= v <= n && w.visited[v] ==> Drain(marked, adj, n, w).visited[v]
    ensures forall x :: x in w.stack ==> Drain(marked, adj, n, w).visited[x]
    decreases Unvisited(w.visited), |w.stack|
  {
    if w.stack != [] {
      var w' := Step(marked, adj, n, w);
      StepCovered(marked, adj, n, w);
      DrainCovered(marked, adj, n, w');
      forall x | x in w.stack ensures Drain(marked, adj, n, w).visited[x] {
        assert 0 <= x <= n;
        if x !in w'.stack {
          assert w'.visited[x];
        }
      }
    }
  }

  /** The push of `src` onto the empty stack keeps `Covered`. */
  lemma StartCovered(marked: bool, adj: AdjLists, n: int, src: int, w: Walk)
    requires Shape(adj, n, w) && Covered(marked, n, w) && w.stack == [] && 1 <= src <= n
    ensures Shape(adj, n, Start(marked, src, w)) && Covered(marked, n, Start(marked, src, w))
    ensures Start(marked, src, w).stack == [] || Start(marked, src, w).stack == [src]
  {
  }

  /** The outer loop from `src` visits every vertex and keeps `Covered`. */
  lemma {:induction false} SearchCovered(marked: bool, adj: AdjLists, n: int, src: int, w: Walk, r: Walk)
    requires Shape(adj, n, w) && Covered(marked, n, w) && w.stack == [] && 1 <= src <= n + 1
    requires forall v :: 1 <= v < src ==> w.visited[v]
    requires r == Search(marked, adj, n, src, w)
    ensures Covered(marked, n, r) && forall v :: 1 <= v <= n ==> r.visited[v]
    decreases n + 1 - src
  {
    if src <= n {
      var w' := Round(marked, adj, n, src, w);
      RoundCovered(marked, adj, n, src, w);
      assert r == Search(marked, adj, n, src + 1, w');
      SearchCovered(marked, adj, n, src + 1, w', r);
    } else {
      assert r == w;
    }
  }

  /** A pass of the outer loop keeps `Covered` and leaves `1..src` visited. */
  lemma RoundCovered(marked: bool, adj: AdjLists, n: int, src: int, w: Walk)
    requires Shape(adj, n, w) && Covered(marked, n, w) && w.stack == [] && 1 <= src <= n
    requires forall v :: 1 <= v < src ==> w.visited[v]
    ensures Covered(marked, n, Round(marked, adj, n, src, w))
    ensures forall v :: 1 <= v <= src ==> Round(marked, adj, n, src, w).visited[v]
  {
    var w' := Start(marked, src, w);
    StartCovered(marked, adj, n, src, w);
    DrainCovered(marked, adj, n, w');
    var w'' := Drain(marked, adj, n, w');
    forall v | 1 <= v <= src ensures w''.visited[v] {
      if v < src {
        assert w'.visited[v];
      } else if !w.visited[src] {
        assert src in w'.stack;
      }
    }
  }

  /**
   * After the search every vertex `1..n` is visited and in `order`, and
   * `order` holds nothing else; with marker stacks (proj.c) it holds each
   * vertex exactly once, so it is a permutation of `1..n`.
   */
  lemma DfsCovers(marked: bool, adj: AdjLists, n: nat)
    requires Within(adj, n)
    ensures forall v :: 1 <= v <= n ==> Dfs(marked, adj, n).visited[v]
    ensures Elems(Dfs(marked, adj, n).order) == Range(1, n + 1)
    ensures marked ==> Distinct(Dfs(marked, adj, n).order) && |Dfs(marked, adj, n).order| == n
  {
    SearchCovered(marked, adj, n, 1, Walk([], seq(n + 1, _ => false), seq(n + 1, _ => false), []), Dfs(marked, adj, n));
    CoveredDone(marked, n, Dfs(marked, adj, n));
  }

  /** A covered state with an empty stack and every vertex visited lists each vertex in `order`. */
  lemma CoveredDone(marked: bool, n: int, w: Walk)
    requires Covered(marked, n, w) && w.stack == [] && 0 <= n
    requires forall v :: 1 <= v <= n ==> w.visited[v]
    requires AllIn(w.order, 1, n + 1)
    ensures Elems(w.order) == Range(1, n + 1)
    ensures marked ==> |w.order| == n
  {
    RangeSize(1, n + 1);
    forall v | v in Range(1, n + 1) ensures v in Elems(w.order) {
      assert v in w.order;
    }
    forall v | v in Elems(w.order) ensures v in Range(1, n + 1) {
      var i :| 0 <= i < |w.order| && w.order[i] == v;
    }
    if marked {
      DistinctElems(w.order);
    }
  }

  /** Once every vertex from `src` on is visited, the rest of the outer loop changes nothing. */
  lemma {:induction false} SearchVisited(marked: bool, adj: AdjLists, n: int, src: int, w: Walk)
    requires Shape(adj, n, w) && w.stack == [] && 1 <= src
    requires forall v :: src <= v <= n ==> w.visited[v]
    ensures Search(marked, adj, n, src, w) == w
    decreases n + 1 - src
  {
    if src <= n {
      assert Round(marked, adj, n, src, w) == w;
      SearchVisited(marked, adj, n, src + 1, w);
    }
  }

  /** One pass of the outer loop. */
  lemma SearchNext(marked: bool, adj: AdjLists, n: int, src: int, w: Walk)
    requires Shape(adj, n, w) && 1 <= src <= n
    ensures Search(marked, adj, n, src, w) == Search(marked, adj, n, src + 1, Round(marked, adj, n, src, w))
  {
  }
}
