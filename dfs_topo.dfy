/**
 * The search `DFS` of proj/2020-2021/p1/src/proj.c as its authors evidently
 * meant it: `dfs` is a plain stack, so a vertex already waiting on it is
 * pushed again above its new parent, while `order` stays a marker stack, so
 * a vertex finished once is listed once.  As written, `dfs` is a marker
 * stack too and a second push of a waiting vertex is dropped, which lists
 * the DAG `1 -> 2, 1 -> 3, 3 -> 2, 2 -> 4` out of order
 * (`DfsTraces.OrderNotTopological`).
 *
 * The corrected search lists the vertices of every acyclic graph so that
 * popping `order` gives a topological order (`FixedTopological`), and the
 * corrected pass over it reports a longest path (`FixedReportsLongest`).
 */
module DfsTopo {
  import opened Seqs
  import opened LinkedGraph
  import opened DfsWalk
  import opened KahnOrder
  import opened PathDp
  import Reachability

  /** No arc `x -> y` closes a cycle: `y` never reaches back to `x`. */
  ghost predicate Acyclic(adj: AdjLists)
  {
    forall x, y :: 0 <= x < |adj| && y in adj[x] ==> !Reachability.Reach(adj, y, x)
  }

  /**
   * One pass of the `while` loop with a plain `dfs` stack: a vertex popped
   * `is_last` is pushed on the marker stack `order`; otherwise it is
   * visited, pushed back (the stack is as before the pop) and its
   * unvisited targets are pushed above it.
   */
  ghost function FixedStep(adj: AdjLists, n: int, w: Walk): (r: Walk)
    requires Shape(adj, n, w) && w.stack != []
    ensures Shape(adj, n, r)
    ensures Unvisited(r.visited) < Unvisited(w.visited)
         || (Unvisited(r.visited) == Unvisited(w.visited) && |r.stack| < |w.stack|)
  {
    var u := w.stack[|w.stack| - 1];
    if w.last[u] then
      w.(stack := w.stack[..|w.stack| - 1], order := Push(true, w.order, u))
    else
      UnvisitedMark(w.visited, u);
      assert AllIn(adj[u], 1, n + 1);
      var s := w.stack[..|w.stack| - 1];
      assert Push(false, s, u) == w.stack;
      var r := Scan(false, adj[u], Walk(Push(false, s, u), w.last[u := true], w.visited[u := true], w.order));
      InFrom(r.stack, w.stack, adj[u], 1, n + 1);
      r
  }

  /** The inner loop of the corrected search. */
  ghost function FixedDrain(adj: AdjLists, n: int, w: Walk): (r: Walk)
    requires Shape(adj, n, w)
    ensures Shape(adj, n, r) && r.stack == []
    decreases Unvisited(w.visited), |w.stack|
  {
    if w.stack == [] then w else FixedDrain(adj, n, FixedStep(adj, n, w))
  }

  /** One pass of the outer loop: `src` is pushed if unvisited, then the stack is drained. */
  ghost function FixedRound(adj: AdjLists, n: int, src: int, w: Walk): (r: Walk)
    requires Shape(adj, n, w) && 1 <= src <= n
    ensures Shape(adj, n, r) && r.stack == []
  {
    FixedDrain(adj, n, Start(false, src, w))
  }

  /** The `for (src ...)` loop of the corrected search. */
  ghost function FixedSearch(adj: AdjLists, n: int, src: int, w: Walk): (r: Walk)
    requires Shape(adj, n, w) && 1 <= src
    ensures Shape(adj, n, r) && (w.stack == [] ==> r.stack == [])
    decreases n + 1 - src
  {
    if src > n then w else FixedSearch(adj, n, src + 1, FixedRound(adj, n, src, w))
  }

  /** The corrected search from nothing visited and empty stacks. */
  ghost function FixedDfs(adj: AdjLists, n: nat): (r: Walk)
    requires Within(adj, n)
    ensures Shape(adj, n, r)
  {
    FixedSearch(adj, n, 1, Walk([], seq(n + 1, _ => false), seq(n + 1, _ => false), []))
  }

  /** A vertex visited and not yet listed: its search is under way. */
  ghost predicate Gray(w: Walk, x: int)
  {
    0 <= x < |w.visited| && w.visited[x] && x !in w.order
  }

  /** `order` lists distinct visited vertices, each after all of its targets. */
  ghost predicate Listed(adj: AdjLists, w: Walk)
  {
    && Distinct(w.order)
    && (forall k :: 0 <= k < |w.order| ==> 0 <= w.order[k] < |w.visited| && w.visited[w.order[k]])
    && (forall k, y :: 0 <= k < |w.order| && 0 <= w.order[k] < |adj| && y in adj[w.order[k]] ==> y in w.order[..k])
  }

  /** Every visited vertex is listed or still on the stack. */
  ghost predicate Kept(n: int, w: Walk)
  {
    forall v :: 1 <= v <= n && v < |w.visited| && w.visited[v] ==> v in w.order || v in w.stack
  }

  /** A vertex under way on the stack has each target listed or above it. */
  ghost predicate Above(adj: AdjLists, w: Walk)
  {
    forall i, y :: 0 <= i < |w.stack| && Gray(w, w.stack[i]) && 0 <= w.stack[i] < |adj| && y in adj[w.stack[i]] ==>
      y in w.order || y in w.stack[i + 1..]
  }

  /** From the topmost entry of a vertex under way every entry above it is reachable. */
  ghost predicate Chained(adj: AdjLists, w: Walk)
  {
    forall i, j :: 0 <= i < j < |w.stack| && Gray(w, w.stack[i]) && w.stack[i] !in w.stack[i + 1..] ==>
      Reachability.Reach(adj, w.stack[i], w.stack[j])
  }

  /** What the corrected search keeps on an acyclic graph. */
  ghost predicate Sound(adj: AdjLists, n: int, w: Walk)
  {
    Shape(adj, n, w) && Listed(adj, w) && Kept(n, w) && Above(adj, w) && Chained(adj, w)
  }

  /** The entries above position `i` of `a + b`. */
  lemma SliceJoin(a: seq<int>, b: seq<int>, i: int)
    requires 0 <= i < |a|
    ensures (a + b)[i + 1..] == a[i + 1..] + b
  {
  }

  /** Each entry `Scan` pushes on a plain stack is a target not yet visited. */
  lemma {:induction false} ScanFresh(ts: seq<int>, w: Walk)
    requires |w.last| == |w.visited| && AllIn(ts, 0, |w.visited|)
    ensures forall k :: |w.stack| <= k < |Scan(false, ts, w).stack| ==>
              Scan(false, ts, w).stack[k] in ts && !w.visited[Scan(false, ts, w).stack[k]]
    decreases |ts|
  {
    if ts != [] {
      var v := ts[0];
      var w' := if w.visited[v] then w else w.(stack := w.stack + [v], last := w.last[v := false]);
      assert Scan(false, ts, w) == Scan(false, ts[1..], w');
      ScanFresh(ts[1..], w');
      var r := Scan(false, ts, w);
      forall k | |w.stack| <= k < |r.stack| ensures r.stack[k] in ts && !w.visited[r.stack[k]] {
        if k < |w'.stack| {
          assert w'.stack <= r.stack;
          assert r.stack[k] == w'.stack[k];
        } else {
          assert r.stack[k] in ts[1..];
        }
      }
    }
  }

  /** `Scan` on a plain stack pushes every target not yet visited. */
  lemma {:induction false} ScanAll(ts: seq<int>, w: Walk)
    requires |w.last| == |w.visited| && AllIn(ts, 0, |w.visited|)
    ensures forall y :: y in ts && !w.visited[y] ==>
              exists k :: |w.stack| <= k < |Scan(false, ts, w).stack| && Scan(false, ts, w).stack[k] == y
    decreases |ts|
  {
    if ts != [] {
      var v := ts[0];
      var w' := if w.visited[v] then w else w.(stack := w.stack + [v], last := w.last[v := false]);
      assert Scan(false, ts, w) == Scan(false, ts[1..], w');
      ScanAll(ts[1..], w');
      var r := Scan(false, ts, w);
      forall y | y in ts && !w.visited[y] ensures exists k :: |w.stack| <= k < |r.stack| && r.stack[k] == y {
        if y == v {
          assert w'.stack <= r.stack;
          assert r.stack[|w.stack|] == v;
        } else {
          assert y in ts[1..];
        }
      }
    }
  }

  /** The topmost entry of `y` in a stack holding it. */
  lemma LastEntry(s: seq<int>, y: int) returns (i: int)
    requires y in s
    ensures 0 <= i < |s| && s[i] == y && y !in s[i + 1..]
  {
    i := |s| - 1;
    while s[i] != y
      invariant 0 <= i < |s| && y !in s[i + 1..] && y in s[..i + 1]
      decreases i
    {
      assert s[i..] == [s[i]] + s[i + 1..];
      assert s[..i + 1] == s[..i] + [s[i]];
      i := i - 1;
    }
  }

  /** A visited target `y` of the vertex atop the stack is listed or reaches it. */
  lemma GrayReaches(adj: AdjLists, n: int, w: Walk, u: int, y: int)
    requires Shape(adj, n, w) && Kept(n, w) && Chained(adj, w)
    requires w.stack != [] && u == w.stack[|w.stack| - 1] && !w.visited[u] && 1 <= y <= n && w.visited[y]
    ensures y in w.order || Reachability.Reach(adj, y, u)
  {
    if y !in w.order {
      var i := LastEntry(w.stack, y);
      assert i < |w.stack| - 1;
      assert Gray(w, w.stack[i]);
    }
  }

  /**
   * On an acyclic graph no target of an unvisited vertex atop the stack is
   * under way: it would reach back to its parent.
   */
  lemma NoBackArc(adj: AdjLists, n: int, w: Walk, u: int, y: int)
    requires Shape(adj, n, w) && Kept(n, w) && Chained(adj, w) && Acyclic(adj)
    requires w.stack != [] && u == w.stack[|w.stack| - 1] && !w.visited[u] && y in adj[u] && w.visited[y]
    ensures y in w.order
  {
    assert 1 <= u <= n && 1 <= y <= n;
    GrayReaches(adj, n, w, u, y);
  }

  /** Popping a listed or finished vertex `u` keeps `Kept`. */
  lemma FinishKept(n: int, w: Walk, r: Walk, s: seq<int>, u: int)
    requires Kept(n, w) && w.stack == s + [u] && r.stack == s && r.visited == w.visited
    requires (forall y :: y in w.order ==> y in r.order) && u in r.order
    ensures Kept(n, r)
  {
  }

  /** Popping a listed or finished vertex `u` keeps `Above`. */
  lemma FinishAbove(adj: AdjLists, w: Walk, r: Walk, s: seq<int>, u: int)
    requires Above(adj, w) && w.stack == s + [u] && r.stack == s && r.visited == w.visited
    requires (forall y :: y in w.order ==> y in r.order) && u in r.order
    ensures Above(adj, r)
  {
    forall i, y | 0 <= i < |s| && Gray(r, s[i]) && 0 <= s[i] < |adj| && y in adj[s[i]] ensures y in r.order || y in s[i + 1..] {
      SliceJoin(s, [u], i);
      assert w.stack[i] == s[i] && Gray(w, w.stack[i]);
      assert y in w.order || y in s[i + 1..] + [u];
    }
  }

  /** Popping a listed or finished vertex `u` keeps `Chained`. */
  lemma FinishChained(adj: AdjLists, w: Walk, r: Walk, s: seq<int>, u: int)
    requires Chained(adj, w) && w.stack == s + [u] && r.stack == s && r.visited == w.visited
    requires (forall y :: y in w.order ==> y in r.order) && u in r.order
    ensures Chained(adj, r)
  {
    forall i, j | 0 <= i < j < |s| && Gray(r, s[i]) && s[i] !in s[i + 1..] ensures Reachability.Reach(adj, s[i], s[j]) {
      SliceJoin(s, [u], i);
      assert w.stack[i] == s[i] && w.stack[j] == s[j] && Gray(w, w.stack[i]);
      assert w.stack[i] !in w.stack[i + 1..];
    }
  }

  /** Listing `u` once all its targets are listed keeps `Listed`. */
  lemma FinishListed(adj: AdjLists, w: Walk, r: Walk, u: int)
    requires Listed(adj, w) && 0 <= u < |w.visited| && w.visited[u]
    requires u in w.order || forall y :: 0 <= u < |adj| && y in adj[u] ==> y in w.order
    requires r.visited == w.visited && r.order == Push(true, w.order, u)
    ensures Listed(adj, r)
  {
    if u !in w.order {
      assert r.order == w.order + [u];
      forall k, y | 0 <= k < |r.order| && 0 <= r.order[k] < |adj| && y in adj[r.order[k]] ensures y in r.order[..k] {
        if k < |w.order| {
          assert r.order[..k] == w.order[..k];
        } else {
          assert r.order[..k] == w.order;
        }
      }
    }
  }

  /** A vertex popped `is_last` (listed already or now) leaves the invariant intact. */
  lemma FinishSound(adj: AdjLists, n: int, w: Walk)
    requires Sound(adj, n, w) && w.stack != [] && w.last[w.stack[|w.stack| - 1]]
    ensures Sound(adj, n, FixedStep(adj, n, w))
    ensures w.stack == FixedStep(adj, n, w).stack + [w.stack[|w.stack| - 1]]
    ensures FixedStep(adj, n, w).visited == w.visited
  {
    var t := |w.stack| - 1;
    var u := w.stack[t];
    var s := w.stack[..t];
    var r := FixedStep(adj, n, w);
    assert r == w.(stack := s, order := Push(true, w.order, u));
    assert w.stack == s + [u];
    if u !in w.order {
      forall y | 0 <= u < |adj| && y in adj[u] ensures y in w.order {
        assert Gray(w, w.stack[t]);
        assert w.stack[t + 1..] == [];
      }
    }
    FinishListed(adj, w, r, u);
    assert forall y :: y in w.order ==> y in r.order;
    FinishKept(n, w, r, s, u);
    FinishAbove(adj, w, r, s, u);
    FinishChained(adj, w, r, s, u);
  }

  /** `e` holds targets of `u` that are still unvisited in `r`. */
  ghost predicate Fresh(adj: AdjLists, r: Walk, e: seq<int>, u: int)
  {
    0 <= u < |adj| && forall x :: x in e ==> x in adj[u] && 0 <= x < |r.visited| && !r.visited[x]
  }

  /** Visiting `u` atop the stack and pushing `e` keeps `Above`, given each target listed or in `e`. */
  lemma OpenAbove(adj: AdjLists, w: Walk, r: Walk, e: seq<int>, u: int)
    requires Above(adj, w) && w.stack != [] && u == w.stack[|w.stack| - 1] && 0 <= u < |w.visited|
    requires r.stack == w.stack + e && r.order == w.order && r.visited == w.visited[u := true]
    requires Fresh(adj, r, e, u) && forall y :: y in adj[u] ==> y in w.order || y in e
    ensures Above(adj, r)
  {
    forall i, y | 0 <= i < |r.stack| && Gray(r, r.stack[i]) && 0 <= r.stack[i] < |adj| && y in adj[r.stack[i]]
      ensures y in r.order || y in r.stack[i + 1..]
    {
      if i >= |w.stack| {
        assert false;
      }
      SliceJoin(w.stack, e, i);
      assert r.stack[i] == w.stack[i];
      if w.stack[i] == u {
        assert y in w.order || y in e;
      } else {
        assert Gray(w, w.stack[i]);
        assert y in w.order || y in w.stack[i + 1..];
      }
    }
  }

  /** Visiting `u` atop the stack and pushing targets `e` of `u` keeps `Chained`. */
  lemma OpenChained(adj: AdjLists, w: Walk, r: Walk, e: seq<int>, u: int)
    requires Chained(adj, w) && w.stack != [] && u == w.stack[|w.stack| - 1] && 0 <= u < |w.visited| && !w.visited[u]
    requires r.stack == w.stack + e && r.order == w.order && r.visited == w.visited[u := true]
    requires Fresh(adj, r, e, u)
    ensures Chained(adj, r)
  {
    var t := |w.stack| - 1;
    forall i, j | 0 <= i < j < |r.stack| && Gray(r, r.stack[i]) && r.stack[i] !in r.stack[i + 1..]
      ensures Reachability.Reach(adj, r.stack[i], r.stack[j])
    {
      if i >= |w.stack| {
        assert false;
      }
      SliceJoin(w.stack, e, i);
      if w.stack[i] == u {
        assert i == t;
        assert r.stack[j] == e[j - |w.stack|];
        Reachability.ReachArc(adj, u, r.stack[j]);
      } else {
        assert Gray(w, w.stack[i]) && w.stack[i] !in w.stack[i + 1..];
        if j >= |w.stack| {
          assert i < t;
          assert Reachability.Reach(adj, w.stack[i], w.stack[t]);
          assert r.stack[j] == e[j - |w.stack|];
          Reachability.ReachThenArc(adj, w.stack[i], u, r.stack[j]);
        } else {
          assert r.stack[j] == w.stack[j];
        }
      }
    }
  }

  /** A visit of the unvisited `u` atop the stack: the scan of its targets from `u` marked. */
  lemma OpenStep(adj: AdjLists, n: int, w: Walk)
    requires Shape(adj, n, w) && w.stack != [] && !w.last[w.stack[|w.stack| - 1]]
    ensures AllIn(adj[w.stack[|w.stack| - 1]], 0, n + 1)
    ensures FixedStep(adj, n, w) == Scan(false, adj[w.stack[|w.stack| - 1]],
              Walk(w.stack, w.last[w.stack[|w.stack| - 1] := true], w.visited[w.stack[|w.stack| - 1] := true], w.order))
  {
    var t := |w.stack| - 1;
    assert Push(false, w.stack[..t], w.stack[t]) == w.stack;
    assert forall k :: 0 <= k < |adj[w.stack[t]]| ==> 1 <= adj[w.stack[t]][k] <= n;
  }

  /** What the scan of `u`'s targets does once `u` is marked: fresh targets pushed, nothing else. */
  lemma OpenShape(adj: AdjLists, w: Walk, u: int, r: Walk) returns (e: seq<int>)
    requires |w.last| == |w.visited| && 0 <= u < |w.visited| && 0 <= u < |adj| && AllIn(adj[u], 0, |w.visited|)
    requires r == Scan(false, adj[u], Walk(w.stack, w.last[u := true], w.visited[u := true], w.order))
    ensures r.stack == w.stack + e && r.order == w.order && r.visited == w.visited[u := true]
    ensures Fresh(adj, r, e, u)
    ensures forall y :: y in adj[u] && !w.visited[y] && y != u ==> y in e
  {
    var w1 := Walk(w.stack, w.last[u := true], w.visited[u := true], w.order);
    ScanFresh(adj[u], w1);
    ScanAll(adj[u], w1);
    e := r.stack[|w.stack|..];
    assert r.stack == w.stack + e;
    forall x | x in e ensures x in adj[u] && 0 <= x < |r.visited| && !r.visited[x] {
      var k :| 0 <= k < |e| && e[k] == x;
      assert x == r.stack[|w.stack| + k];
    }
    forall y | y in adj[u] && !w.visited[y] && y != u ensures y in e {
      var k :| |w.stack| <= k < |r.stack| && r.stack[k] == y;
      assert e[k - |w.stack|] == y;
    }
  }

  /** A visit keeps `Listed` and `Kept`: `order` is unchanged and `u` stays on the stack. */
  lemma OpenKept(adj: AdjLists, n: int, w: Walk, r: Walk, e: seq<int>, u: int)
    requires Listed(adj, w) && Kept(n, w) && w.stack != [] && u == w.stack[|w.stack| - 1] && 0 <= u < |w.visited|
    requires r.stack == w.stack + e && r.order == w.order && r.visited == w.visited[u := true]
    ensures Listed(adj, r) && Kept(n, r)
  {
    assert u in r.stack;
  }

  /** A vertex popped unvisited: it is visited and its unvisited targets are pushed above it. */
  lemma OpenSound(adj: AdjLists, n: int, w: Walk)
    requires Sound(adj, n, w) && Acyclic(adj) && w.stack != [] && !w.last[w.stack[|w.stack| - 1]]
    ensures Sound(adj, n, FixedStep(adj, n, w))
    ensures FixedStep(adj, n, w).stack[..|w.stack|] == w.stack
    ensures FixedStep(adj, n, w).visited == w.visited[w.stack[|w.stack| - 1] := true]
  {
    var u := w.stack[|w.stack| - 1];
    var r := FixedStep(adj, n, w);
    OpenStep(adj, n, w);
    var e := OpenShape(adj, w, u, r);
    forall y | y in adj[u] ensures y in w.order || y in e {
      if y == u {
        Reachability.ReachRefl(adj, u);
        assert false;
      } else if w.visited[y] {
        NoBackArc(adj, n, w, u, y);
      }
    }
    OpenKept(adj, n, w, r, e, u);
    OpenAbove(adj, w, r, e, u);
    OpenChained(adj, w, r, e, u);
  }

  /** A step keeps `Sound`, never unvisits, and visits whatever leaves the stack. */
  lemma StepSound(adj: AdjLists, n: int, w: Walk)
    requires Sound(adj, n, w) && Acyclic(adj) && w.stack != []
    ensures Sound(adj, n, FixedStep(adj, n, w))
    ensures forall v :: 0 <= v <= n && w.visited[v] ==> FixedStep(adj, n, w).visited[v]
    ensures forall x :: x in w.stack ==> x in FixedStep(adj, n, w).stack || FixedStep(adj, n, w).visited[x]
  {
    var u := w.stack[|w.stack| - 1];
    var r := FixedStep(adj, n, w);
    if w.last[u] {
      FinishSound(adj, n, w);
    } else {
      OpenSound(adj, n, w);
      forall x | x in w.stack ensures x in r.stack {
        var i :| 0 <= i < |w.stack| && w.stack[i] == x;
        assert r.stack[i] == x;
      }
    }
  }

  /** The inner loop keeps `Sound` and visits every vertex on the stack. */
  lemma {:induction false} DrainSound(adj: AdjLists, n: int, w: Walk)
    requires Sound(adj, n, w) && Acyclic(adj)
    ensures Sound(adj, n, FixedDrain(adj, n, w))
    ensures forall v :: 0 <= v <= n && w.visited[v] ==> FixedDrain(adj, n, w).visited[v]
    ensures forall x :: x in w.stack ==> FixedDrain(adj, n, w).visited[x]
    decreases Unvisited(w.visited), |w.stack|
  {
    if w.stack != [] {
      var w' := FixedStep(adj, n, w);
      StepSound(adj, n, w);
      DrainSound(adj, n, w');
      assert FixedDrain(adj, n, w) == FixedDrain(adj, n, w');
      forall x | x in w.stack ensures FixedDrain(adj, n, w).visited[x] {
        assert 0 <= x <= n;
        if x !in w'.stack {
          assert w'.visited[x];
        }
      }
    }
  }

  /** Pushing an unvisited `src` on the empty stack keeps `Sound`. */
  lemma StartSound(adj: AdjLists, n: int, src: int, w: Walk)
    requires Sound(adj, n, w) && w.stack == [] && 1 <= src <= n
    ensures Sound(adj, n, Start(false, src, w))
    ensures Start(false, src, w).visited == w.visited
    ensures w.visited[src] || src in Start(false, src, w).stack
  {
    var w' := Start(false, src, w);
    if !w.visited[src] {
      assert w' == w.(stack := [src], last := w.last[src := false]);
      assert !Gray(w', w'.stack[0]);
    }
  }

  /** A pass of the outer loop keeps `Sound` and leaves `1..src` visited. */
  lemma RoundSound(adj: AdjLists, n: int, src: int, w: Walk)
    requires Sound(adj, n, w) && Acyclic(adj) && w.stack == [] && 1 <= src <= n
    requires forall v :: 1 <= v < src ==> w.visited[v]
    ensures Sound(adj, n, FixedRound(adj, n, src, w))
    ensures forall v :: 1 <= v <= src ==> FixedRound(adj, n, src, w).visited[v]
  {
    var w' := Start(false, src, w);
    StartSound(adj, n, src, w);
    DrainSound(adj, n, w');
    assert FixedRound(adj, n, src, w) == FixedDrain(adj, n, w');
  }

  /** The outer loop from `src` keeps `Sound` and visits every vertex. */
  lemma {:induction false} SearchSound(adj: AdjLists, n: int, src: int, w: Walk, r: Walk)
    requires Sound(adj, n, w) && Acyclic(adj) && w.stack == [] && 1 <= src <= n + 1
    requires forall v :: 1 <= v < src ==> w.visited[v]
    requires r == FixedSearch(adj, n, src, w)
    ensures Sound(adj, n, r) && r.stack == [] && forall v :: 1 <= v <= n ==> r.visited[v]
    decreases n + 1 - src
  {
    if src <= n {
      var w' := FixedRound(adj, n, src, w);
      RoundSound(adj, n, src, w);
      assert r == FixedSearch(adj, n, src + 1, w');
      SearchSound(adj, n, src + 1, w', r);
    } else {
      assert r == w;
    }
  }

  /** The position of `v` in `t`. */
  ghost function Pos(t: seq<int>, v: int): (i: int)
    requires v in t
    ensures 0 <= i < |t| && t[i] == v
  {
    var i :| 0 <= i < |t| && t[i] == v; i
  }

  /** In a sequence without repeats a value sits at one position. */
  lemma PosUnique(t: seq<int>, i: int)
    requires Distinct(t) && 0 <= i < |t|
    ensures Pos(t, t[i]) == i
  {
  }

  /** Popping a stack without repeats gives a sequence without repeats. */
  lemma ReversedDistinct(o: seq<int>)
    requires Distinct(o)
    ensures Distinct(Reversed(o))
  {
    var t, m := Reversed(o), |o|;
    forall i, j | 0 <= i < j < m ensures t[i] != t[j] {
      assert t[i] == o[m - 1 - i] && t[j] == o[m - 1 - j];
    }
  }

  /** In `t`, `o` back to front, an entry `o[k]` listed after `o[q] == t[i]` comes before `t[i]`. */
  lemma BackBefore(o: seq<int>, t: seq<int>, i: int, k: int, q: int)
    requires |t| == |o| && forall j :: 0 <= j < |t| ==> t[j] == o[|o| - 1 - j]
    requires Distinct(o) && 0 <= i < |o| && 0 <= q < k < |o| && o[q] == t[i]
    ensures o[k] in t[..i]
  {
    var m := |o|;
    assert o[q] == o[m - 1 - i];
    assert t[..i][m - 1 - k] == o[k];
  }

  /** A stack listing every vertex of `1..n`, each after its targets, pops a topological order. */
  lemma PopsTopological(adj: AdjLists, n: nat, o: seq<int>)
    requires Within(adj, n) && adj[0] == []
    requires Distinct(o) && AllIn(o, 1, n + 1) && forall v :: 1 <= v <= n ==> v in o
    requires forall k, y :: 0 <= k < |o| && 0 <= o[k] < |adj| && y in adj[o[k]] ==> y in o[..k]
    ensures Topological(adj, Reversed(o), n)
  {
    var t := Reversed(o);
    DistinctFullRange(o, n);
    ReversedDistinct(o);
    ReversedIn(o, 1, n + 1);
    forall i, x | 0 <= i < |t| && 0 <= x <= n && x < |adj| && t[i] in adj[x] ensures x in t[..i] {
      assert x != 0 && x in o;
      var k :| 0 <= k < |o| && o[k] == x;
      assert t[i] in o[..k];
      var q :| 0 <= q < k && o[..k][q] == t[i];
      assert o[q] == t[i];
      BackBefore(o, t, i, k, q);
    }
  }

  /** A sequence without repeats holding every vertex of `1..n`, and only those, has length `n`. */
  lemma DistinctFullRange(o: seq<int>, n: nat)
    requires Distinct(o) && AllIn(o, 1, n + 1) && forall v :: 1 <= v <= n ==> v in o
    ensures |o| == n
  {
    RangeSize(1, n + 1);
    forall x | x in Elems(o) ensures x in Range(1, n + 1) {
      var i :| 0 <= i < |o| && o[i] == x;
    }
    forall x | x in Range(1, n + 1) ensures x in Elems(o) {
      assert x in o;
    }
    assert Elems(o) == Range(1, n + 1);
    DistinctElems(o);
  }

  /** The final state lists every vertex in an order `PopsTopological` accepts. */
  lemma DoneListed(adj: AdjLists, n: nat, r: Walk)
    requires Sound(adj, n, r) && r.stack == [] && forall v :: 1 <= v <= n ==> r.visited[v]
    ensures Distinct(r.order) && AllIn(r.order, 1, n + 1) && forall v :: 1 <= v <= n ==> v in r.order
    ensures forall k, y :: 0 <= k < |r.order| && 0 <= r.order[k] < |adj| && y in adj[r.order[k]] ==> y in r.order[..k]
  {
  }

  /**
   * On every acyclic graph the corrected search lists each vertex once and
   * popping `order` gives a topological order.
   */
  lemma FixedTopological(adj: AdjLists, n: nat)
    requires Within(adj, n) && Acyclic(adj) && adj[0] == []
    ensures Topological(adj, Reversed(FixedDfs(adj, n).order), n)
  {
    var w0 := Walk([], seq(n + 1, _ => false), seq(n + 1, _ => false), []);
    var r := FixedDfs(adj, n);
    assert Sound(adj, n, w0);
    SearchSound(adj, n, 1, w0, r);
    DoneListed(adj, n, r);
    PopsTopological(adj, n, r.order);
  }

  /**
   * The corrected search followed by the corrected pass reports, on every
   * nonempty acyclic graph, the vertex count of a longest path.
   */
  lemma FixedReportsLongest(adj: AdjLists, n: nat)
    requires Within(adj, n) && Acyclic(adj) && adj[0] == [] && n >= 1
    ensures AllIn(Reversed(FixedDfs(adj, n).order), 1, n + 1)
    ensures (exists p :: Path(adj, n, p)
              && |p| == MaxDist(Relax(Lift, adj, n, Reversed(FixedDfs(adj, n).order), seq(n + 1, _ => 0)), n) + 1)
    ensures (forall p :: Path(adj, n, p)
              ==> |p| <= MaxDist(Relax(Lift, adj, n, Reversed(FixedDfs(adj, n).order), seq(n + 1, _ => 0)), n) + 1)
  {
    FixedTopological(adj, n);
    LiftReportsLongest(adj, n, Reversed(FixedDfs(adj, n).order));
  }

  /** Along a walk a topological order only moves forward. */
  lemma {:induction false} WalkForward(adj: AdjLists, n: nat, t: seq<int>, p: seq<int>)
    requires Within(adj, n) && Topological(adj, t, n) && Reachability.Walk(adj, p) && p[0] in t
    ensures p[|p| - 1] in t && Pos(t, p[0]) <= Pos(t, p[|p| - 1])
  {
    DistinctFull(t, 1, n + 1);
    RangeSize(1, n + 1);
    var k := 0;
    while k < |p| - 1
      invariant 0 <= k <= |p| - 1 && p[k] in t && Pos(t, p[0]) <= Pos(t, p[k])
    {
      var a, b := p[k], p[k + 1];
      assert 0 <= a <= n && b in adj[a];
      assert b in Elems(t);
      assert a in t[..Pos(t, b)];
      var j :| 0 <= j < Pos(t, b) && t[j] == a;
      PosUnique(t, j);
      k := k + 1;
    }
  }

  /** A graph with a topological order has no cycle. */
  lemma TopologicalAcyclic(adj: AdjLists, n: nat, t: seq<int>)
    requires Within(adj, n) && Topological(adj, t, n)
    ensures Acyclic(adj)
  {
    DistinctFull(t, 1, n + 1);
    RangeSize(1, n + 1);
    forall x, y | 0 <= x < |adj| && y in adj[x] ensures !Reachability.Reach(adj, y, x) {
      assert 1 <= y <= n && y in Elems(t);
      if Reachability.Reach(adj, y, x) {
        var p :| Reachability.Walk(adj, p) && p[0] == y && p[|p| - 1] == x;
        WalkForward(adj, n, t, p);
        assert false;
      }
    }
  }
}
