/**
 * The `DP` pass and the summary loop of `TopologicalSort` in
 * proj/2020-2021/p1 (proj.c lines 186-197 and 252-256, proj.cpp lines 79-91
 * and 133-136), on values.  Popped vertices are relaxed in turn: every arc
 * `u -> v` sets `dist[v] = dist[u] + 1`.
 *
 * The pass is meant to give each vertex the length of the longest path
 * ending at it, but it assigns instead of taking the maximum, so a later,
 * shorter arc overwrites a longer one (`AssignShortens`).  `Lift` is the
 * update with the maximum; over a topological order it yields the longest
 * path (`LiftLongest`).
 */
module PathDp {
  import opened Seqs
  import opened LinkedGraph
  import opened DfsWalk
  import opened KahnOrder

  /** The update along an arc: `Assign` is the code's, `Lift` keeps the larger value. */
  datatype Rule = Assign | Lift

  /** `dist[v]` after the arc `u -> v` is relaxed. */
  function Relaxed(rule: Rule, d: seq<int>, u: int, v: int): (r: seq<int>)
    requires 0 <= u < |d| && 0 <= v < |d|
    ensures |r| == |d| && forall x :: 0 <= x < |d| && x != v ==> r[x] == d[x]
    ensures rule == Assign ==> r[v] == d[u] + 1
    ensures rule == Lift ==> r[v] >= d[u] + 1 && r[v] >= d[v] && (r[v] == d[v] || r[v] == d[u] + 1)
  {
    d[v := if rule == Assign then d[u] + 1 else if d[v] < d[u] + 1 then d[u] + 1 else d[v]]
  }

  /** The loop over the targets `ts` of `u`. */
  ghost function RelaxFrom(rule: Rule, ts: seq<int>, u: int, d: seq<int>): (r: seq<int>)
    requires 0 <= u < |d| && AllIn(ts, 0, |d|)
    ensures |r| == |d|
    decreases |ts|
  {
    if ts == [] then d else RelaxFrom(rule, ts[1..], u, Relaxed(rule, d, u, ts[0]))
  }

  /** The loop over the popped vertices, first popped first. */
  ghost function Relax(rule: Rule, adj: AdjLists, n: int, pops: seq<int>, d: seq<int>): (r: seq<int>)
    requires Within(adj, n) && AllIn(pops, 0, n + 1) && |d| == n + 1
    ensures |r| == n + 1
    decreases |pops|
  {
    if pops == [] then d
    else
      assert AllIn(adj[pops[0]], 0, n + 1);
      Relax(rule, adj, n, pops[1..], RelaxFrom(rule, adj[pops[0]], pops[0], d))
  }

  /** `s` back to front: the order in which a stack holding `s` is popped. */
  function Reversed(s: seq<int>): (r: seq<int>)
    ensures |r| == |s| && forall i :: 0 <= i < |s| ==> r[i] == s[|s| - 1 - i]
  {
    if s == [] then [] else [s[|s| - 1]] + Reversed(s[..|s| - 1])
  }

  /** Popping a stack visits its contents back to front: the same vertices. */
  lemma ReversedIn(s: seq<int>, lo: int, hi: int)
    ensures Elems(Reversed(s)) == Elems(s)
    ensures AllIn(s, lo, hi) ==> AllIn(Reversed(s), lo, hi)
  {
    var r := Reversed(s);
    forall x | x in Elems(r) ensures x in Elems(s) {
      var i :| 0 <= i < |r| && r[i] == x;
      assert s[|s| - 1 - i] == x;
    }
    forall x | x in Elems(s) ensures x in Elems(r) {
      var i :| 0 <= i < |s| && s[i] == x;
      assert r[|s| - 1 - i] == x;
    }
  }

  /** Popping `u` off a stack holding `s + [u]` relaxes `u` first, then the rest. */
  lemma RelaxPop(rule: Rule, adj: AdjLists, n: int, s: seq<int>, u: int, d: seq<int>)
    requires Within(adj, n) && AllIn(s + [u], 0, n + 1) && |d| == n + 1
    ensures AllIn(s, 0, n + 1) && AllIn(adj[u], 0, n + 1)
    ensures Relax(rule, adj, n, Reversed(s + [u]), d) == Relax(rule, adj, n, Reversed(s), RelaxFrom(rule, adj[u], u, d))
  {
    assert (s + [u])[..|s|] == s && (s + [u])[|s|] == u;
    assert forall i :: 0 <= i < |s| ==> s[i] == (s + [u])[i];
    assert forall k :: 0 <= k < |adj[u]| ==> 1 <= adj[u][k] <= n;
  }

  /** A path: a nonempty walk along arcs between vertices of `1..n`. */
  ghost predicate Path(adj: AdjLists, n: int, p: seq<int>)
  {
    && |p| >= 1 && AllIn(p, 1, n + 1)
    && forall i :: 0 <= i < |p| - 1 ==> p[i] < |adj| && p[i + 1] in adj[p[i]]
  }

  /** Some path of `len` vertices ends at `v`. */
  ghost predicate Ends(adj: AdjLists, n: int, v: int, len: int)
  {
    exists p :: Path(adj, n, p) && p[|p| - 1] == v && |p| == len
  }

  /** Every `dist[v]` is one less than the number of vertices of some path ending at `v`. */
  ghost predicate Realised(adj: AdjLists, n: int, d: seq<int>)
  {
    && |d| == n + 1
    && forall v :: 1 <= v <= n ==> Ends(adj, n, v, d[v] + 1)
  }

  /** `calloc`: every `dist` starts at 0, realised by the one-vertex path. */
  lemma ZerosRealised(adj: AdjLists, n: nat, d: seq<int>)
    requires |d| == n + 1 && forall v :: 0 <= v <= n ==> d[v] == 0
    ensures Realised(adj, n, d)
  {
    forall v | 1 <= v <= n ensures Ends(adj, n, v, d[v] + 1) {
      OnePath(adj, n, v, d[v]);
    }
  }

  /** The one-vertex path `[v]` realises the value 0. */
  lemma OnePath(adj: AdjLists, n: int, v: int, x: int)
    requires 1 <= v <= n && x == 0
    ensures Ends(adj, n, v, x + 1)
  {
    assert Path(adj, n, [v]) && [v][0] == v;
  }

  /** Relaxing an arc keeps every value realised, whichever the rule. */
  lemma RelaxedRealised(rule: Rule, adj: AdjLists, n: int, d: seq<int>, u: int, v: int)
    requires Realised(adj, n, d) && 1 <= u <= n && 1 <= v <= n && u < |adj| && v in adj[u]
    ensures Realised(adj, n, Relaxed(rule, d, u, v))
  {
    var r := Relaxed(rule, d, u, v);
    forall x | 1 <= x <= n ensures Ends(adj, n, x, r[x] + 1) {
      if x != v || r[v] == d[v] {
        var p :| Path(adj, n, p) && p[|p| - 1] == x && |p| == d[x] + 1;
      } else {
        var p :| Path(adj, n, p) && p[|p| - 1] == u && |p| == d[u] + 1;
        PathSnoc(adj, n, p, v);
      }
    }
  }

  /** A path to `u` extends along an arc `u -> v`. */
  lemma PathSnoc(adj: AdjLists, n: int, p: seq<int>, v: int)
    requires Path(adj, n, p) && 1 <= v <= n && p[|p| - 1] < |adj| && v in adj[p[|p| - 1]]
    ensures Path(adj, n, p + [v]) && (p + [v])[|p|] == v
  {
    var q := p + [v];
    forall i | 0 <= i < |q| - 1 ensures q[i] < |adj| && q[i + 1] in adj[q[i]] {
      if i < |p| - 1 {
        assert q[i] == p[i] && q[i + 1] == p[i + 1];
      }
    }
  }

  /** The targets loop keeps every value realised. */
  lemma {:induction false} RelaxFromRealised(rule: Rule, adj: AdjLists, n: int, ts: seq<int>, u: int, d: seq<int>)
    requires Realised(adj, n, d) && 1 <= u <= n && u < |adj| && AllIn(ts, 1, n + 1)
    requires forall k :: 0 <= k < |ts| ==> ts[k] in adj[u]
    ensures Realised(adj, n, RelaxFrom(rule, ts, u, d))
    decreases |ts|
  {
    if ts != [] {
      RelaxedRealised(rule, adj, n, d, u, ts[0]);
      RelaxFromRealised(rule, adj, n, ts[1..], u, Relaxed(rule, d, u, ts[0]));
    }
  }

  /**
   * Whatever the order and the rule, each `dist[v]` the pass leaves is
   * realised by a path ending at `v`: the pass never overstates a length.
   */
  lemma {:induction false} RelaxRealised(rule: Rule, adj: AdjLists, n: int, pops: seq<int>, d: seq<int>)
    requires Within(adj, n) && AllIn(pops, 1, n + 1) && Realised(adj, n, d)
    ensures Realised(adj, n, Relax(rule, adj, n, pops, d))
    decreases |pops|
  {
    if pops != [] {
      var u := pops[0];
      assert AllIn(adj[u], 1, n + 1);
      RelaxFromRealised(rule, adj, n, adj[u], u, d);
      RelaxRealised(rule, adj, n, pops[1..], RelaxFrom(rule, adj[u], u, d));
    }
  }

  /** A vertex that is no target of the loop keeps its value. */
  lemma {:induction false} RelaxFromUntouched(rule: Rule, ts: seq<int>, u: int, d: seq<int>, w: int)
    requires 0 <= u < |d| && AllIn(ts, 0, |d|) && 0 <= w < |d| && w !in ts
    ensures RelaxFrom(rule, ts, u, d)[w] == d[w]
    decreases |ts|
  {
    if ts != [] {
      RelaxFromUntouched(rule, ts[1..], u, Relaxed(rule, d, u, ts[0]), w);
    }
  }

  /** A vertex that no popped vertex points to keeps its value. */
  lemma {:induction false} RelaxUntouched(rule: Rule, adj: AdjLists, n: int, pops: seq<int>, d: seq<int>, w: int)
    requires Within(adj, n) && AllIn(pops, 0, n + 1) && |d| == n + 1 && 0 <= w <= n
    requires forall k :: 0 <= k < |pops| ==> w !in adj[pops[k]]
    ensures Relax(rule, adj, n, pops, d)[w] == d[w]
    decreases |pops|
  {
    if pops != [] {
      assert AllIn(adj[pops[0]], 0, n + 1);
      RelaxFromUntouched(rule, adj[pops[0]], pops[0], d, w);
      RelaxUntouched(rule, adj, n, pops[1..], RelaxFrom(rule, adj[pops[0]], pops[0], d), w);
    }
  }

  /** With `Lift` no value ever drops. */
  lemma {:induction false} LiftFromGrows(ts: seq<int>, u: int, d: seq<int>)
    requires 0 <= u < |d| && AllIn(ts, 0, |d|)
    ensures forall x :: 0 <= x < |d| ==> RelaxFrom(Lift, ts, u, d)[x] >= d[x]
    decreases |ts|
  {
    if ts != [] {
      LiftFromGrows(ts[1..], u, Relaxed(Lift, d, u, ts[0]));
    }
  }

  lemma {:induction false} LiftGrows(adj: AdjLists, n: int, pops: seq<int>, d: seq<int>)
    requires Within(adj, n) && AllIn(pops, 0, n + 1) && |d| == n + 1
    ensures forall x :: 0 <= x <= n ==> Relax(Lift, adj, n, pops, d)[x] >= d[x]
    decreases |pops|
  {
    if pops != [] {
      assert AllIn(adj[pops[0]], 0, n + 1);
      LiftFromGrows(adj[pops[0]], pops[0], d);
      LiftGrows(adj, n, pops[1..], RelaxFrom(Lift, adj[pops[0]], pops[0], d));
    }
  }

  /** With `Lift`, once `u`'s targets are relaxed each holds at least `dist[u] + 1`. */
  lemma {:induction false} LiftFromReaches(ts: seq<int>, u: int, d: seq<int>, v: int)
    requires 0 <= u < |d| && AllIn(ts, 0, |d|) && u !in ts && v in ts
    ensures RelaxFrom(Lift, ts, u, d)[v] >= d[u] + 1
    decreases |ts|
  {
    var d' := Relaxed(Lift, d, u, ts[0]);
    if ts[0] == v {
      LiftFromGrows(ts[1..], u, d');
    } else {
      LiftFromReaches(ts[1..], u, d', v);
    }
  }

  /** The pass over `pops` is the pass over its first `k` vertices, then over the rest. */
  lemma {:induction false} RelaxSplit(rule: Rule, adj: AdjLists, n: int, pops: seq<int>, d: seq<int>, k: int)
    requires Within(adj, n) && AllIn(pops, 0, n + 1) && |d| == n + 1 && 0 <= k <= |pops|
    ensures Relax(rule, adj, n, pops, d) == Relax(rule, adj, n, pops[k..], Relax(rule, adj, n, pops[..k], d))
    decreases k
  {
    if k > 0 {
      assert AllIn(adj[pops[0]], 0, n + 1);
      var d1 := RelaxFrom(rule, adj[pops[0]], pops[0], d);
      RelaxSplit(rule, adj, n, pops[1..], d1, k - 1);
      assert pops[1..][k - 1..] == pops[k..] && pops[..k][1..] == pops[1..][..k - 1];
    }
  }

  /** In a topological order no vertex at or after position `i` points back to `pops[i]`. */
  lemma NoLaterSource(adj: AdjLists, n: int, pops: seq<int>, i: int)
    requires Within(adj, n) && Topological(adj, pops, n) && 0 <= i < |pops|
    ensures forall j :: 0 <= j < |pops[i..]| ==> pops[i] !in adj[pops[i..][j]]
  {
    forall j | 0 <= j < |pops[i..]| ensures pops[i] !in adj[pops[i..][j]] {
      assert pops[i..][j] == pops[i + j];
    }
  }

  /** A topological order holds every vertex of `1..n`. */
  lemma Position(adj: AdjLists, n: int, pops: seq<int>, w: int) returns (i: int)
    requires Topological(adj, pops, n) && 1 <= w <= n
    ensures 0 <= i < |pops| && pops[i] == w
  {
    DistinctFull(pops, 1, n + 1);
    RangeSize(1, n + 1);
    assert w in Elems(pops);
    i :| 0 <= i < |pops| && pops[i] == w;
  }

  /** A path of at least two vertices without its last vertex is a path. */
  lemma PathInit(adj: AdjLists, n: int, p: seq<int>)
    requires Path(adj, n, p) && |p| >= 2
    ensures Path(adj, n, p[..|p| - 1])
  {
    var q := p[..|p| - 1];
    forall i | 0 <= i < |q| - 1 ensures q[i] < |adj| && q[i + 1] in adj[q[i]] {
      assert q[i] == p[i] && q[i + 1] == p[i + 1];
    }
  }

  /**
   * With `Lift` over a topological order, starting from zeros, every path
   * ending at `v` has at most `dist[v] + 1` vertices.
   */
  lemma {:induction false} LiftPath(adj: AdjLists, n: int, pops: seq<int>, d: seq<int>, p: seq<int>)
    requires Within(adj, n) && Topological(adj, pops, n)
    requires d == Relax(Lift, adj, n, pops, seq(n + 1, _ => 0))
    requires Path(adj, n, p)
    ensures |p| <= d[p[|p| - 1]] + 1
    decreases |p|
  {
    var zeros := seq(n + 1, _ => 0);
    LiftGrows(adj, n, pops, zeros);
    if |p| >= 2 {
      var q := p[..|p| - 1];
      PathInit(adj, n, p);
      LiftPath(adj, n, pops, d, q);
      var w, v := q[|q| - 1], p[|p| - 1];
      assert w == p[|p| - 2];
      var i := Position(adj, n, pops, w);
      FinalOnceRelaxed(adj, n, pops, d, i);
      LiftAcross(adj, n, pops, d, i, v);
    }
  }

  /** Once `pops[i]` is popped nothing relaxes it again: its value is final. */
  lemma FinalOnceRelaxed(adj: AdjLists, n: int, pops: seq<int>, d: seq<int>, i: int)
    requires Within(adj, n) && Topological(adj, pops, n) && 0 <= i < |pops|
    requires d == Relax(Lift, adj, n, pops, seq(n + 1, _ => 0))
    ensures d[pops[i]] == Relax(Lift, adj, n, pops[..i], seq(n + 1, _ => 0))[pops[i]]
  {
    var zeros := seq(n + 1, _ => 0);
    RelaxSplit(Lift, adj, n, pops, zeros, i);
    NoLaterSource(adj, n, pops, i);
    RelaxUntouched(Lift, adj, n, pops[i..], Relax(Lift, adj, n, pops[..i], zeros), pops[i]);
  }

  /** Popping `w = pops[i]` lifts each target above `w`'s final value, and nothing later lowers it. */
  lemma LiftAcross(adj: AdjLists, n: int, pops: seq<int>, d: seq<int>, i: int, v: int)
    requires Within(adj, n) && Topological(adj, pops, n) && 0 <= i < |pops|
    requires d == Relax(Lift, adj, n, pops, seq(n + 1, _ => 0))
    requires v in adj[pops[i]]
    ensures d[v] >= Relax(Lift, adj, n, pops[..i], seq(n + 1, _ => 0))[pops[i]] + 1
  {
    var zeros := seq(n + 1, _ => 0);
    var w := pops[i];
    var before := Relax(Lift, adj, n, pops[..i], zeros);
    var after := Relax(Lift, adj, n, pops[..i + 1], zeros);
    NoLaterSource(adj, n, pops, i);
    assert pops[i..][0] == w;
    RelaxSplit(Lift, adj, n, pops[..i + 1], zeros, i);
    assert pops[..i + 1][..i] == pops[..i] && pops[..i + 1][i..] == [w];
    assert AllIn(adj[w], 0, n + 1);
    assert Relax(Lift, adj, n, [w], before) == RelaxFrom(Lift, adj[w], w, before);
    LiftFromReaches(adj[w], w, before, v);
    RelaxSplit(Lift, adj, n, pops, zeros, i + 1);
    LiftGrows(adj, n, pops[i + 1..], after);
  }

  /**
   * The corrected pass: `Lift` over a topological order gives each vertex
   * exactly the length of the longest path ending at it, realised by a path
   * and bounding every other one.
   */
  lemma LiftLongest(adj: AdjLists, n: nat, pops: seq<int>)
    requires Within(adj, n) && Topological(adj, pops, n)
    ensures Realised(adj, n, Relax(Lift, adj, n, pops, seq(n + 1, _ => 0)))
    ensures forall p :: Path(adj, n, p) ==> |p| <= Relax(Lift, adj, n, pops, seq(n + 1, _ => 0))[p[|p| - 1]] + 1
  {
    var d := Relax(Lift, adj, n, pops, seq(n + 1, _ => 0));
    ZerosRealised(adj, n, seq(n + 1, _ => 0));
    RelaxRealised(Lift, adj, n, pops, seq(n + 1, _ => 0));
    forall p | Path(adj, n, p) ensures |p| <= d[p[|p| - 1]] + 1 {
      LiftPath(adj, n, pops, d, p);
    }
  }

  /** No value is negative. */
  ghost predicate NonNegative(d: seq<int>)
  {
    forall x :: 0 <= x < |d| ==> d[x] >= 0
  }

  /**
   * From nonnegative values, the targets loop keeps them nonnegative, keeps
   * positive values positive and leaves every target it read positive.
   */
  lemma {:induction false} RelaxFromMarks(rule: Rule, ts: seq<int>, u: int, d: seq<int>)
    requires 0 <= u < |d| && AllIn(ts, 0, |d|) && NonNegative(d)
    ensures NonNegative(RelaxFrom(rule, ts, u, d))
    ensures forall x :: 0 <= x < |d| && d[x] >= 1 ==> RelaxFrom(rule, ts, u, d)[x] >= 1
    ensures forall x :: x in ts ==> RelaxFrom(rule, ts, u, d)[x] >= 1
    decreases |ts|
  {
    if ts != [] {
      RelaxFromMarks(rule, ts[1..], u, Relaxed(rule, d, u, ts[0]));
    }
  }

  /** The pass over `pops` leaves positive every target of a popped vertex, and only those lose their 0. */
  lemma {:induction false} RelaxMarks(rule: Rule, adj: AdjLists, n: int, pops: seq<int>, d: seq<int>)
    requires Within(adj, n) && AllIn(pops, 0, n + 1) && |d| == n + 1 && NonNegative(d)
    ensures NonNegative(Relax(rule, adj, n, pops, d))
    ensures forall x :: 0 <= x <= n && d[x] >= 1 ==> Relax(rule, adj, n, pops, d)[x] >= 1
    ensures forall k, x :: 0 <= k < |pops| && x in adj[pops[k]] ==> Relax(rule, adj, n, pops, d)[x] >= 1
    decreases |pops|
  {
    if pops != [] {
      assert AllIn(adj[pops[0]], 0, n + 1);
      var d1 := RelaxFrom(rule, adj[pops[0]], pops[0], d);
      RelaxFromMarks(rule, adj[pops[0]], pops[0], d);
      RelaxMarks(rule, adj, n, pops[1..], d1);
      forall k, x | 0 <= k < |pops| && x in adj[pops[k]] ensures Relax(rule, adj, n, pops, d)[x] >= 1 {
        if k > 0 {
          assert pops[k] == pops[1..][k - 1];
        }
      }
    }
  }

  /**
   * Whatever the rule and the order, starting from zeros `dist[v]` stays 0
   * exactly when no popped vertex has an arc into `v`.
   */
  lemma ZeroIffUnreached(rule: Rule, adj: AdjLists, n: nat, pops: seq<int>, v: int)
    requires Within(adj, n) && AllIn(pops, 0, n + 1) && 0 <= v <= n
    ensures Relax(rule, adj, n, pops, seq(n + 1, _ => 0))[v] == 0
      <==> forall k :: 0 <= k < |pops| ==> v !in adj[pops[k]]
  {
    var zeros := seq(n + 1, _ => 0);
    RelaxMarks(rule, adj, n, pops, zeros);
    if forall k :: 0 <= k < |pops| ==> v !in adj[pops[k]] {
      RelaxUntouched(rule, adj, n, pops, zeros, v);
    }
  }

  /** `v` is a source: no vertex of `1..n` has an arc into it. */
  ghost predicate Source(adj: AdjLists, n: int, v: int)
    requires |adj| == n + 1
  {
    forall u :: 1 <= u <= n ==> v !in adj[u]
  }

  /** The number of sources among `1..k`. */
  ghost function Sources(adj: AdjLists, n: int, k: int): (r: nat)
    requires |adj| == n + 1 && 0 <= k <= n
    ensures r <= k
  {
    if k == 0 then 0 else Sources(adj, n, k - 1) + (if Source(adj, n, k) then 1 else 0)
  }

  /** The number of vertices among `1..k` whose `dist` is 0: `nr_paths`. */
  function CountZero(d: seq<int>, k: int): (r: nat)
    requires 0 <= k < |d|
    ensures r <= k
  {
    if k == 0 then 0 else CountZero(d, k - 1) + (if d[k] == 0 then 1 else 0)
  }

  /** Two per-vertex tests that agree on `1..k` count alike. */
  lemma {:induction false} CountZeroSources(adj: AdjLists, n: int, d: seq<int>, k: int)
    requires |adj| == n + 1 && |d| == n + 1 && 0 <= k <= n
    requires forall v :: 1 <= v <= n ==> (d[v] == 0 <==> Source(adj, n, v))
    ensures CountZero(d, k) == Sources(adj, n, k)
  {
    if k > 0 {
      CountZeroSources(adj, n, d, k - 1);
    }
  }

  /** When `pops` holds every vertex of `1..n`, a source is a vertex no popped vertex points to. */
  lemma SourceIffUnreached(adj: AdjLists, n: nat, pops: seq<int>, v: int)
    requires |adj| == n + 1 && AllIn(pops, 1, n + 1) && Range(1, n + 1) <= Elems(pops)
    ensures Source(adj, n, v) <==> forall k :: 0 <= k < |pops| ==> v !in adj[pops[k]]
  {
    RangeSize(1, n + 1);
    if !Source(adj, n, v) {
      var u :| 1 <= u <= n && v in adj[u];
      assert u in Elems(pops);
    }
  }

  /**
   * When every vertex is popped, whatever the rule and the order, the
   * vertices left at 0 are exactly the sources, so `nr_paths` counts them.
   */
  lemma NrPathsCountsSources(rule: Rule, adj: AdjLists, n: nat, pops: seq<int>)
    requires Within(adj, n) && AllIn(pops, 1, n + 1) && Range(1, n + 1) <= Elems(pops)
    ensures CountZero(Relax(rule, adj, n, pops, seq(n + 1, _ => 0)), n) == Sources(adj, n, n)
  {
    var d := Relax(rule, adj, n, pops, seq(n + 1, _ => 0));
    forall v | 1 <= v <= n ensures d[v] == 0 <==> Source(adj, n, v) {
      ZeroIffUnreached(rule, adj, n, pops, v);
      SourceIffUnreached(adj, n, pops, v);
    }
    CountZeroSources(adj, n, d, n);
  }

  /** The largest `dist` among `1..k`, or 0: `longest_path` before its final increment. */
  function MaxDist(d: seq<int>, k: int): (r: int)
    requires 0 <= k < |d|
    ensures r >= 0 && forall v :: 1 <= v <= k ==> d[v] <= r
    ensures r == 0 || exists v :: 1 <= v <= k && d[v] == r
  {
    if k == 0 then 0 else if MaxDist(d, k - 1) < d[k] then d[k] else MaxDist(d, k - 1)
  }

  /**
   * Whatever the rule and the order, the length reported (`MaxDist + 1`
   * vertices) is that of a real path: the pass never reports a path that
   * does not exist.
   */
  lemma LongestRealised(rule: Rule, adj: AdjLists, n: nat, pops: seq<int>)
    requires Within(adj, n) && AllIn(pops, 1, n + 1) && n >= 1
    ensures exists p :: Path(adj, n, p) && |p| == MaxDist(Relax(rule, adj, n, pops, seq(n + 1, _ => 0)), n) + 1
  {
    var d := Relax(rule, adj, n, pops, seq(n + 1, _ => 0));
    ZerosRealised(adj, n, seq(n + 1, _ => 0));
    RelaxRealised(rule, adj, n, pops, seq(n + 1, _ => 0));
    var m := MaxDist(d, n);
    var v := if m == 0 then 1 else var x :| 1 <= x <= n && d[x] == m; x;
    if m == 0 {
      assert Path(adj, n, [1]);
    } else {
      var p :| Path(adj, n, p) && p[|p| - 1] == v && |p| == d[v] + 1;
    }
  }

  /**
   * The corrected pass over a topological order reports the length of a
   * longest path: one exists with `MaxDist + 1` vertices and none has more.
   */
  lemma LiftReportsLongest(adj: AdjLists, n: nat, pops: seq<int>)
    requires Within(adj, n) && Topological(adj, pops, n) && n >= 1
    ensures exists p :: Path(adj, n, p) && |p| == MaxDist(Relax(Lift, adj, n, pops, seq(n + 1, _ => 0)), n) + 1
    ensures forall p :: Path(adj, n, p) ==> |p| <= MaxDist(Relax(Lift, adj, n, pops, seq(n + 1, _ => 0)), n) + 1
  {
    LongestRealised(Lift, adj, n, pops);
    LiftLongest(adj, n, pops);
  }
}
