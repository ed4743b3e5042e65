/**
 * What the strongly-connected-components search knows about reachability,
 * over the sequences its buffers hold: the invariants that make the heads
 * it assigns exactly the mutual-reachability classes.
 */
module SearchReach {
  import opened Seqs
  import opened SearchState
  import opened Reachability

  /** The vertices assigned to a component: discovered and no longer stacked. */
  ghost function Popped(disc: seq<int>, marks: seq<bool>, n: int): set<int>
  {
    set x | 1 <= x <= n && x < |disc| && x < |marks| && disc[x] != 0 && !marks[x]
  }

  /** Each stacked vertex reaches every vertex stacked after it. */
  ghost predicate StackReach(adj: seq<seq<int>>, stack: seq<int>)
  {
    forall i, j :: 0 <= i < j < |stack| ==> Reach(adj, stack[i], stack[j])
  }

  /** No arc leaves the set `inside`. */
  ghost predicate Closed(adj: seq<seq<int>>, inside: set<int>)
  {
    forall a, b :: a in inside && 0 <= a < |adj| && b in adj[a] ==> b in inside
  }

  /**
   * The search's invariant about reachability: the stack is ordered by
   * reachability, no arc leaves the assigned vertices, and two assigned
   * vertices share a head exactly when they reach each other.
   */
  ghost predicate Tracked(adj: seq<seq<int>>, n: int, disc: seq<int>, stack: seq<int>, marks: seq<bool>, head: seq<int>)
  {
    |head| == n + 1 && StackReach(adj, stack) && Closed(adj, Popped(disc, marks, n)) &&
    forall x, y :: x in Popped(disc, marks, n) && y in Popped(disc, marks, n) ==>
      (head[x] == head[y] <==> Mutual(adj, x, y))
  }

  /** Every vertex stacked from position `a` on reaches `u`. */
  ghost predicate ReachesFrom(adj: seq<seq<int>>, stack: seq<int>, a: int, u: int)
  {
    forall k :: 0 <= k && a <= k < |stack| ==> Reach(adj, stack[k], u)
  }

  /**
   * Every target in `t` is discovered, and it is either assigned already
   * or stacked with a discovery number of at least `lo`.
   */
  ghost predicate Settled(n: int, disc: seq<int>, marks: seq<bool>, lo: int, t: seq<int>)
  {
    |disc| == n + 1 && |marks| == n + 1 &&
    forall z :: z in t ==> 0 <= z <= n && disc[z] != 0 && (!marks[z] || lo <= disc[z])
  }

  /** The targets of every vertex stacked from position `a` on are `Settled`. */
  ghost predicate SettledFrom(adj: seq<seq<int>>, n: int, disc: seq<int>, stack: seq<int>, marks: seq<bool>, lo: int, a: int)
  {
    forall k :: 0 <= k && a <= k < |stack| ==> 0 <= stack[k] < |adj| && Settled(n, disc, marks, lo, adj[stack[k]])
  }

  /**
   * The state inside the loop over the targets of `u`, stacked at position
   * `p`, before its `i`-th target: the vertices stacked from `u` on reach
   * `u`, the targets of those above it and the first `i` targets of `u`
   * are settled against `lo`, the low link of `u`, and `lo` is the
   * discovery number of a vertex stacked at `w`, no higher than `u`, that
   * `u` reaches.
   */
  ghost predicate Exploring(adj: seq<seq<int>>, n: int, disc: seq<int>, stack: seq<int>, marks: seq<bool>,
                            lo: int, p: int, u: int, i: int, w: int)
  {
    0 <= p < |stack| && stack[p] == u && 0 <= u <= n && 0 <= u < |adj| && 0 <= i <= |adj[u]| && |disc| == n + 1 &&
    0 <= w <= p && 0 <= stack[w] <= n && disc[stack[w]] == lo && Reach(adj, u, stack[w]) &&
    ReachesFrom(adj, stack, p, u) && SettledFrom(adj, n, disc, stack, marks, lo, p + 1) &&
    Settled(n, disc, marks, lo, adj[u][..i])
  }

  /**
   * The state after the visit of `u`, begun with `p` vertices stacked:
   * either `u` was popped with its component, and its low link `lo` is its
   * discovery number, or `u` is still at position `p`, the vertices from
   * it on reach it and have settled targets, and `lo` is the smaller
   * discovery number of a vertex stacked below, at `w`, that `u` reaches.
   */
  ghost predicate Hanging(adj: seq<seq<int>>, n: int, disc: seq<int>, stack: seq<int>, marks: seq<bool>,
                          lo: int, p: int, u: int, w: int)
  {
    0 <= p <= |stack| && 0 <= u <= n && |disc| == n + 1 && lo <= disc[u] &&
    ReachesFrom(adj, stack, p, u) && SettledFrom(adj, n, disc, stack, marks, lo, p) &&
    (p == |stack| ==> lo == disc[u]) &&
    (p < |stack| ==> stack[p] == u && lo < disc[u] && 0 <= w < p && 0 <= stack[w] <= n &&
                     disc[stack[w]] == lo && Reach(adj, u, stack[w]))
  }

  /** A new search tracks trivially: nothing is stacked or assigned. */
  lemma StartTracked(adj: seq<seq<int>>, disc: seq<int>, marks: seq<bool>, head: seq<int>, n: int)
    requires |disc| == n + 1 && |head| == n + 1
    requires forall x :: 0 <= x <= n ==> disc[x] == 0
    ensures Tracked(adj, n, disc, [], marks, head)
  {
    assert Popped(disc, marks, n) == {};
  }

  /**
   * Discovering and pushing `u`, which every stacked vertex reaches, keeps
   * the invariant: the assigned vertices are the same.
   */
  lemma DiscoverKeepsTracked(adj: seq<seq<int>>, n: int, d: seq<int>, s: seq<int>, m: seq<bool>, h: seq<int>, u: int, t: int)
    requires Tracked(adj, n, d, s, m, h) && |d| == n + 1 && |m| == n + 1
    requires 1 <= u <= n && d[u] == 0 && t != 0 && ReachesFrom(adj, s, 0, u)
    ensures Tracked(adj, n, d[u := t], s + [u], m[u := true], h)
  {
    assert Popped(d[u := t], m[u := true], n) == Popped(d, m, n);
    var s' := s + [u];
    forall i, j | 0 <= i < j < |s'| ensures Reach(adj, s'[i], s'[j]) {
      if j < |s| {
        assert s'[i] == s[i] && s'[j] == s[j];
      }
    }
  }

  /** The vertices every stacked vertex reaches include the targets of a reached vertex. */
  lemma ReachesTarget(adj: seq<seq<int>>, n: int, d: seq<int>, s: seq<int>, m: seq<bool>,
                      lo: int, p: int, u: int, i: int, w: int, v: int)
    requires Exploring(adj, n, d, s, m, lo, p, u, i, w) && StackReach(adj, s) && v in adj[u]
    ensures ReachesFrom(adj, s, 0, v)
  {
    forall k | 0 <= k < |s| ensures Reach(adj, s[k], v) {
      if k < p {
        assert Reach(adj, s[k], s[p]);
      }
      ReachThenArc(adj, s[k], u, v);
    }
  }

  /** Right after `u` is discovered and pushed at position `p`, before its first target. */
  lemma StartExploring(adj: seq<seq<int>>, n: int, d: seq<int>, s: seq<int>, m: seq<bool>, p: int, u: int)
    requires 0 <= p && |s| == p + 1 && s[p] == u && 1 <= u <= n && |d| == n + 1 && |m| == n + 1 && Wellformed(adj, n)
    ensures Exploring(adj, n, d, s, m, d[u], p, u, 0, p)
  {
    ReachRefl(adj, u);
  }

  /** A lower bound `lo` that settles `t` settles it for any smaller bound. */
  lemma SettledLower(n: int, d: seq<int>, m: seq<bool>, lo: int, lo': int, t: seq<int>)
    requires Settled(n, d, m, lo, t) && lo' <= lo
    ensures Settled(n, d, m, lo', t)
  {
  }

  /** Settling the first `i + 1` targets of `u` is settling the first `i` and then `adj[u][i]`. */
  lemma SettledNext(n: int, d: seq<int>, m: seq<bool>, lo: int, t: seq<int>, i: int)
    requires 0 <= i < |t| && Settled(n, d, m, lo, t[..i])
    requires 0 <= t[i] <= n && d[t[i]] != 0 && (!m[t[i]] || lo <= d[t[i]])
    ensures Settled(n, d, m, lo, t[..i + 1])
  {
    assert t[..i + 1] == t[..i] + [t[i]];
  }

  /**
   * A target `v` of `u` that is stacked at position `j` lowers the low link
   * to at most its discovery number, and the target is settled.
   */
  lemma StackedTarget(adj: seq<seq<int>>, n: int, d: seq<int>, s: seq<int>, m: seq<bool>, time: int,
                      lo: int, p: int, u: int, i: int, w: int, j: int, lo': int) returns (w': int)
    requires Exploring(adj, n, d, s, m, lo, p, u, i, w) && Numbered(d, s, time, n) && |m| == n + 1
    requires i < |adj[u]| && 0 <= j < |s| && s[j] == adj[u][i] && m[s[j]] && lo <= d[u]
    requires lo' == if lo > d[s[j]] then d[s[j]] else lo
    ensures Exploring(adj, n, d, s, m, lo', p, u, i + 1, w')
  {
    var v := s[j];
    ReachArc(adj, u, v);
    if lo > d[v] {
      w' := j;
    } else {
      w' := w;
    }
    forall k | p + 1 <= k < |s| ensures 0 <= s[k] < |adj| && Settled(n, d, m, lo', adj[s[k]]) {
      SettledLower(n, d, m, lo, lo', adj[s[k]]);
    }
    SettledLower(n, d, m, lo, lo', adj[u][..i]);
    SettledNext(n, d, m, lo', adj[u], i);
  }

  /** A target of `u` that is assigned already changes nothing but settles. */
  lemma AssignedTarget(adj: seq<seq<int>>, n: int, d: seq<int>, s: seq<int>, m: seq<bool>,
                       lo: int, p: int, u: int, i: int, w: int)
    requires Exploring(adj, n, d, s, m, lo, p, u, i, w) && |m| == n + 1 && i < |adj[u]|
    requires 0 <= adj[u][i] <= n && d[adj[u][i]] != 0 && !m[adj[u][i]]
    ensures Exploring(adj, n, d, s, m, lo, p, u, i + 1, w)
  {
    SettledNext(n, d, m, lo, adj[u], i);
  }

  /**
   * After the loop over the targets of `u`, when `lo` is below `disc[u]`:
   * `u` stays stacked over a vertex it reaches with that number.
   */
  lemma Remains(adj: seq<seq<int>>, n: int, d: seq<int>, s: seq<int>, m: seq<bool>, lo: int, p: int, u: int, w: int)
    requires 0 <= u < |adj| && Exploring(adj, n, d, s, m, lo, p, u, |adj[u]|, w) && 1 <= u <= n && lo < d[u]
    ensures Hanging(adj, n, d, s, m, lo, p, u, w)
  {
    assert adj[u][..|adj[u]|] == adj[u];
  }

  /**
   * After the loop over the targets of `u`, when `lo` is `disc[u]`: the
   * vertices from `u` on reach `u` and have targets settled against
   * `disc[u]`, as popping them as one component needs.
   */
  lemma Closing(adj: seq<seq<int>>, n: int, d: seq<int>, s: seq<int>, m: seq<bool>, lo: int, p: int, u: int, w: int)
    requires 0 <= u < |adj| && Exploring(adj, n, d, s, m, lo, p, u, |adj[u]|, w) && lo == d[u]
    ensures ReachesFrom(adj, s, p, s[p]) && SettledFrom(adj, n, d, s, m, d[s[p]], p)
  {
    assert adj[u][..|adj[u]|] == adj[u];
  }

  /** Once `u` is popped with its component, the visit ends with nothing above position `p`. */
  lemma PoppedVisit(adj: seq<seq<int>>, n: int, d: seq<int>, s: seq<int>, m: seq<bool>, lo: int, p: int, u: int, w: int)
    requires |s| == p && 0 <= u <= n && |d| == n + 1 && lo == d[u]
    ensures Hanging(adj, n, d, s, m, lo, p, u, w)
  {
  }

  /** Popping `s[p..]` adds exactly those vertices to the assigned ones. */
  lemma PoppedAfter(d: seq<int>, s: seq<int>, m0: seq<bool>, m1: seq<bool>, p: int, n: int, time: int)
    requires Numbered(d, s, time, n) && Distinct(s) && 0 <= p <= |s|
    requires |m0| == n + 1 && MarksMatch(m0, s) && |m1| == n + 1 && MarksMatch(m1, s[..p])
    ensures Popped(d, m1, n) == Popped(d, m0, n) + Elems(s[p..])
  {
    forall x | x in Elems(s[p..]) ensures x in Popped(d, m1, n) {
      var k :| 0 <= k < |s[p..]| && s[p..][k] == x;
      assert s[p + k] == x;
    }
    forall x | x in Popped(d, m1, n) ensures x in Popped(d, m0, n) + Elems(s[p..]) {
      if m0[x] {
        var k :| 0 <= k < |s| && s[k] == x;
        assert s[p..][k - p] == x;
      }
    }
  }

  /**
   * The popped vertices have settled targets against the discovery number
   * of the bottom one, so their targets are assigned or popped with them.
   */
  lemma PopClosed(adj: seq<seq<int>>, n: int, d: seq<int>, s: seq<int>, m0: seq<bool>, p: int, time: int, inside: set<int>)
    requires Wellformed(adj, n) && Numbered(d, s, time, n) && 0 <= p < |s|
    requires |m0| == n + 1 && MarksMatch(m0, s) && Closed(adj, Popped(d, m0, n))
    requires SettledFrom(adj, n, d, s, m0, d[s[p]], p)
    requires inside == Popped(d, m0, n) + Elems(s[p..])
    ensures Closed(adj, inside)
  {
    forall a, b | a in inside && 0 <= a < |adj| && b in adj[a] ensures b in inside {
      if a !in Popped(d, m0, n) {
        var k :| 0 <= k < |s[p..]| && s[p..][k] == a;
        assert s[p + k] == a;
        assert Settled(n, d, m0, d[s[p]], adj[s[p + k]]);
        if m0[b] {
          var j :| 0 <= j < |s| && s[j] == b;
          assert s[p..][j - p] == b;
        }
      }
    }
  }

  /**
   * Giving the popped vertices, which all reach each other, the new head
   * `root` keeps heads equal exactly on mutually reaching assigned pairs:
   * no assigned vertex reaches a popped one, and `root`, still stacked
   * before the pop, heads no earlier component.
   */
  lemma PopHeads(adj: seq<seq<int>>, n: int, d: seq<int>, s: seq<int>, m0: seq<bool>, h0: seq<int>, h1: seq<int>,
                 p: int, root: int, time: int, inside: set<int>)
    requires Numbered(d, s, time, n) && Assigned(d, m0, h0, n) && 0 <= p < |s| && MarksMatch(m0, s)
    requires Tracked(adj, n, d, s, m0, h0) && ReachesFrom(adj, s, p, s[p])
    requires |h1| == n + 1 && root in s[p..] && forall x :: 0 <= x <= n ==> h1[x] == if x in s[p..] then root else h0[x]
    requires inside == Popped(d, m0, n) + Elems(s[p..])
    ensures forall x, y :: x in inside && y in inside ==> (h1[x] == h1[y] <==> Mutual(adj, x, y))
  {
    var old_ := Popped(d, m0, n);
    assert root in s;
    forall x | x in Elems(s[p..]) ensures Reach(adj, x, s[p]) && Reach(adj, s[p], x) && x !in old_ {
      var k :| 0 <= k < |s[p..]| && s[p..][k] == x;
      assert s[p + k] == x;
      if k > 0 {
        assert Reach(adj, s[p], s[p + k]);
      } else {
        ReachRefl(adj, x);
      }
    }
    forall x, y | x in Elems(s[p..]) && y in old_ ensures h1[x] != h1[y] && !Reach(adj, y, x) {
      assert h0[h0[y]] == h0[y] && h0[root] == 0;
      if Reach(adj, y, x) {
        ClosedReach(adj, old_, y, x);
      }
    }
    forall x, y | x in inside && y in inside ensures h1[x] == h1[y] <==> Mutual(adj, x, y) {
      if x in Elems(s[p..]) && y in Elems(s[p..]) {
        ReachTrans(adj, x, s[p], y);
        ReachTrans(adj, y, s[p], x);
      } else if x in old_ && y in old_ {
        assert h1[x] == h0[x] && h1[y] == h0[y];
      }
    }
  }

  /**
   * Popping `s[p..]`, whose vertices reach `s[p]` and have targets settled
   * against its discovery number, and giving them the head `root` keeps
   * the invariant.
   */
  lemma PopKeepsTracked(adj: seq<seq<int>>, n: int, d: seq<int>, s: seq<int>, m0: seq<bool>, m1: seq<bool>,
                        h0: seq<int>, h1: seq<int>, p: int, root: int, time: int)
    requires Wellformed(adj, n) && Tracked(adj, n, d, s, m0, h0) && Numbered(d, s, time, n) && Assigned(d, m0, h0, n)
    requires Distinct(s) && 0 <= p < |s| && MarksMatch(m0, s) && |m1| == n + 1 && MarksMatch(m1, s[..p])
    requires |h1| == n + 1 && root in s[p..] && forall x :: 0 <= x <= n ==> h1[x] == if x in s[p..] then root else h0[x]
    requires ReachesFrom(adj, s, p, s[p]) && SettledFrom(adj, n, d, s, m0, d[s[p]], p)
    ensures Tracked(adj, n, d, s[..p], m1, h1)
  {
    PoppedAfter(d, s, m0, m1, p, n, time);
    var inside := Popped(d, m1, n);
    PopClosed(adj, n, d, s, m0, p, time, inside);
    PopHeads(adj, n, d, s, m0, h0, h1, p, root, time, inside);
    forall i, j | 0 <= i < j < p ensures Reach(adj, s[..p][i], s[..p][j]) {
      assert s[..p][i] == s[i] && s[..p][j] == s[j];
    }
  }

  /** A finished search: with every vertex discovered and none stacked, heads are the classes. */
  lemma TrackedFinished(adj: seq<seq<int>>, n: int, d: seq<int>, m: seq<bool>, h: seq<int>)
    requires Tracked(adj, n, d, [], m, h) && |d| == n + 1 && |m| == n + 1 && MarksMatch(m, [])
    requires forall x :: 1 <= x <= n ==> d[x] != 0
    ensures forall x, y :: 1 <= x <= n && 1 <= y <= n ==> (h[x] == h[y] <==> Mutual(adj, x, y))
  {
    forall x | 1 <= x <= n ensures x in Popped(d, m, n) {
      assert !m[x];
    }
  }

  /**
   * A vertex assigned before the visit of `v` stays assigned: the vertices
   * stacked by the visit, `v` first, were all discovered during it.
   */
  lemma PoppedStays(d1: seq<int>, s1: seq<int>, m1: seq<bool>, t1: int,
                    d2: seq<int>, s2: seq<int>, m2: seq<bool>, t2: int, n: int, v: int)
    requires Numbered(d1, s1, t1, n) && |m1| == n + 1 && MarksMatch(m1, s1)
    requires Numbered(d2, s2, t2, n) && |m2| == n + 1 && MarksMatch(m2, s2)
    requires s1 <= s2 && (|s1| < |s2| ==> s2[|s1|] == v) && 0 <= v <= n && d2[v] == t1 + 1
    requires forall x :: 0 <= x <= n && d1[x] != 0 ==> d2[x] == d1[x]
    ensures forall z :: 0 <= z <= n && d1[z] != 0 && !m1[z] ==> !m2[z]
  {
  }

  /** Settled targets stay settled while numbers are kept, assigned vertices stay assigned and `lo` only falls. */
  lemma SettledKeeps(n: int, d1: seq<int>, m1: seq<bool>, lo: int, d2: seq<int>, m2: seq<bool>, lo': int, t: seq<int>)
    requires Settled(n, d1, m1, lo, t) && lo' <= lo && |d2| == n + 1 && |m2| == n + 1
    requires forall x :: 0 <= x <= n && d1[x] != 0 ==> d2[x] == d1[x]
    requires forall z :: 0 <= z <= n && d1[z] != 0 && !m1[z] ==> !m2[z]
    ensures Settled(n, d2, m2, lo', t)
  {
  }

  /**
   * The visit of an undiscovered target `v` of `u` and the lowering of
   * `low[u]` to `low[v]` that follows it keep the loop state of `u`: what
   * the visit leaves stacked reaches `v`, which reaches a vertex stacked
   * before it, which reaches `u`.
   */
  lemma ChildDone(adj: seq<seq<int>>, n: int, d1: seq<int>, s1: seq<int>, m1: seq<bool>, t1: int,
                  lo: int, p: int, u: int, i: int, w: int, v: int,
                  d2: seq<int>, s2: seq<int>, m2: seq<bool>, t2: int, lv: int, wv: int, lo': int) returns (w': int)
    requires Wellformed(adj, n) && Exploring(adj, n, d1, s1, m1, lo, p, u, i, w)
    requires Numbered(d1, s1, t1, n) && |m1| == n + 1 && MarksMatch(m1, s1)
    requires i < |adj[u]| && adj[u][i] == v && d1[v] == 0 && lo <= d1[u]
    requires Numbered(d2, s2, t2, n) && |m2| == n + 1 && MarksMatch(m2, s2) && StackReach(adj, s2)
    requires s1 <= s2 && d2[v] == t1 + 1
    requires forall x :: 0 <= x <= n && d1[x] != 0 ==> d2[x] == d1[x]
    requires Hanging(adj, n, d2, s2, m2, lv, |s1|, v, wv)
    requires lo' == if lo > lv then lv else lo
    ensures Exploring(adj, n, d2, s2, m2, lo', p, u, i + 1, w')
  {
    PoppedStays(d1, s1, m1, t1, d2, s2, m2, t2, n, v);
    assert s2[p] == u && s2[w] == s1[w];
    forall k | 0 <= k && p + 1 <= k < |s2| ensures 0 <= s2[k] < |adj| && Settled(n, d2, m2, lo', adj[s2[k]]) {
      if k < |s1| {
        assert s2[k] == s1[k];
        SettledKeeps(n, d1, m1, lo, d2, m2, lo', adj[s1[k]]);
      } else {
        SettledLower(n, d2, m2, lv, lo', adj[s2[k]]);
      }
    }
    SettledKeeps(n, d1, m1, lo, d2, m2, lo', adj[u][..i]);
    SettledNext(n, d2, m2, lo', adj[u], i);
    forall k | 0 <= k && p <= k < |s2| ensures Reach(adj, s2[k], u) {
      if k < |s1| {
        assert s2[k] == s1[k];
      } else {
        if wv < p {
          assert Reach(adj, s2[wv], s2[p]);
        } else {
          assert s2[wv] == s1[wv];
        }
        ReachTrans(adj, v, s2[wv], u);
        ReachTrans(adj, s2[k], v, u);
      }
    }
    if lo > lv {
      w' := wv;
      ReachArc(adj, u, v);
      ReachTrans(adj, u, v, s2[wv]);
    } else {
      w' := w;
    }
  }

  /** The vertices of `0..n` that `disc` leaves unnumbered. */
  ghost function Unnumbered(disc: seq<int>, n: int): set<int>
  {
    set x | 0 <= x <= n && x < |disc| && disc[x] == 0
  }

  /**
   * The state inside the visit of `u`, before its `i`-th target, with
   * numbers `D`, stack `S`, marks `M`, low links `L` and clock `T`; the
   * visit began with `s0`, `d0`, `l0`, `t0` and the unnumbered vertices
   * `U0`.  `u` is stacked over `s0` with the number `t0 + 1`, older numbers
   * and low links other than `u`'s are kept, no vertex lost its number,
   * `L[u]` lies between the number of the bottom of `s0 + [u]` and `D[u]`,
   * and `Exploring` holds.
   */
  ghost predicate LoopState(adj: seq<seq<int>>, n: int, u: int, s0: seq<int>, d0: seq<int>, l0: seq<int>, t0: int,
                            U0: set<int>, i: int, w: int,
                            D: seq<int>, S: seq<int>, M: seq<bool>, L: seq<int>, T: int)
  {
    1 <= u <= n && |D| == n + 1 && |L| == n + 1 && u in U0 && s0 + [u] <= S && AllIn(s0, 1, n + 1) &&
    D[u] == t0 + 1 && T > t0 && Kept(d0, l0, D, L, u) && Unnumbered(D, n) <= U0 - {u} &&
    (if s0 == [] then D[u] else D[s0[0]]) <= L[u] <= D[u] &&
    0 <= u < |adj| && 0 <= i <= |adj[u]| && Exploring(adj, n, D, S, M, L[u], |s0|, u, i, w)
  }

  /**
   * The state after the visit of `u`, begun with `s0`, `d0`, `l0`, `t0`
   * and `U0`: `u` has the number `t0 + 1`, older numbers and other low
   * links are kept, `u` is numbered, the stack only grew and a visit begun
   * on an empty stack ends on one, `L[u]` lies between the number of the
   * bottom of the stack and `D[u]`, and `Hanging` holds.
   */
  ghost predicate VisitState(adj: seq<seq<int>>, n: int, u: int, s0: seq<int>, d0: seq<int>, l0: seq<int>, t0: int,
                             U0: set<int>, w: int, D: seq<int>, S: seq<int>, M: seq<bool>, L: seq<int>, T: int)
  {
    1 <= u <= n && |D| == n + 1 && |L| == n + 1 && AllIn(s0, 1, n + 1) &&
    D[u] == t0 + 1 && T > t0 && Kept(d0, l0, D, L, u) && Unnumbered(D, n) <= U0 - {u} &&
    s0 <= S && L[u] <= D[u] &&
    (s0 == [] ==> S == [] && L[u] == D[u]) &&
    (s0 != [] ==> L[u] >= D[s0[0]]) &&
    Hanging(adj, n, D, S, M, L[u], |s0|, u, w)
  }

  /** Numbering and pushing `u` starts the loop over its targets. */
  lemma LoopStart(adj: seq<seq<int>>, n: int, u: int, s0: seq<int>, d0: seq<int>, l0: seq<int>, t0: int,
                  D: seq<int>, S: seq<int>, M: seq<bool>, L: seq<int>, T: int)
    requires Wellformed(adj, n) && Numbered(d0, s0, t0, n) && 1 <= u <= n && d0[u] == 0 && |l0| == n + 1 && |M| == n + 1
    requires D == d0[u := t0 + 1] && L == l0[u := t0 + 1] && S == s0 + [u] && T == t0 + 1
    ensures LoopState(adj, n, u, s0, d0, l0, t0, Unnumbered(d0, n), 0, |s0|, D, S, M, L, T)
  {
    StartExploring(adj, n, D, S, M, |s0|, u);
    if s0 != [] {
      assert d0[s0[0]] <= d0[s0[|s0| - 1]];
    }
  }

  /**
   * The visit of the undiscovered `i`-th target `v` of `u`, which took the
   * state from `D1`, `S1`, `M1`, `L1`, `T1` to `D2`, `S2`, `M2`, `L2`,
   * `T2`, followed by `low[u] = min(low[u], low[v])`, moves the loop on.
   */
  lemma ExploreChild(adj: seq<seq<int>>, n: int, u: int, v: int, s0: seq<int>, d0: seq<int>, l0: seq<int>, t0: int,
                     U0: set<int>, i: int, w: int,
                     D1: seq<int>, S1: seq<int>, M1: seq<bool>, L1: seq<int>, T1: int,
                     D2: seq<int>, S2: seq<int>, M2: seq<bool>, L2: seq<int>, T2: int, wv: int, x: int) returns (w': int)
    requires Wellformed(adj, n) && LoopState(adj, n, u, s0, d0, l0, t0, U0, i, w, D1, S1, M1, L1, T1)
    requires Numbered(D1, S1, T1, n) && |M1| == n + 1 && MarksMatch(M1, S1)
    requires Numbered(D2, S2, T2, n) && |M2| == n + 1 && MarksMatch(M2, S2) && StackReach(adj, S2)
    requires i < |adj[u]| && adj[u][i] == v && D1[v] == 0
    requires VisitState(adj, n, v, S1, D1, L1, T1, Unnumbered(D1, n), wv, D2, S2, M2, L2, T2)
    requires x == if L2[u] > L2[v] then L2[v] else L2[u]
    ensures LoopState(adj, n, u, s0, d0, l0, t0, U0, i + 1, w', D2, S2, M2, L2[u := x], T2)
  {
    assert L2[u] == L1[u] && S1[|s0|] == u;
    w' := ChildDone(adj, n, D1, S1, M1, T1, L1[u], |s0|, u, i, w, v, D2, S2, M2, T2, L2[v], wv, x);
    KeptLower(D1, L1, D2, L2, v, u, x);
    KeptTrans(d0, l0, D1, L1, D2, L2[u := x], u);
    assert S1[0] == if s0 == [] then u else s0[0];
  }

  /** A stacked `i`-th target `v` of `u`, at position `j`, and `low[u] = min(low[u], disc[v])` move the loop on. */
  lemma ExploreStacked(adj: seq<seq<int>>, n: int, u: int, s0: seq<int>, d0: seq<int>, l0: seq<int>, t0: int,
                       U0: set<int>, i: int, w: int,
                       D: seq<int>, S: seq<int>, M: seq<bool>, L: seq<int>, T: int, j: int, x: int) returns (w': int)
    requires LoopState(adj, n, u, s0, d0, l0, t0, U0, i, w, D, S, M, L, T)
    requires Numbered(D, S, T, n) && |M| == n + 1
    requires i < |adj[u]| && 0 <= j < |S| && S[j] == adj[u][i] && M[S[j]]
    requires x == if L[u] > D[S[j]] then D[S[j]] else L[u]
    ensures LoopState(adj, n, u, s0, d0, l0, t0, U0, i + 1, w', D, S, M, L[u := x], T)
  {
    w' := StackedTarget(adj, n, D, S, M, T, L[u], |s0|, u, i, w, j, x);
    KeptLower(D, L, D, L, u, u, x);
    KeptTrans(d0, l0, D, L, D, L[u := x], u);
    assert S[0] == if s0 == [] then u else s0[0];
  }

  /** An `i`-th target of `u` that is assigned already moves the loop on and changes nothing. */
  lemma ExploreAssigned(adj: seq<seq<int>>, n: int, u: int, s0: seq<int>, d0: seq<int>, l0: seq<int>, t0: int,
                        U0: set<int>, i: int, w: int,
                        D: seq<int>, S: seq<int>, M: seq<bool>, L: seq<int>, T: int)
    requires LoopState(adj, n, u, s0, d0, l0, t0, U0, i, w, D, S, M, L, T) && |M| == n + 1
    requires i < |adj[u]| && 0 <= adj[u][i] <= n && D[adj[u][i]] != 0 && !M[adj[u][i]]
    ensures LoopState(adj, n, u, s0, d0, l0, t0, U0, i + 1, w, D, S, M, L, T)
  {
    AssignedTarget(adj, n, D, S, M, L[u], |s0|, u, i, w);
  }

  /** After the loop, with `low[u] == disc[u]`, popping the stack down to `u` ends the visit. */
  lemma ClosePopped(adj: seq<seq<int>>, n: int, u: int, s0: seq<int>, d0: seq<int>, l0: seq<int>, t0: int,
                    U0: set<int>, w: int,
                    D: seq<int>, S: seq<int>, M: seq<bool>, L: seq<int>, T: int, S': seq<int>, M': seq<bool>)
    requires 0 <= u < |adj| && LoopState(adj, n, u, s0, d0, l0, t0, U0, |adj[u]|, w, D, S, M, L, T)
    requires L[u] == D[u] && S' == S[..|s0|]
    ensures VisitState(adj, n, u, s0, d0, l0, t0, U0, w, D, S', M', L, T)
  {
    assert S' == s0;
    PoppedVisit(adj, n, D, S', M', L[u], |s0|, u, w);
  }

  /** After the loop, with `low[u]` below `disc[u]`, `u` stays stacked and the visit ends. */
  lemma CloseKept(adj: seq<seq<int>>, n: int, u: int, s0: seq<int>, d0: seq<int>, l0: seq<int>, t0: int,
                  U0: set<int>, w: int,
                  D: seq<int>, S: seq<int>, M: seq<bool>, L: seq<int>, T: int)
    requires 0 <= u < |adj| && LoopState(adj, n, u, s0, d0, l0, t0, U0, |adj[u]|, w, D, S, M, L, T)
    requires L[u] != D[u]
    ensures VisitState(adj, n, u, s0, d0, l0, t0, U0, w, D, S, M, L, T)
  {
    Remains(adj, n, D, S, M, L[u], |s0|, u, w);
    assert s0 != [] ==> S[0] == s0[0];
  }
}
