/**
 * Invariants of the strongly-connected-components search, over the
 * sequences its buffers hold.
 */
module SearchState {
  import opened Seqs
  import opened VertexStacks

  /**
   * The discovery numbering while the search runs: numbers lie in
   * `0..time`, every stacked vertex is discovered, and the stack holds
   * vertices in increasing discovery order.
   */
  ghost predicate Numbered(disc: seq<int>, stack: seq<int>, time: int, n: int)
  {
    |disc| == n + 1 && 0 <= time &&
    (forall x :: 0 <= x <= n ==> 0 <= disc[x] <= time) &&
    (forall i :: 0 <= i < |stack| ==> 1 <= stack[i] <= n && disc[stack[i]] > 0) &&
    (forall i, j :: 0 <= i < j < |stack| ==> disc[stack[i]] < disc[stack[j]])
  }

  /**
   * The component heads while the search runs: a vertex that is discovered
   * and no longer stacked has been assigned to a component, and its head is
   * an id no larger than its own that is its own head; every other vertex
   * still has head 0.
   */
  ghost predicate Assigned(disc: seq<int>, marks: seq<bool>, head: seq<int>, n: int)
  {
    |disc| == n + 1 && |marks| == n + 1 && |head| == n + 1 &&
    forall x :: 1 <= x <= n ==>
      if disc[x] != 0 && !marks[x] then 1 <= head[x] <= x && head[head[x]] == head[x]
      else head[x] == 0
  }

  /** The vertices that head their own component. */
  ghost function Roots(head: seq<int>, n: int): set<int>
  {
    set x | 1 <= x <= n && x < |head| && head[x] == x
  }

  /**
   * The finished partition: every vertex `1..n` has a head no larger than
   * itself, and a head is its own head.
   */
  ghost predicate Partition(head: seq<int>, n: int)
  {
    |head| == n + 1 &&
    forall x :: 1 <= x <= n ==> 1 <= head[x] <= x && head[head[x]] == head[x]
  }

  /** The zeroed buffers of a new search: nothing discovered, numbered or assigned. */
  lemma StartState(disc: seq<int>, marks: seq<bool>, head: seq<int>, n: nat)
    requires |disc| == n + 1 && |marks| == n + 1 && |head| == n + 1
    requires forall x :: 0 <= x <= n ==> disc[x] == 0 && head[x] == 0
    ensures Numbered(disc, [], 0, n) && Assigned(disc, marks, head, n) && Roots(head, n) == {}
  {
  }

  /**
   * Numbering and pushing an undiscovered `u` keeps the numbering, and the
   * pushed stack still fits `n + 1` cells.
   */
  lemma DiscoverKeepsNumbered(disc: seq<int>, stack: seq<int>, time: int, n: int, u: int)
    requires Numbered(disc, stack, time, n) && Distinct(stack) && 1 <= u <= n && disc[u] == 0
    ensures Numbered(disc[u := time + 1], stack + [u], time + 1, n)
    ensures Distinct(stack + [u]) && |stack| + 1 <= n
  {
    assert u !in stack;
    assert AllIn(stack + [u], 1, n + 1);
    DistinctBounded(stack + [u], 1, n + 1);
  }

  /** Discovering `u` and pushing it leaves every head as it was. */
  lemma DiscoverKeepsAssigned(disc: seq<int>, marks: seq<bool>, head: seq<int>, n: int, u: int, t: int)
    requires Assigned(disc, marks, head, n) && 1 <= u <= n && disc[u] == 0 && t != 0
    ensures Assigned(disc[u := t], marks[u := true], head, n)
  {
  }

  /**
   * Popping the stacked vertices `s[p..]` and giving them all the head
   * `root`, their smallest id, assigns them and adds exactly one root.
   */
  lemma {:induction false} AssignComponent(disc: seq<int>, m0: seq<bool>, m1: seq<bool>, h0: seq<int>, h1: seq<int>,
                                           s: seq<int>, p: int, root: int, n: int)
    requires Assigned(disc, m0, h0, n) && |m1| == n + 1 && |h1| == n + 1
    requires 0 <= p < |s| && MarksMatch(m0, s) && MarksMatch(m1, s[..p]) && Distinct(s)
    requires forall i :: 0 <= i < |s| ==> 1 <= s[i] <= n && disc[s[i]] != 0
    requires root in s[p..] && forall y :: y in s[p..] ==> root <= y
    requires forall x :: 0 <= x <= n ==> h1[x] == if x in s[p..] then root else h0[x]
    ensures Assigned(disc, m1, h1, n)
    ensures root !in Roots(h0, n) && Roots(h1, n) == Roots(h0, n) + {root}
  {
    assert 1 <= root <= n;
    forall x | 0 <= x <= n && x !in s[p..] ensures m1[x] == m0[x] {
      if x in s {
        var i :| 0 <= i < |s| && s[i] == x;
        assert i < p && s[..p][i] == x;
      }
    }
    forall x | x in s[p..] ensures 0 <= x <= n && m0[x] && !m1[x] && h0[x] == 0 {
      var i :| p <= i < |s| && s[i] == x;
      assert s[p..][i - p] == x;
      assert x !in s[..p];
    }
    forall x | 1 <= x <= n
      ensures if disc[x] != 0 && !m1[x] then 1 <= h1[x] <= x && h1[h1[x]] == h1[x] else h1[x] == 0
    {
      if x !in s[p..] && disc[x] != 0 && !m0[x] {
        assert h0[h0[x]] != 0;
        assert h0[x] !in s[p..];
      }
    }
    assert Roots(h1, n) == Roots(h0, n) + {root};
  }


  lemma NumberedPrefix(disc: seq<int>, stack: seq<int>, time: int, n: int, p: int)
    requires Numbered(disc, stack, time, n) && 0 <= p <= |stack|
    ensures Numbered(disc, stack[..p], time, n)
  {
  }

  /**
   * Once every vertex is discovered and none is stacked, the heads form the
   * finished partition.
   */
  lemma Finished(disc: seq<int>, marks: seq<bool>, head: seq<int>, n: int)
    requires Assigned(disc, marks, head, n)
    requires forall x :: 1 <= x <= n ==> disc[x] != 0 && !marks[x]
    ensures Partition(head, n)
  {
    forall x | 1 <= x <= n ensures 1 <= head[x] <= x && head[head[x]] == head[x] {
      assert disc[x] != 0 && !marks[x];
    }
  }

  /**
   * In the finished partition the roots are exactly the heads in use, so
   * the count of components is the number of distinct heads.
   */
  lemma RootsAreHeads(head: seq<int>, n: int)
    requires Partition(head, n)
    ensures Roots(head, n) == set x | 1 <= x <= n :: head[x]
  {
    var heads := set x | 1 <= x <= n :: head[x];
    forall r | r in heads ensures r in Roots(head, n) {
      var x :| 1 <= x <= n && head[x] == r;
    }
    forall r | r in Roots(head, n) ensures r in heads {
      assert head[r] == r;
    }
  }

  /** `h` with every id of `s` overwritten by `r`. */
  ghost function Fill(h: seq<int>, s: seq<int>, r: int): (f: seq<int>)
    requires AllIn(s, 0, |h|)
    ensures |f| == |h|
  {
    if s == [] then h else Fill(h, s[1..], r)[s[0] := r]
  }

  lemma {:induction false} FillAt(h: seq<int>, s: seq<int>, r: int, x: int)
    requires AllIn(s, 0, |h|) && 0 <= x < |h|
    ensures Fill(h, s, r)[x] == if x in s then r else h[x]
  {
    if s != [] {
      FillAt(h, s[1..], r, x);
      assert x in s <==> x == s[0] || x in s[1..];
    }
  }

  /**
   * One step of popping `t` from the top: position `j` is not the bottom
   * (which holds `u`), and the popped suffix grows by `t[j]`.
   */
  lemma PopStep(t: seq<int>, j: int, u: int)
    requires 0 <= j < |t| && t[0] == u && t[j] != u
    ensures 0 < j && t[j..] == [t[j]] + t[j + 1..] && t[..j][..j - 1] == t[..j - 1] && t[..j][j - 1] == t[j - 1]
  {
  }

  /**
   * Popping stops at the bottom: in a duplicate-free `t` only position 0
   * holds `u`, and filling `u` first and then the rest fills all of `t`.
   */
  lemma PopDone(h: seq<int>, t: seq<int>, j: int, u: int, r: int)
    requires Distinct(t) && 0 <= j < |t| && t[0] == u && t[j] == u && AllIn(t, 0, |h|)
    ensures j == 0 && Fill(h[u := r], t[j + 1..], r) == Fill(h, t, r)
  {
    FillFront(h, t[1..], u, r);
  }

  lemma {:induction false} FillFront(h: seq<int>, s: seq<int>, a: int, r: int)
    requires AllIn(s, 0, |h|) && 0 <= a < |h|
    ensures Fill(h[a := r], s, r) == Fill(h, s, r)[a := r]
  {
    if s != [] {
      FillFront(h, s[1..], a, r);
    }
  }

  /**
   * One step of moving a component from the stack `s` to the temporary
   * stack `c`: the vertex `s[k]` popped above the component's first vertex
   * `s[p]` is not on `c` yet, and `c` still fits after pushing it.
   */
  lemma MoveStep(s: seq<int>, k: int, p: int, c: seq<int>, n: int)
    requires Distinct(s) && AllIn(s, 1, n + 1) && 0 <= p <= k < |s| && s[k] != s[p]
    requires Distinct(c) && multiset(c) == multiset(s[k + 1..]) + multiset{s[p]}
    ensures p < k && s[k] !in c && Distinct(c + [s[k]]) && AllIn(c + [s[k]], 1, n + 1) && |c| + 1 <= n
    ensures multiset(c + [s[k]]) == multiset(s[k..]) + multiset{s[p]}
    ensures s[..k][..k - 1] == s[..k - 1] && s[..k][k - 1] == s[k - 1]
  {
    assert s[k] !in s[k + 1..];
    assert s[k] !in multiset(c);
    forall i | 0 <= i < |c| ensures 1 <= c[i] <= n {
      assert c[i] in multiset(c);
    }
    DistinctBounded(c + [s[k]], 1, n + 1);
    assert s[k..] == [s[k]] + s[k + 1..];
  }

  /**
   * Moving stops at the component's first vertex `u`: the stack is cut at
   * `p`, the temporary stack holds all of `s[p..]`, and `root` is its
   * smallest id.
   */
  lemma MoveDone(st: VertexStack, stTemp: VertexStack, n: int,
                 u: int, root: int, s: seq<int>, k: int, p: int, ri: int)
    requires Moving(st, stTemp, n, u, u, root, s, k, p, ri)
    ensures st.Valid() && stTemp.Valid() && st.contents == s[..p]
    ensures stTemp.contents != [] && stTemp.contents[0] == u && AllIn(stTemp.contents, 1, n + 1)
    ensures multiset(stTemp.contents) == multiset(s[p..])
    ensures root in s[p..] && forall i :: p <= i < |s| ==> root <= s[i]
  {
    assert k == p;
    assert s[p..] == [s[p]] + s[p + 1..];
    assert s[p..][ri - p] == root;
    MultisetAllIn(stTemp.contents, s[p..], 1, n + 1);
  }

  lemma MultisetAllIn(c: seq<int>, s: seq<int>, lo: int, hi: int)
    requires multiset(c) == multiset(s) && AllIn(s, lo, hi)
    ensures AllIn(c, lo, hi)
  {
    forall i | 0 <= i < |c| ensures lo <= c[i] < hi {
      assert c[i] in multiset(s);
    }
  }

  /**
   * The state inside the first loop of the root block: `s` was the stack
   * and `s[p]` is `u`; `s[k]` has just been popped into `v`, the vertices
   * above it are on the temporary stack over `u`, and `root` (at
   * `s[ri]`) is the smallest of them.  Contracts state it compared with
   * `true`, which the verifier keeps as one fact instead of splitting it
   * into its conjuncts.
   */
  ghost predicate Moving(st: VertexStack, stTemp: VertexStack, n: int,
                         u: int, v: int, root: int, s: seq<int>, k: int, p: int, ri: int)
    reads st, st.data, st.inStack, stTemp, stTemp.data, stTemp.inStack
  {
    st.Valid() && stTemp.Valid() && Distinct(s) && AllIn(s, 1, n + 1) &&
    0 <= p <= k < |s| && s[p] == u && v == s[k] && st.contents == s[..k] &&
    stTemp.contents != [] && stTemp.contents[0] == u &&
    multiset(stTemp.contents) == multiset(s[k + 1..]) + multiset{u} &&
    p <= ri < |s| && s[ri] == root && root <= u &&
    (forall i :: k < i < |s| ==> root <= s[i])
  }

  /** Every target of every list `adj[0..n]` is a vertex id in `1..n`. */
  ghost predicate Wellformed(adj: seq<seq<int>>, n: int)
  {
    |adj| == n + 1 && forall u, k :: 0 <= u < |adj| && 0 <= k < |adj[u]| ==> 1 <= adj[u][k] <= n
  }

  /** The buffers of a search over `1..n`: `n + 1` entries each, no two shared. */
  ghost predicate Separate(n: int, disc: array<int>, low: array<int>, head: array<int>,
                           st: VertexStack, stTemp: VertexStack)
  {
    disc.Length == n + 1 && low.Length == n + 1 && head.Length == n + 1 &&
    st.data.Length == n + 1 && st.inStack.Length == n + 1 &&
    stTemp.data.Length == n + 1 && stTemp.inStack.Length == n + 1 &&
    st != stTemp && st.inStack != stTemp.inStack && st.data != stTemp.data &&
    disc != low && disc != head && low != head &&
    disc != st.data && disc != stTemp.data && low != st.data && low != stTemp.data &&
    head != st.data && head != stTemp.data
  }

  /**
   * Popping one component keeps the search invariants: the stack `s` is cut
   * at `p`, the marks `m1` are those of what remains, and the heads `h1`
   * are `h0` filled with `root` over `t`, a rearrangement of the popped
   * part `s[p..]` whose smallest id is `root`.  Exactly the popped vertices
   * change head, and `root` is one new root.
   */
  lemma PopKeeps(disc: seq<int>, m0: seq<bool>, m1: seq<bool>, h0: seq<int>, h1: seq<int>,
                 s: seq<int>, t: seq<int>, p: int, root: int, n: int, time: int)
    requires Numbered(disc, s, time, n) && Assigned(disc, m0, h0, n) && Distinct(s)
    requires 0 <= p < |s| && MarksMatch(m0, s) && |m1| == n + 1 && MarksMatch(m1, s[..p])
    requires multiset(t) == multiset(s[p..]) && AllIn(t, 0, |h0|) && h1 == Fill(h0, t, root)
    requires root in s[p..] && forall i :: p <= i < |s| ==> root <= s[i]
    ensures Numbered(disc, s[..p], time, n) && Assigned(disc, m1, h1, n)
    ensures |Roots(h1, n)| == |Roots(h0, n)| + 1
    ensures forall y :: y in s[p..] ==> root <= y
    ensures forall x :: 0 <= x <= n ==> h1[x] == if x in s[p..] then root else h0[x]
  {
    NumberedPrefix(disc, s, time, n, p);
    forall y | y in s[p..] ensures root <= y {
      var i :| 0 <= i < |s[p..]| && s[p..][i] == y;
      assert s[p + i] == y;
    }
    forall x | 0 <= x <= n ensures h1[x] == if x in s[p..] then root else h0[x] {
      FillAt(h0, t, root, x);
      assert x in t <==> x in multiset(t);
    }
    AssignComponent(disc, m0, m1, h0, h1, s, p, root, n);
  }

  /**
   * From discovery numbers and low links `d0`, `l0` to `d1`, `l1`: every
   * vertex numbered in `d0` keeps its number, and its low link too unless
   * it is `u`.
   */
  ghost predicate Kept(d0: seq<int>, l0: seq<int>, d1: seq<int>, l1: seq<int>, u: int)
  {
    |d1| == |d0| && |l0| == |d0| && |l1| == |d0| &&
    forall x :: 0 <= x < |d0| && d0[x] != 0 ==> d1[x] == d0[x] && (x == u || l1[x] == l0[x])
  }

  lemma KeptTrans(d0: seq<int>, l0: seq<int>, d1: seq<int>, l1: seq<int>, d2: seq<int>, l2: seq<int>, u: int)
    requires Kept(d0, l0, d1, l1, u) && Kept(d1, l1, d2, l2, u)
    ensures Kept(d0, l0, d2, l2, u)
  {
  }

  /**
   * A step that keeps numbers and low links as `Kept` for `v`, where `v`
   * was undiscovered or is `u`, followed by a new low link of `u`, keeps
   * them as `Kept` for `u`.
   */
  lemma KeptLower(d0: seq<int>, l0: seq<int>, d1: seq<int>, l1: seq<int>, v: int, u: int, x: int)
    requires Kept(d0, l0, d1, l1, v) && 0 <= v < |d0| && (d0[v] == 0 || v == u) && 0 <= u < |d0|
    ensures Kept(d0, l0, d1, l1[u := x], u)
  {
  }
}
