/**
 * Orders of the vertices `1..n` of a directed graph given by target lists,
 * and the three verdicts of the vertex-deletion sort of
 * proj/2016-2017/p1/src/proj.c: a topological order (`CORRECT`), none at
 * all (`INCOHERENT`), or more than one (`INSUFFICIENT`).
 */
module KahnOrder {
  import opened Seqs
  import opened LinkedGraph

  /** The `status` of the graph, lines 14-18. */
  datatype Status = Correct | Incoherent | Insufficient

  /** Every vertex of `s` comes after the sources of its in-arcs among `0..n`. */
  ghost predicate Ordered(adj: AdjLists, s: seq<int>, n: int)
  {
    forall i, x :: 0 <= i < |s| && 0 <= x <= n && x < |adj| && s[i] in adj[x] ==> x in s[..i]
  }

  /** `v` may come right after `s`: every source of an arc into `v` is in `s`. */
  ghost predicate Free(adj: AdjLists, n: int, s: seq<int>, v: int)
  {
    forall x :: 0 <= x <= n && x < |adj| && v in adj[x] ==> x in s
  }

  /** `s` lists distinct vertices of `1..n`, each after the sources of its in-arcs. */
  ghost predicate Listing(adj: AdjLists, s: seq<int>, n: int)
  {
    Distinct(s) && AllIn(s, 1, n + 1) && Ordered(adj, s, n)
  }

  /** `t` is a topological order: every vertex of `1..n` once, each after its in-arc sources. */
  ghost predicate Topological(adj: AdjLists, t: seq<int>, n: int)
  {
    |t| == n && Listing(adj, t, n)
  }

  /** `s` cannot be extended: some vertex is missing and none missing is free. */
  ghost predicate Stuck(adj: AdjLists, n: int, s: seq<int>)
  {
    |s| < n && forall v :: 1 <= v <= n && v !in s ==> !Free(adj, n, s, v)
  }

  /** `x` and `y` are two different vertices that may both come right after `s`. */
  ghost predicate Pair(adj: AdjLists, n: int, s: seq<int>, x: int, y: int)
  {
    1 <= x <= n && 1 <= y <= n && x != y && x !in s && y !in s && Free(adj, n, s, x) && Free(adj, n, s, y)
  }

  /** After `s` the order is not determined: two vertices may come next. */
  ghost predicate Ambiguous(adj: AdjLists, n: int, s: seq<int>)
  {
    exists x, y :: Pair(adj, n, s, x, y)
  }

  /** What `graph_sort` detects: a vertex of `s` whose removal freed two of its targets. */
  ghost predicate Split(adj: AdjLists, n: int, s: seq<int>)
  {
    exists u, x, y :: 0 <= u < |adj| && u in s && x in adj[u] && y in adj[u] && Pair(adj, n, s, x, y)
  }

  /**
   * The verdict `status` for the vertices listed in `result`: a complete
   * order, a listing no vertex can extend, or a listing two vertices can.
   */
  ghost predicate Outcome(adj: AdjLists, n: int, s: seq<int>, status: Status)
  {
    Listing(adj, s, n) &&
    match status
    case Correct => |s| == n
    case Incoherent => Stuck(adj, n, s)
    case Insufficient => Ambiguous(adj, n, s)
  }

  /** A prefix of a listing is a listing. */
  lemma ListingPrefix(adj: AdjLists, s: seq<int>, n: int, k: int)
    requires Listing(adj, s, n) && 0 <= k <= |s|
    ensures Listing(adj, s[..k], n)
  {
    forall i, x | 0 <= i < k && 0 <= x <= n && x < |adj| && s[..k][i] in adj[x] ensures x in s[..k][..i] {
      assert s[..k][..i] == s[..i];
    }
  }

  /** Either vertex of an ambiguous pair can come next: two listings that differ. */
  lemma AmbiguousOrders(adj: AdjLists, n: int, s: seq<int>, x: int, y: int)
    requires Listing(adj, s, n) && Pair(adj, n, s, x, y)
    ensures Listing(adj, s + [x, y], n) && Listing(adj, s + [y, x], n)
    ensures s + [x, y] != s + [y, x]
  {
    Extend(adj, n, s, x);
    Extend(adj, n, s + [x], y);
    Extend(adj, n, s, y);
    Extend(adj, n, s + [y], x);
    assert s + [x, y] == s + [x] + [y] && s + [y, x] == s + [y] + [x];
    assert (s + [x, y])[|s|] != (s + [y, x])[|s|];
  }

  /** A free vertex not yet listed extends a listing. */
  lemma Extend(adj: AdjLists, n: int, s: seq<int>, v: int)
    requires Listing(adj, s, n) && 1 <= v <= n && v !in s
    requires forall x :: 0 <= x <= n && x < |adj| && v in adj[x] ==> x in s
    ensures Listing(adj, s + [v], n)
  {
    var t := s + [v];
    forall i, x | 0 <= i < |t| && 0 <= x <= n && x < |adj| && t[i] in adj[x] ensures x in t[..i] {
      if i < |s| {
        assert t[..i] == s[..i];
      } else {
        assert t[..i] == s;
      }
    }
    forall i, j | 0 <= i < j < |t| ensures t[i] != t[j] {
      if j == |s| {
        assert t[i] in s;
      }
    }
  }

  /**
   * A stuck listing rules out every topological order: the first vertex of
   * such an order missing from `s` would have an in-arc from a vertex that
   * is missing too, yet comes earlier.
   */
  lemma StuckNoOrder(adj: AdjLists, n: int, s: seq<int>, t: seq<int>)
    requires Listing(adj, s, n) && Stuck(adj, n, s)
    ensures !Topological(adj, t, n)
  {
    if Topological(adj, t, n) {
      SomeMissing(s, t);
      var i :| 0 <= i < |t| && t[i] !in s;
      MissingComesLater(adj, n, s, t, i);
    }
  }

  /** A duplicate-free sequence longer than another holds a value the other lacks. */
  lemma SomeMissing(s: seq<int>, t: seq<int>)
    requires Distinct(s) && Distinct(t) && |s| < |t|
    ensures exists i :: 0 <= i < |t| && t[i] !in s
  {
    DistinctElems(s);
    DistinctElems(t);
    var a, b := Elems(t), Elems(s);
    assert a == (a - b) + (a * b);
    assert b == (a * b) + (b - a);
    var x :| x in a - b;
    assert x in t;
  }

  /** The descent of `StuckNoOrder`: no vertex of an order can be missing from a stuck listing. */
  lemma {:induction false} MissingComesLater(adj: AdjLists, n: int, s: seq<int>, t: seq<int>, i: int)
    requires Stuck(adj, n, s) && AllIn(t, 1, n + 1) && 0 <= i < |t| && t[i] !in s
    ensures !Ordered(adj, t, n)
    decreases i
  {
    if Ordered(adj, t, n) {
      assert !Free(adj, n, s, t[i]);
      var x :| 0 <= x <= n && x < |adj| && t[i] in adj[x] && x !in s;
      assert x in t[..i];
      var j :| 0 <= j < i && t[j] == x;
      MissingComesLater(adj, n, s, t, j);
    }
  }

  /** `s` is the only topological order. */
  ghost predicate Unique(adj: AdjLists, n: int, s: seq<int>)
  {
    forall t :: Topological(adj, t, n) ==> t == s
  }

  /**
   * Each vertex of `q` was the only free vertex left when it was listed.
   */
  ghost predicate Forced(adj: AdjLists, n: int, q: seq<int>)
  {
    forall i, v :: 0 <= i < |q| && 1 <= v <= n && v !in q[..i] && Free(adj, n, q[..i], v) ==> v == q[i]
  }

  /** A complete order built with no choice is the only topological order. */
  lemma ForcedUnique(adj: AdjLists, n: int, q: seq<int>)
    requires Forced(adj, n, q) && Topological(adj, q, n)
    ensures Unique(adj, n, q)
  {
    forall t | Topological(adj, t, n) ensures t == q {
      ForcedPrefix(adj, n, q, t, n);
      assert t == t[..n] && q == q[..n];
    }
  }

  lemma {:induction false} ForcedPrefix(adj: AdjLists, n: int, q: seq<int>, t: seq<int>, k: int)
    requires Forced(adj, n, q) && Topological(adj, q, n) && Topological(adj, t, n) && 0 <= k <= n
    ensures t[..k] == q[..k]
    decreases k
  {
    if k > 0 {
      ForcedPrefix(adj, n, q, t, k - 1);
      var v := t[k - 1];
      assert t[..k - 1] == q[..k - 1];
      assert v !in q[..k - 1] by {
        forall j | 0 <= j < k - 1 ensures t[j] != v {
        }
      }
      assert Free(adj, n, q[..k - 1], v) by {
        forall x | 0 <= x <= n && x < |adj| && v in adj[x] ensures x in q[..k - 1] {
          assert x in t[..k - 1];
        }
      }
      assert t[..k] == t[..k - 1] + [v] && q[..k] == q[..k - 1] + [q[k - 1]];
    }
  }

  /**
   * The input `2 0` (two vertices, no arcs): both orders are topological, so
   * the order is not unique, yet any verdict the sort can give on it, an
   * `Outcome` that is a `Split` when `INSUFFICIENT`, is `CORRECT`.
   */
  lemma OrphansNotCompared(s: seq<int>, status: Status)
    requires Outcome(NoArcs(3), 2, s, status) && (status == Insufficient ==> Split(NoArcs(3), 2, s))
    ensures status == Correct
    ensures Topological(NoArcs(3), [1, 2], 2) && Topological(NoArcs(3), [2, 1], 2)
  {
    var adj := NoArcs(3);
    Unblocked(s);
    assert Ordered(adj, [1, 2], 2) && Ordered(adj, [2, 1], 2);
  }

  /** Without arcs every vertex is free, so a listing of fewer than two vertices is never stuck. */
  lemma Unblocked(s: seq<int>)
    requires Listing(NoArcs(3), s, 2)
    ensures !Stuck(NoArcs(3), 2, s)
  {
    if |s| < 2 {
      var v := if 1 in s then 2 else 1;
      assert v !in s;
      assert Free(NoArcs(3), 2, s, v);
    }
  }
}
