/**
 * Walks and reachability over adjacency lists `adj`, where `adj[x]` lists
 * the targets of the arcs out of `x`.
 */
module Reachability {
  /** `p` is a walk: each vertex after the first is a target of the one before. */
  ghost predicate Walk(adj: seq<seq<int>>, p: seq<int>)
  {
    |p| >= 1 && forall i :: 0 <= i < |p| - 1 ==> 0 <= p[i] < |adj| && p[i + 1] in adj[p[i]]
  }

  /** Some walk leads from `x` to `y`. */
  ghost predicate Reach(adj: seq<seq<int>>, x: int, y: int)
  {
    exists p :: Walk(adj, p) && p[0] == x && p[|p| - 1] == y
  }

  /** `x` and `y` reach each other: they lie in one strongly connected component. */
  ghost predicate Mutual(adj: seq<seq<int>>, x: int, y: int)
  {
    Reach(adj, x, y) && Reach(adj, y, x)
  }

  lemma ReachRefl(adj: seq<seq<int>>, x: int)
    ensures Reach(adj, x, x)
  {
    assert Walk(adj, [x]);
  }

  lemma ReachArc(adj: seq<seq<int>>, x: int, y: int)
    requires 0 <= x < |adj| && y in adj[x]
    ensures Reach(adj, x, y)
  {
    assert Walk(adj, [x, y]);
  }

  /** Walks compose: the second is appended without its first vertex. */
  lemma ReachTrans(adj: seq<seq<int>>, x: int, y: int, z: int)
    requires Reach(adj, x, y) && Reach(adj, y, z)
    ensures Reach(adj, x, z)
  {
    var p :| Walk(adj, p) && p[0] == x && p[|p| - 1] == y;
    var q :| Walk(adj, q) && q[0] == y && q[|q| - 1] == z;
    var r := p + q[1..];
    forall i | 0 <= i < |r| - 1 ensures 0 <= r[i] < |adj| && r[i + 1] in adj[r[i]] {
      if i < |p| - 1 {
        assert r[i] == p[i] && r[i + 1] == p[i + 1];
      } else {
        assert r[i] == q[i - |p| + 1] && r[i + 1] == q[i - |p| + 2];
      }
    }
    assert Walk(adj, r);
  }

  /** A walk's last arc: a vertex reached from `x` passes its reach on to its targets. */
  lemma ReachThenArc(adj: seq<seq<int>>, x: int, y: int, z: int)
    requires Reach(adj, x, y) && 0 <= y < |adj| && z in adj[y]
    ensures Reach(adj, x, z)
  {
    ReachArc(adj, y, z);
    ReachTrans(adj, x, y, z);
  }

  /** A set of vertices that no arc leaves holds every vertex reached from it. */
  lemma {:induction false} ClosedReach(adj: seq<seq<int>>, inside: set<int>, x: int, y: int)
    requires forall a, b :: a in inside && 0 <= a < |adj| && b in adj[a] ==> b in inside
    requires x in inside && Reach(adj, x, y)
    ensures y in inside
  {
    var p :| Walk(adj, p) && p[0] == x && p[|p| - 1] == y;
    var i := 0;
    while i < |p| - 1
      invariant 0 <= i <= |p| - 1 && p[i] in inside
    {
      i := i + 1;
    }
  }
}
