/**
 * One release of a dequeued vertex in the vertex-deletion sort of
 * proj/2016-2017/p1/src/proj.c, on values: the inner loop of `graph_sort`
 * over the targets of the vertex, and what it keeps of the sort's invariant.
 */
module KahnPass {
  import opened Seqs
  import opened LinkedGraph
  import opened KahnOrder
  import opened KahnState

  /** The counts and the queue a release leaves, the targets it did not read, and whether it stopped the sort. */
  datatype Pass = Pass(ind: seq<int>, q: seq<int>, rest: seq<int>, stop: bool)

  /**
   * Lines 154-167 over the targets `ts` still to read: each count drops by
   * one, a target whose count reaches 0 joins the queue and raises `found`
   * (`max_solutions`), and the release stops once `found` exceeds 1.
   */
  ghost function Drain(ind: seq<int>, q: seq<int>, ts: seq<int>, found: int): Pass
    requires AllIn(ts, 0, |ind|)
    decreases |ts|
  {
    if ts == [] then Pass(ind, q, [], false)
    else
      var v := ts[0];
      var freed := ind[v] == 1;
      var ind1, q1 := ind[v := ind[v] - 1], if freed then q + [v] else q;
      var found1 := if freed then found + 1 else found;
      if found1 > 1 then Pass(ind1, q1, ts[1..], true) else Drain(ind1, q1, ts[1..], found1)
  }

  /** Every vertex the release enqueues finds one of the `cap` slots of the queue free. */
  ghost predicate Fits(ind: seq<int>, q: seq<int>, ts: seq<int>, found: int, cap: int)
    requires AllIn(ts, 0, |ind|)
    decreases |ts|
  {
    ts == [] ||
    var v := ts[0];
    var freed := ind[v] == 1;
    var found1 := if freed then found + 1 else found;
    (freed ==> |q| < cap) &&
    (found1 > 1 || Fits(ind[v := ind[v] - 1], if freed then q + [v] else q, ts[1..], found1, cap))
  }

  /** One target read: the release either stops there or goes on from the new counts and queue. */
  lemma DrainStep(ind: seq<int>, q: seq<int>, ts: seq<int>, found: int, cap: int)
    requires AllIn(ts, 0, |ind|) && ts != []
    ensures AllIn(ts[1..], 0, |ind|)
    ensures ind[ts[0]] == 1 && found + 1 > 1 ==>
      Drain(ind, q, ts, found) == Pass(ind[ts[0] := ind[ts[0]] - 1], q + [ts[0]], ts[1..], true)
    ensures ind[ts[0]] == 1 && found + 1 <= 1 ==>
      Drain(ind, q, ts, found) == Drain(ind[ts[0] := ind[ts[0]] - 1], q + [ts[0]], ts[1..], found + 1)
    ensures ind[ts[0]] != 1 && found > 1 ==>
      Drain(ind, q, ts, found) == Pass(ind[ts[0] := ind[ts[0]] - 1], q, ts[1..], true)
    ensures ind[ts[0]] != 1 && found <= 1 ==>
      Drain(ind, q, ts, found) == Drain(ind[ts[0] := ind[ts[0]] - 1], q, ts[1..], found)
    ensures ind[ts[0]] == 1 && found + 1 <= 1 ==>
      (Fits(ind, q, ts, found, cap) <==> |q| < cap && Fits(ind[ts[0] := ind[ts[0]] - 1], q + [ts[0]], ts[1..], found + 1, cap))
    ensures ind[ts[0]] != 1 && found <= 1 ==>
      (Fits(ind, q, ts, found, cap) <==> Fits(ind[ts[0] := ind[ts[0]] - 1], q, ts[1..], found, cap))
    ensures ind[ts[0]] == 1 && found + 1 > 1 ==> (Fits(ind, q, ts, found, cap) <==> |q| < cap)
  {
  }

  /**
   * The sort's invariant after the release `p`, with the targets left
   * unread; a release that stops has freed two vertices after `q[..front]`.
   */
  ghost predicate Passed(adj: AdjLists, n: int, front: int, p: Pass)
  {
    Ready(adj, n, p.ind, p.q, front, p.rest) && (p.stop ==> Split(adj, n, p.q[..front])) && (!p.stop ==> p.rest == [])
  }

  /**
   * Releasing the targets `ts` of `u`, the vertex dequeued last, keeps the
   * sort's invariant and never overflows the queue; the queue only grows,
   * a release that reads every target does not stop, and one that stops has
   * freed two targets of `u` at once.  `q0` is the queue before the release
   * began and `found` the number of vertices it has enqueued so far.
   */
  lemma {:induction false} ReadyDrain(adj: AdjLists, n: int, ind: seq<int>, q: seq<int>, front: int, ts: seq<int>,
                                      found: int, u: int, q0: seq<int>)
    requires Ready(adj, n, ind, q, front, ts)
    requires 1 <= front <= |q0| && q0[front - 1] == u && 0 <= u < |adj|
    requires q0 <= q && |q| == |q0| + found && 0 <= found <= 1
    requires forall j :: |q0| <= j < |q| ==> q[j] in adj[u]
    requires forall i :: 0 <= i < |ts| ==> ts[i] in adj[u]
    ensures AllIn(ts, 0, |ind|) && Fits(ind, q, ts, found, n)
    ensures Passed(adj, n, front, Drain(ind, q, ts, found)) == true && q <= Drain(ind, q, ts, found).q
    decreases |ts|, 1
  {
    if ts == [] {
      assert Drain(ind, q, ts, found) == Pass(ind, q, [], false);
    } else if ind[ts[0]] != 1 {
      DrainKeep(adj, n, ind, q, front, ts, found, u, q0);
    } else if found == 0 {
      DrainFree(adj, n, ind, q, front, ts, u, q0);
    } else {
      DrainStop(adj, n, ind, q, front, ts, u, q0);
    }
  }

  /** The next target keeps a positive count: nothing is enqueued. */
  lemma {:induction false} DrainKeep(adj: AdjLists, n: int, ind: seq<int>, q: seq<int>, front: int, ts: seq<int>,
                                     found: int, u: int, q0: seq<int>)
    requires Ready(adj, n, ind, q, front, ts) && ts != [] && ind[ts[0]] != 1
    requires 1 <= front <= |q0| && q0[front - 1] == u && 0 <= u < |adj|
    requires q0 <= q && |q| == |q0| + found && 0 <= found <= 1
    requires forall j :: |q0| <= j < |q| ==> q[j] in adj[u]
    requires forall i :: 0 <= i < |ts| ==> ts[i] in adj[u]
    ensures AllIn(ts, 0, |ind|) && Fits(ind, q, ts, found, n)
    ensures Passed(adj, n, front, Drain(ind, q, ts, found)) == true && q <= Drain(ind, q, ts, found).q
    decreases |ts|, 0
  {
    ReadyRelease(adj, n, ind, q, front, ts);
    DrainStep(ind, q, ts, found, n);
    ReadyDrain(adj, n, ind[ts[0] := ind[ts[0]] - 1], q, front, ts[1..], found, u, q0);
  }

  /** The next target's count reaches 0 and it is the first vertex this release enqueues. */
  lemma {:induction false} DrainFree(adj: AdjLists, n: int, ind: seq<int>, q: seq<int>, front: int, ts: seq<int>,
                                     u: int, q0: seq<int>)
    requires Ready(adj, n, ind, q, front, ts) && ts != [] && ind[ts[0]] == 1
    requires 1 <= front <= |q0| && q0[front - 1] == u && 0 <= u < |adj|
    requires q0 == q
    requires forall i :: 0 <= i < |ts| ==> ts[i] in adj[u]
    ensures AllIn(ts, 0, |ind|) && Fits(ind, q, ts, 0, n)
    ensures Passed(adj, n, front, Drain(ind, q, ts, 0)) == true && q <= Drain(ind, q, ts, 0).q
    decreases |ts|, 0
  {
    ReadyRelease(adj, n, ind, q, front, ts);
    DrainStep(ind, q, ts, 0, n);
    var q1 := q + [ts[0]];
    assert q0 <= q1 && q1[|q0|] == ts[0];
    ReadyDrain(adj, n, ind[ts[0] := ind[ts[0]] - 1], q1, front, ts[1..], 1, u, q0);
  }

  /** The next target is the second vertex this release enqueues: the sort stops. */
  lemma DrainStop(adj: AdjLists, n: int, ind: seq<int>, q: seq<int>, front: int, ts: seq<int>,
                  u: int, q0: seq<int>)
    requires Ready(adj, n, ind, q, front, ts) && ts != [] && ind[ts[0]] == 1
    requires 1 <= front <= |q0| && q0[front - 1] == u && 0 <= u < |adj|
    requires q0 <= q && |q| == |q0| + 1 && q[|q0|] in adj[u]
    requires forall i :: 0 <= i < |ts| ==> ts[i] in adj[u]
    ensures AllIn(ts, 0, |ind|) && Fits(ind, q, ts, 1, n)
    ensures Passed(adj, n, front, Drain(ind, q, ts, 1)) == true && q <= Drain(ind, q, ts, 1).q
  {
    ReadyRelease(adj, n, ind, q, front, ts);
    DrainStep(ind, q, ts, 1, n);
    var q1 := q + [ts[0]];
    assert q1[|q0|] == q[|q0|] && q1[|q0| + 1] == ts[0];
    Freed(adj, n, ind[ts[0] := ind[ts[0]] - 1], q1, front, ts[1..], u, |q0|, |q0| + 1);
  }

  /**
   * Taking the vertex at the head of the queue and releasing all its
   * targets keeps the sort's invariant and fits the `n` slots of the queue.
   */
  lemma TakeReady(adj: AdjLists, n: int, ind: seq<int>, q: seq<int>, front: int)
    requires Ready(adj, n, ind, q, front, []) == true && front < |q|
    ensures 1 <= q[front] <= n && q[front] < |adj|
    ensures AllIn(adj[q[front]], 0, |ind|) && Fits(ind, q, adj[q[front]], 0, n)
    ensures Passed(adj, n, front + 1, Drain(ind, q, adj[q[front]], 0)) == true && q <= Drain(ind, q, adj[q[front]], 0).q
  {
    var u := q[front];
    ReadyTake(adj, n, ind, q, front);
    ReadyDrain(adj, n, ind, q, front + 1, adj[u], 0, u, q);
  }

  /**
   * The verdict `graph_sort` gives once its loop ends, lines 162-173: a
   * release that stopped leaves `INSUFFICIENT` with two free targets, a
   * drained queue of `n` vertices `CORRECT`, a shorter one `INCOHERENT`.
   */
  lemma Settle(adj: AdjLists, n: int, p: Pass, front: int, s: seq<int>, status: Status)
    requires Passed(adj, n, front, p) == true && (!p.stop ==> front == |p.q|)
    requires 0 <= front <= |p.q| && s == p.q[..front]
    requires status == if p.stop then Insufficient else if front == n then Correct else Incoherent
    ensures Outcome(adj, n, s, status) && (status == Insufficient ==> Split(adj, n, s))
  {
    if p.stop {
      Halt(adj, n, p.ind, p.q, front, p.rest);
    } else {
      assert p.q[..front] == p.q;
      Finish(adj, n, p.ind, p.q);
    }
  }

  /**
   * The corrected verdict: also `INSUFFICIENT` when two vertices wait at
   * once, and a `CORRECT` order, each vertex of which was forced, is the
   * only topological order.
   */
  lemma SettleUnique(adj: AdjLists, n: int, p: Pass, front: int, crowd: bool, s: seq<int>, status: Status)
    requires Passed(adj, n, front, p) == true && 0 <= front <= |p.q| && s == p.q[..front] && Forced(adj, n, s)
    requires crowd ==> !p.stop && front + 1 < |p.q|
    requires !p.stop && !crowd ==> front == |p.q|
    requires status == if p.stop || crowd then Insufficient else if front == n then Correct else Incoherent
    ensures Outcome(adj, n, s, status) && (status == Correct ==> Unique(adj, n, s))
  {
    if p.stop {
      Halt(adj, n, p.ind, p.q, front, p.rest);
    } else if crowd {
      Crowd(adj, n, p.ind, p.q, front);
    } else {
      assert p.q[..front] == p.q;
      Finish(adj, n, p.ind, p.q);
      if front == n {
        ForcedUnique(adj, n, p.q);
      }
    }
  }
}
