/**
 * The residual network of proj/2020-2021/p2/src/proj.cpp: vertices
 * `0..N + 1`, with `SOURCE` = 0 and `SINK` = N + 1; edges are stored in the
 * array `edge` from index 1 on, chained per tail vertex through `first` and
 * `next` (module Chains), and `prev[e]` names the edge whose residual gains
 * what `e` loses.  A connection whose target the tail already lists is
 * dropped; a bidirectional connection also stores the reverse edge.  As
 * written (`ConnectAsWritten`) only that reverse edge gets a `prev` entry,
 * pointing back at the forward edge, and forward edges keep `prev` 0, so
 * what they lose is credited to the unused slot 0; the corrected `Connect`,
 * which the network is built with, pairs both edges.
 */
module FlowNet {
  import opened Seqs
  import opened Chains
  import opened LinkedGraph
  import opened PixelNet
  import opened PixelSearch
  import opened PixelAugment
  import opened FlowSearch

  /** Lines 15-26: an edge `u -> v` with its residual capacity; `Edge()` is all zero. */
  datatype Edge = Edge(u: int, v: int, residual: int)

  /** Lines 31-33, `operator==`: the same endpoints, whatever the residuals. */
  function Same(a: Edge, b: Edge): (r: bool)
    ensures r <==> a.(residual := 0) == b.(residual := 0)
  {
    a.u == b.u && a.v == b.v
  }

  /** Lines 28-30, `operator!=`: some endpoint differs. */
  function Differ(a: Edge, b: Edge): (r: bool)
    ensures r <==> a.u != b.u || a.v != b.v
    ensures r <==> a.(residual := 0) != b.(residual := 0)
  {
    !Same(a, b)
  }

  /** The target of every edge slot. */
  function Heads(es: seq<Edge>): (r: seq<int>)
    ensures |r| == |es| && forall i :: 0 <= i < |es| ==> r[i] == es[i].v
  {
    seq(|es|, i requires 0 <= i < |es| => es[i].v)
  }

  /** The tail of every edge slot. */
  function Starts(es: seq<Edge>): (r: seq<int>)
    ensures |r| == |es| && forall i :: 0 <= i < |es| ==> r[i] == es[i].u
  {
    seq(|es|, i requires 0 <= i < |es| => es[i].u)
  }

  /** The residual of every edge slot. */
  function Residuals(es: seq<Edge>): (r: seq<int>)
    ensures |r| == |es| && forall i :: 0 <= i < |es| ==> r[i] == es[i].residual
  {
    seq(|es|, i requires 0 <= i < |es| => es[i].residual)
  }

  /**
   * `prev` of each edge `1..n` is 0 or an edge `1..n` joining the same two
   * vertices the other way; the slots past `n` are 0.
   */
  ghost predicate Paired(pv: seq<int>, hs: seq<int>, owner: seq<int>, n: int)
  {
    && |pv| == |hs| && |owner| == |hs| && 0 <= n < |pv|
    && (forall e :: 1 <= e <= n ==> Reverse(pv[e], hs[e], owner[e], owner, hs, n))
    && (forall e :: n < e < |pv| ==> pv[e] == 0)
  }

  /**
   * The store on the arrays' contents: `first`/`next` chain the edges `1..n`
   * by tail (targets `hs`, no target twice per tail), every edge is on its
   * tail's chain, all endpoints are vertices `0..t`, the recorded tails `ts`
   * are the chain owners, and `prev` pairs edges as above.
   */
  ghost predicate Stored(f: seq<int>, x: seq<int>, pv: seq<int>, hs: seq<int>, ts: seq<int>,
                         chains: seq<seq<int>>, owner: seq<int>, n: int, t: int)
  {
    && Store(f, x, hs, chains, owner, n)
    && |f| == t + 1 && |ts| == |hs|
    && Complete(chains, owner, n) && Ranged(owner, hs, n, t)
    && (forall e :: 1 <= e <= n ==> ts[e] == owner[e])
    && Paired(pv, hs, owner, n)
  }

  /**
   * `Stored` behind `depth` steps of recursion: the verifier expands a
   * recursive predicate only a step where it meets it, so contracts that
   * hand `SealedStored(d, ...)` on, for a `d` that is not a literal, do not
   * expand the store invariant; `UnsealStored` and `SealStored` convert it.
   */
  ghost predicate SealedStored(depth: int, f: seq<int>, x: seq<int>, pv: seq<int>, hs: seq<int>, ts: seq<int>,
                               chains: seq<seq<int>>, owner: seq<int>, n: int, t: int)
    decreases if depth < 0 then 0 else depth
  {
    if depth <= 0 then Stored(f, x, pv, hs, ts, chains, owner, n, t)
    else SealedStored(depth - 1, f, x, pv, hs, ts, chains, owner, n, t)
  }

  lemma {:induction false} UnsealStored(depth: int, f: seq<int>, x: seq<int>, pv: seq<int>, hs: seq<int>, ts: seq<int>,
                                        chains: seq<seq<int>>, owner: seq<int>, n: int, t: int)
    requires SealedStored(depth, f, x, pv, hs, ts, chains, owner, n, t)
    ensures Stored(f, x, pv, hs, ts, chains, owner, n, t)
    decreases if depth < 0 then 0 else depth
  {
    if depth > 0 {
      UnsealStored(depth - 1, f, x, pv, hs, ts, chains, owner, n, t);
    }
  }

  lemma {:induction false} SealStored(depth: int, f: seq<int>, x: seq<int>, pv: seq<int>, hs: seq<int>, ts: seq<int>,
                                      chains: seq<seq<int>>, owner: seq<int>, n: int, t: int)
    requires Stored(f, x, pv, hs, ts, chains, owner, n, t) == true
    ensures SealedStored(depth, f, x, pv, hs, ts, chains, owner, n, t)
    decreases if depth < 0 then 0 else depth
  {
    if depth > 0 {
      SealStored(depth - 1, f, x, pv, hs, ts, chains, owner, n, t);
    }
  }

  /** `StoredPair` behind the seal. */
  lemma SealedPair(depth: int, f: seq<int>, x: seq<int>, pv: seq<int>, hs: seq<int>, ts: seq<int>,
                   chains: seq<seq<int>>, owner: seq<int>, n: int, t: int)
    requires SealedStored(depth, f, x, pv, hs, ts, chains, owner, n, t) && 2 <= n < |ts| == |hs| == |pv|
    requires ts[n - 1] == hs[n] && hs[n - 1] == ts[n]
    ensures SealedStored(depth, f, x, pv[n := n - 1], hs, ts, chains, owner, n, t)
  {
    UnsealStored(depth, f, x, pv, hs, ts, chains, owner, n, t);
    StoredPair(f, x, pv, hs, ts, chains, owner, n, t);
    SealStored(depth, f, x, pv[n := n - 1], hs, ts, chains, owner, n, t);
  }

  /** What the search of lines 134-138 reads: the head of `u`'s chain and the chain itself. */
  lemma StoredRead(f: seq<int>, x: seq<int>, pv: seq<int>, hs: seq<int>, ts: seq<int>,
                   chains: seq<seq<int>>, owner: seq<int>, n: int, t: int, u: int)
    requires Stored(f, x, pv, hs, ts, chains, owner, n, t) == true && 0 <= u <= t
    ensures (f[u] == 0 <==> chains[u] == []) && f[u] == Head(chains[u])
    ensures ChainAt(x, hs, chains[u], Targets(chains, hs)[u])
    ensures chains[u] != [] ==> 0 <= chains[u][|chains[u]| - 1] < |x|
  {
    StoreHead(f, x, hs, chains, owner, n, u);
    StoreRead(f, x, hs, chains, owner, n, u);
  }

  /** Edge `n + 1`, from `u` to `v`, linked at the tail of `u`'s chain. */
  lemma StoredAppend(f: seq<int>, x: seq<int>, pv: seq<int>, hs: seq<int>, ts: seq<int>,
                     chains: seq<seq<int>>, owner: seq<int>, n: int, t: int, u: int, v: int)
    requires Stored(f, x, pv, hs, ts, chains, owner, n, t) == true && 0 <= u <= t && 0 <= v <= t && n + 1 < |x|
    requires v !in Targets(chains, hs)[u]
    ensures Stored(LinkFirst(f, chains[u], u, n + 1), LinkNext(x, chains[u], n + 1), pv, hs[n + 1 := v], ts[n + 1 := u],
                   chains[u := chains[u] + [n + 1]], owner[n + 1 := u], n + 1, t)
    ensures Targets(chains[u := chains[u] + [n + 1]], hs[n + 1 := v]) == Add(Targets(chains, hs), u, v)
  {
    var hs', ts', owner' := hs[n + 1 := v], ts[n + 1 := u], owner[n + 1 := u];
    StoreAppend(f, x, hs, chains, owner, n, u, v);
    CompleteAppend(chains, owner, n, u);
    TailsAppend(owner, hs, ts, n, t, u, v, owner', hs', ts');
    PairedAppend(pv, hs, owner, n, u, v);
  }

  /** Writing edge slot `i` changes the target and tail at `i` only. */
  lemma HeadsUpdate(es: seq<Edge>, i: int, e: Edge)
    requires 0 <= i < |es|
    ensures Heads(es[i := e]) == Heads(es)[i := e.v] && Starts(es[i := e]) == Starts(es)[i := e.u]
  {
    assert Heads(es[i := e]) == Heads(es)[i := e.v];
    assert Starts(es[i := e]) == Starts(es)[i := e.u];
  }

  /** `StoredAppend` on the edge array itself, sealed as `Network.Valid` keeps it. */
  lemma SealedAppend(f0: seq<int>, x0: seq<int>, p0: seq<int>, e0: seq<Edge>, c0: seq<seq<int>>, o0: seq<int>, n: int, t: int,
                     u: int, v: int, w: int, f: seq<int>, x: seq<int>, pv: seq<int>, es: seq<Edge>, chains: seq<seq<int>>, owner: seq<int>)
    requires Stored(f0, x0, p0, Heads(e0), Starts(e0), c0, o0, n, t) == true
    requires 0 <= u <= t && 0 <= v <= t && n + 1 < |x0| && v !in Targets(c0, Heads(e0))[u]
    requires f == LinkFirst(f0, c0[u], u, n + 1) && x == LinkNext(x0, c0[u], n + 1) && pv == p0
    requires es == e0[n + 1 := Edge(u, v, w)] && chains == c0[u := c0[u] + [n + 1]] && owner == o0[n + 1 := u]
    ensures SealedStored(t, f, x, pv, Heads(es), Starts(es), chains, owner, n + 1, t)
    ensures Targets(chains, Heads(es)) == Add(Targets(c0, Heads(e0)), u, v)
  {
    HeadsUpdate(e0, n + 1, Edge(u, v, w));
    StoredAppend(f0, x0, p0, Heads(e0), Starts(e0), c0, o0, n, t, u, v);
    SealStored(t, f, x, pv, Heads(es), Starts(es), chains, owner, n + 1, t);
  }

  /** Edge `n + 1`, from `u` to `v`, keeps the endpoints in range and its recorded tail is its owner. */
  lemma TailsAppend(owner: seq<int>, hs: seq<int>, ts: seq<int>, n: int, t: int, u: int, v: int,
                    owner': seq<int>, hs': seq<int>, ts': seq<int>)
    requires 0 <= u <= t && 0 <= v <= t && n + 1 < |owner| == |hs| == |ts|
    requires Ranged(owner, hs, n, t) && (forall e :: 1 <= e <= n ==> ts[e] == owner[e])
    requires owner' == owner[n + 1 := u] && hs' == hs[n + 1 := v] && ts' == ts[n + 1 := u]
    ensures Ranged(owner', hs', n + 1, t)
    ensures forall e :: 1 <= e <= n + 1 ==> ts'[e] == owner'[e]
  {
  }

  /** An edge `n + 1` with `prev` 0 keeps the pairing. */
  lemma PairedAppend(pv: seq<int>, hs: seq<int>, owner: seq<int>, n: int, u: int, v: int)
    requires Paired(pv, hs, owner, n) && n + 1 < |pv|
    ensures Paired(pv, hs[n + 1 := v], owner[n + 1 := u], n + 1)
  {
    var hs', owner' := hs[n + 1 := v], owner[n + 1 := u];
    forall e | 1 <= e <= n + 1 ensures Reverse(pv[e], hs'[e], owner'[e], owner', hs', n + 1) {
      if e <= n {
        assert Reverse(pv[e], hs[e], owner[e], owner, hs, n);
      }
    }
  }

  /** Line 150: the reverse edge `n` gets the forward edge `n - 1` as its `prev`. */
  lemma StoredPair(f: seq<int>, x: seq<int>, pv: seq<int>, hs: seq<int>, ts: seq<int>,
                   chains: seq<seq<int>>, owner: seq<int>, n: int, t: int)
    requires Stored(f, x, pv, hs, ts, chains, owner, n, t) == true && 2 <= n
    requires ts[n - 1] == hs[n] && hs[n - 1] == ts[n]
    ensures Stored(f, x, pv[n := n - 1], hs, ts, chains, owner, n, t)
  {
    PairedLast(pv, hs, owner, n);
  }

  /** Edge `n` may take `n - 1`, its reverse, as its `prev`. */
  lemma PairedLast(pv: seq<int>, hs: seq<int>, owner: seq<int>, n: int)
    requires Paired(pv, hs, owner, n) && 2 <= n
    requires owner[n - 1] == hs[n] && hs[n - 1] == owner[n]
    ensures Paired(pv[n := n - 1], hs, owner, n)
  {
    var pv' := pv[n := n - 1];
    forall e | 1 <= e <= n ensures Reverse(pv'[e], hs[e], owner[e], owner, hs, n) {
      if e < n {
        assert Reverse(pv[e], hs[e], owner[e], owner, hs, n);
      }
    }
  }

  /** Corrected line 150: edge `n - 1` may take `n`, its reverse, as its `prev`. */
  lemma PairedFirst(pv: seq<int>, hs: seq<int>, owner: seq<int>, n: int)
    requires Paired(pv, hs, owner, n) && 2 <= n
    requires owner[n - 1] == hs[n] && hs[n - 1] == owner[n]
    ensures Paired(pv[n - 1 := n], hs, owner, n)
  {
    var pv' := pv[n - 1 := n];
    forall e | 1 <= e <= n ensures Reverse(pv'[e], hs[e], owner[e], owner, hs, n) {
      if e != n - 1 {
        assert Reverse(pv[e], hs[e], owner[e], owner, hs, n);
      }
    }
  }

  /** Corrected line 150: the forward edge `n - 1` gets the reverse edge `n` as its `prev`. */
  lemma SealedPairFirst(depth: int, f: seq<int>, x: seq<int>, pv: seq<int>, hs: seq<int>, ts: seq<int>,
                        chains: seq<seq<int>>, owner: seq<int>, n: int, t: int)
    requires SealedStored(depth, f, x, pv, hs, ts, chains, owner, n, t) && 2 <= n < |ts| == |hs| == |pv|
    requires ts[n - 1] == hs[n] && hs[n - 1] == ts[n]
    ensures SealedStored(depth, f, x, pv[n - 1 := n], hs, ts, chains, owner, n, t)
  {
    UnsealStored(depth, f, x, pv, hs, ts, chains, owner, n, t);
    PairedFirst(pv, hs, owner, n);
    SealStored(depth, f, x, pv[n - 1 := n], hs, ts, chains, owner, n, t);
  }

  /** What the scan of `u`'s chain in `BFS` reads off the store. */
  lemma StoredScan(f: seq<int>, x: seq<int>, pv: seq<int>, hs: seq<int>, ts: seq<int>,
                   chains: seq<seq<int>>, owner: seq<int>, n: int, t: int, u: int)
    requires Stored(f, x, pv, hs, ts, chains, owner, n, t) == true && 0 <= u <= t
    ensures Scannable(f, x, hs, chains[u], owner, n, t, u)
  {
    StoredRead(f, x, pv, hs, ts, chains, owner, n, t, u);
    forall k | 0 <= k < |chains[u]| ensures 1 <= chains[u][k] <= n && owner[chains[u][k]] == u && 0 <= hs[chains[u][k]] <= t {
    }
  }

  /** Changing the residual of one slot keeps every target and tail, and changes that residual only. */
  lemma Rewrite(es: seq<Edge>, i: int, r: int)
    requires 0 <= i < |es|
    ensures Heads(es[i := es[i].(residual := r)]) == Heads(es) && Starts(es[i := es[i].(residual := r)]) == Starts(es)
    ensures Residuals(es[i := es[i].(residual := r)]) == Residuals(es)[i := r]
  {
  }

  /** Lines 229-237 on the slots: `a` loses `df`, then `b`, another slot, gains it. */
  function Push(es: seq<Edge>, a: int, b: int, df: int): (r: seq<Edge>)
    requires 0 <= a < |es| && 0 <= b < |es| && a != b
    ensures |r| == |es|
  {
    es[a := es[a].(residual := es[a].residual - df)][b := es[b].(residual := es[b].residual + df)]
  }

  /** A push keeps every target and tail and is the step of the augmentation on the residuals. */
  lemma PushResiduals(es: seq<Edge>, a: int, b: int, df: int)
    requires 0 <= a < |es| && 0 <= b < |es| && a != b
    ensures Heads(Push(es, a, b, df)) == Heads(es) && Starts(Push(es, a, b, df)) == Starts(es)
    ensures Residuals(Push(es, a, b, df)) == AugmentStep(Residuals(es), a, b, df)
  {
    var es1 := es[a := es[a].(residual := es[a].residual - df)];
    Rewrite(es, a, es[a].residual - df);
    Rewrite(es1, b, es[b].residual + df);
  }

  /** Lines 234-235: slot `a` loses `df`, then slot `b` gains it. */
  method Shift(edge: array<Edge>, a: int, b: int, df: int)
    requires 0 <= a < edge.Length && 0 <= b < edge.Length && a != b
    modifies edge
    ensures edge[..] == Push(old(edge[..]), a, b, df)
  {
    edge[a] := edge[a].(residual := edge[a].residual - df);
    edge[b] := edge[b].(residual := edge[b].residual + df);
  }

  /** The zeroed arrays of lines 71-83 hold the empty store. */
  lemma StoredEmpty(f: seq<int>, x: seq<int>, pv: seq<int>, es: seq<Edge>, t: int)
    requires 0 <= t && |f| == t + 1 && |x| >= 1 && |pv| == |x| && |es| == |x|
    requires forall u :: 0 <= u < |f| ==> f[u] == 0
    requires forall e :: 0 <= e < |x| ==> x[e] == 0 && pv[e] == 0 && es[e] == Edge(0, 0, 0)
    ensures Stored(f, x, pv, Heads(es), Starts(es), EmptyChains(|f|), NoOwners(|x|), 0, t)
    ensures Targets(EmptyChains(|f|), Heads(es)) == NoArcs(|f|)
  {
    StoreEmpty(f, x, Heads(es), NoOwners(|x|));
  }

  /**
   * The edges one connection `u -> v` of weight `w` appends (lines
   * 130-155): none when `u` already lists `v`; else `u -> v`, followed,
   * when bidirectional and `v` does not list `u` yet, by `v -> u` with the
   * same weight.
   */
  function Links(adj: AdjLists, u: int, v: int, w: int, bidir: bool): (r: seq<Edge>)
    requires 0 <= u < |adj| && 0 <= v < |adj|
    ensures |r| <= 2 && |r| == |PrevLinks(adj, u, v, bidir, 0)|
  {
    if v in adj[u] then []
    else if bidir && u !in Add(adj, u, v)[v] then [Edge(u, v, w), Edge(v, u, w)]
    else [Edge(u, v, w)]
  }

  /**
   * The `prev` entries those edges get, as line 150 evidently intends: when
   * both are stored, `u -> v` (index `n + 1`) and `v -> u` (index `n + 2`)
   * name each other; a lone edge keeps 0.
   */
  function PrevLinks(adj: AdjLists, u: int, v: int, bidir: bool, n: int): (r: seq<int>)
    requires 0 <= u < |adj| && 0 <= v < |adj|
  {
    if v in adj[u] then []
    else if bidir && u !in Add(adj, u, v)[v] then [n + 2, n + 1]
    else [0]
  }

  /** The `prev` entries as line 150 writes them: 0 for `u -> v`, and `n + 1`, the index of `u -> v`, for `v -> u`. */
  function PrevLinksAsWritten(adj: AdjLists, u: int, v: int, bidir: bool, n: int): (r: seq<int>)
    requires 0 <= u < |adj| && 0 <= v < |adj|
  {
    if v in adj[u] then []
    else if bidir && u !in Add(adj, u, v)[v] then [0, n + 1]
    else [0]
  }

  /**
   * Corrected: once a connection stored both of its edges, pushing `df`
   * along either one moves it to the other, so the pair's residual total
   * stays what it was.
   */
  lemma PairConserved(s: Snapshot, c: Conn, res: seq<int>, df: int, a: int)
    requires 0 <= c.u < |s.adj| && 0 <= c.v < |s.adj| && |s.prevs| == |s.edges| >= 1
    requires |Links(s.adj, c.u, c.v, c.w, true)| == 2
    requires (a == |s.edges| || a == |s.edges| + 1) && |res| == |s.edges| + 2
    ensures var r, m := Extend(s, c), |s.edges|;
            && 0 <= r.prevs[a] < |res| && r.prevs[a] != a && (r.prevs[a] == m || r.prevs[a] == m + 1)
            && AugmentStep(res, a, r.prevs[a], df)[m] + AugmentStep(res, a, r.prevs[a], df)[m + 1] == res[m] + res[m + 1]
  {
    var r, m := Extend(s, c), |s.edges|;
    assert r.prevs[m] == m + 1 && r.prevs[m + 1] == m;
  }

  /**
   * As written: the forward edge of a connection keeps `prev` 0, so pushing
   * `df` along it credits slot 0 and the pair's residual total drops by
   * `df`.
   */
  lemma PairLostAsWritten(s: Snapshot, c: Conn, res: seq<int>, df: int)
    requires 0 <= c.u < |s.adj| && 0 <= c.v < |s.adj| && |s.prevs| == |s.edges| >= 1
    requires |Links(s.adj, c.u, c.v, c.w, true)| == 2 && |res| == |s.edges| + 2
    ensures var p, m := s.prevs + PrevLinksAsWritten(s.adj, c.u, c.v, true, |s.edges| - 1), |s.edges|;
            && p[m] == 0 && p[m + 1] == m
            && AugmentStep(res, m, p[m], df)[m] + AugmentStep(res, m, p[m], df)[m + 1] == res[m] + res[m + 1] - df
  {
    var p, m := s.prevs + PrevLinksAsWritten(s.adj, c.u, c.v, true, |s.edges| - 1), |s.edges|;
    assert p[m] == 0;
  }

  /** A connection as read by lines 86-98: tail, target, weight. */
  datatype Conn = Conn(u: int, v: int, w: int)

  /** Every connection joins two of the `count` vertices. */
  ghost predicate ConnsIn(cs: seq<Conn>, count: int)
  {
    forall i :: 0 <= i < |cs| ==> 0 <= cs[i].u < count && 0 <= cs[i].v < count
  }

  /** The adjacency lists, the edge slots `0..n` and their `prev` entries. */
  datatype Snapshot = Snapshot(adj: AdjLists, edges: seq<Edge>, prevs: seq<int>)

  /** What one bidirectional connection `c` does to the lists, the slots in use and their `prev` entries. */
  function Extend(s: Snapshot, c: Conn): (r: Snapshot)
    requires 0 <= c.u < |s.adj| && 0 <= c.v < |s.adj|
    ensures |r.adj| == |s.adj| && |s.edges| <= |r.edges| <= |s.edges| + 2 && |r.prevs| - |s.prevs| == |r.edges| - |s.edges|
  {
    Snapshot(ConnectSpec(s.adj, c.u, c.v, true),
             s.edges + Links(s.adj, c.u, c.v, c.w, true),
             s.prevs + PrevLinks(s.adj, c.u, c.v, true, |s.edges| - 1))
  }

  /** What the bidirectional connections `cs`, made in order on the empty store of `count` vertices, leave. */
  function Replay(count: nat, cs: seq<Conn>): (r: Snapshot)
    requires ConnsIn(cs, count)
    ensures |r.adj| == count && 1 <= |r.edges| <= 2 * |cs| + 1 && |r.prevs| == |r.edges|
  {
    if cs == [] then Snapshot(NoArcs(count), [Edge(0, 0, 0)], [0])
    else Extend(Replay(count, cs[..|cs| - 1]), cs[|cs| - 1])
  }

  /** Lines 86-91: `SOURCE -> u` with `w_xu` and `u -> SINK` with `w_uy`, for `u` = 1..i. */
  function TermConns(n: int, terminals: seq<(int, int)>, i: nat): (r: seq<Conn>)
    requires i <= |terminals|
    ensures |r| == 2 * i
  {
    if i == 0 then []
    else TermConns(n, terminals, i - 1) + [Conn(0, i, terminals[i - 1].0), Conn(i, n + 1, terminals[i - 1].1)]
  }

  /** The connections of vertex `j = i + 1`, with weights `wx` and `wy`, appended to those of `1..i`. */
  lemma TermConnsNext(n: int, terminals: seq<(int, int)>, i: nat, j: nat, wx: int, wy: int)
    requires i < |terminals| && j == i + 1 && wx == terminals[i].0 && wy == terminals[i].1
    ensures TermConns(n, terminals, j) == TermConns(n, terminals, i) + [Conn(0, j, wx)] + [Conn(j, n + 1, wy)]
  {
  }

  /** Every connection lines 86-98 make, in order. */
  function Conns(n: int, terminals: seq<(int, int)>, links: seq<Conn>): (r: seq<Conn>)
    requires n == |terminals|
    ensures |r| == 2 * n + |links|
  {
    TermConns(n, terminals, n) + links
  }

  /** The terminal connections join vertices of `0..n + 1`. */
  lemma TermConnsIn(n: int, terminals: seq<(int, int)>, i: nat)
    requires i <= |terminals| == n
    ensures ConnsIn(TermConns(n, terminals, i), n + 2)
  {
    if i > 0 {
      TermConnsIn(n, terminals, i - 1);
    }
  }

  /** The input connections join vertices of `1..n`. */
  ghost predicate Inner(links: seq<Conn>, n: int)
  {
    forall i :: 0 <= i < |links| ==> 1 <= links[i].u <= n && 1 <= links[i].v <= n
  }

  lemma ConnsInAll(n: int, terminals: seq<(int, int)>, links: seq<Conn>)
    requires n == |terminals| && Inner(links, n)
    ensures ConnsIn(Conns(n, terminals, links), n + 2)
  {
    TermConnsIn(n, terminals, n);
  }

  /** Bidirectional connections keep the lists symmetric. */
  lemma {:induction false} ReplaySymmetric(count: nat, cs: seq<Conn>)
    requires ConnsIn(cs, count)
    ensures Symmetric(Replay(count, cs).adj)
  {
    if cs != [] {
      var b := Replay(count, cs[..|cs| - 1]);
      ReplaySymmetric(count, cs[..|cs| - 1]);
      ConnectKeepsSymmetric(b.adj, cs[|cs| - 1].u, cs[|cs| - 1].v);
    } else {
      assert Symmetric(NoArcs(count));
    }
  }

  /** The source `0` and the sink `n + 1` list exactly the vertices `1..i`. */
  ghost predicate Hubs(adj: AdjLists, n: int, i: int)
    requires |adj| == n + 2 && 0 <= n
  {
    UpTo(adj[0], i) && UpTo(adj[n + 1], i)
  }

  /** The list `l` holds exactly the vertices `1..i`. */
  ghost predicate UpTo(l: seq<int>, i: int)
  {
    forall v :: v in l <==> 1 <= v <= i
  }

  /** After the terminal connections of `1..i`, the source and the sink list exactly `1..i`. */
  lemma {:induction false} TermLists(n: nat, terminals: seq<(int, int)>, i: nat, count: nat)
    requires i <= |terminals| == n && count == n + 2
    ensures ConnsIn(TermConns(n, terminals, i), count)
    ensures Hubs(Replay(count, TermConns(n, terminals, i)).adj, n, i)
  {
    TermConnsIn(n, terminals, i);
    if i > 0 {
      var k := i - 1;
      TermLists(n, terminals, k, count);
      TermListsNext(n, terminals, k, i, count, n + 1);
    } else {
      assert TermConns(n, terminals, 0) == [];
      assert NoArcs(count)[0] == [] && NoArcs(count)[n + 1] == [];
    }
  }

  /** The terminal connections of vertex `i = k + 1` add it to the lists of the source and the sink. */
  lemma TermListsNext(n: nat, terminals: seq<(int, int)>, k: nat, i: nat, count: nat, sink: int)
    requires i == k + 1 && i <= |terminals| == n && count == n + 2 && sink == n + 1
    requires ConnsIn(TermConns(n, terminals, k), count)
    requires Hubs(Replay(count, TermConns(n, terminals, k)).adj, n, k)
    ensures ConnsIn(TermConns(n, terminals, i), count)
    ensures Hubs(Replay(count, TermConns(n, terminals, i)).adj, n, i)
  {
    TermPair(n, terminals, k, i, count, sink);
    TermStep(Replay(count, TermConns(n, terminals, k)).adj, Replay(count, TermConns(n, terminals, i)).adj, n, k, i, count, sink);
  }

  /** The terminal connections of vertex `i = k + 1`, replayed after those of `1..k` on the `count = n + 2` vertices, on symmetric lists. */
  lemma TermPair(n: nat, terminals: seq<(int, int)>, k: nat, i: nat, count: nat, sink: int)
    requires i == k + 1 && i <= |terminals| == n && count == n + 2 && sink == n + 1
    ensures ConnsIn(TermConns(n, terminals, k), count) && ConnsIn(TermConns(n, terminals, i), count)
    ensures Symmetric(Replay(count, TermConns(n, terminals, k)).adj)
    ensures Replay(count, TermConns(n, terminals, i)).adj
            == ConnectSpec(ConnectSpec(Replay(count, TermConns(n, terminals, k)).adj, 0, i, true), i, sink, true)
  {
    var wx, wy := terminals[k].0, terminals[k].1;
    TermConnsIn(n, terminals, i);
    TermConnsNext(n, terminals, k, i, wx, wy);
    ReplayTwo(count, TermConns(n, terminals, k), 0, i, wx, i, sink, wy, TermConns(n, terminals, i));
    ReplaySymmetric(count, TermConns(n, terminals, k));
  }

  /** One more connection, connected last. */
  lemma ReplaySnoc(count: nat, cs: seq<Conn>, c: Conn, all: seq<Conn>)
    requires all == cs + [c] && ConnsIn(all, count)
    ensures ConnsIn(cs, count) && 0 <= c.u < count && 0 <= c.v < count
    ensures Replay(count, all) == Extend(Replay(count, cs), c)
  {
    assert all[..|cs|] == cs;
    assert all[|cs|] == c;
    assert forall i :: 0 <= i < |cs| ==> cs[i] == all[i];
  }

  /** Two more connections, connected last. */
  lemma ReplayTwo(count: nat, cs: seq<Conn>, u0: int, v0: int, w0: int, u1: int, v1: int, w1: int, all: seq<Conn>)
    requires all == cs + [Conn(u0, v0, w0)] + [Conn(u1, v1, w1)] && ConnsIn(all, count)
    ensures ConnsIn(cs, count) && 0 <= u0 < count && 0 <= v0 < count && 0 <= u1 < count && 0 <= v1 < count
    ensures Replay(count, all).adj == ConnectSpec(ConnectSpec(Replay(count, cs).adj, u0, v0, true), u1, v1, true)
  {
    ReplaySnoc(count, cs + [Conn(u0, v0, w0)], Conn(u1, v1, w1), all);
    ReplaySnoc(count, cs, Conn(u0, v0, w0), cs + [Conn(u0, v0, w0)]);
  }

  /** One more input connection keeps every connection among the `n + 2` vertices. */
  lemma JoinLinks(base: seq<Conn>, links: seq<Conn>, i: int, n: int)
    requires 0 <= i < |links| && ConnsIn(base + links[..i], n + 2) && Inner(links, n)
    ensures base + links[..i + 1] == (base + links[..i]) + [links[i]]
    ensures ConnsIn(base + links[..i + 1], n + 2)
  {
    assert links[..i + 1] == links[..i] + [links[i]];
  }

  /** The connections `SOURCE -> i` and `i -> SINK` add `i` to the lists of the source and the sink. */
  lemma TermStep(a0: AdjLists, a2: AdjLists, n: int, k: int, i: int, count: int, sink: int)
    requires i == k + 1 && count == n + 2 && sink == n + 1
    requires |a0| == count && 1 <= i <= n && Symmetric(a0) && Hubs(a0, n, k)
    requires a2 == ConnectSpec(ConnectSpec(a0, 0, i, true), i, sink, true)
    ensures |a2| == count && Hubs(a2, n, i)
  {
    var a1 := ConnectSpec(a0, 0, i, true);
    assert |a1| == n + 2 && |a2| == n + 2;
    assert n + 1 !in a0[i] by {
      if n + 1 in a0[i] {
        SymmetricAt(a0, i, n + 1);
      }
    }
    ConnectMember(a0, 0, i, i, n + 1);
    assert n + 1 !in a1[i];
    forall v ensures v in a2[0] <==> 1 <= v <= i {
      assert v in a0[0] <==> 1 <= v <= i - 1;
      ConnectMember(a0, 0, i, 0, v);
      ConnectMember(a1, i, sink, 0, v);
    }
    forall v ensures v in a2[sink] <==> 1 <= v <= i {
      assert v in a0[sink] <==> 1 <= v <= i - 1;
      ConnectMember(a0, 0, i, sink, v);
      ConnectMember(a1, i, sink, sink, v);
    }
  }

  /** Who lists whom after a bidirectional connection: the old lists, `u -> v`, and `v -> u` when `u -> v` was new. */
  lemma ConnectMember(adj: AdjLists, u: int, v: int, a: int, b: int)
    requires 0 <= u < |adj| && 0 <= v < |adj| && 0 <= a < |adj|
    ensures b in ConnectSpec(adj, u, v, true)[a] <==> b in adj[a] || (a == u && b == v) || (a == v && b == u && v !in adj[u])
  {
    AddMember(adj, u, v, a, b);
    if v !in adj[u] {
      AddMember(Add(adj, u, v), v, u, a, b);
    }
  }

  /** Connections among `1..n` leave the lists of the source and the sink alone. */
  lemma {:induction false} InnerKeeps(n: nat, cs: seq<Conn>, links: seq<Conn>)
    requires ConnsIn(cs, n + 2) && Inner(links, n)
    ensures ConnsIn(cs + links, n + 2)
    ensures Replay(n + 2, cs + links).adj[0] == Replay(n + 2, cs).adj[0]
    ensures Replay(n + 2, cs + links).adj[n + 1] == Replay(n + 2, cs).adj[n + 1]
  {
    if links != [] {
      var l1 := links[..|links| - 1];
      InnerKeeps(n, cs, l1);
      assert (cs + links)[..|cs + links| - 1] == cs + l1;
    } else {
      assert cs + links == cs;
    }
  }

  /**
   * Lines 86-98: the built network is undirected, and the source and the
   * sink are joined to exactly the vertices `1..N`.
   */
  lemma BuiltShape(n: nat, terminals: seq<(int, int)>, links: seq<Conn>)
    requires n == |terminals| && Inner(links, n)
    ensures ConnsIn(Conns(n, terminals, links), n + 2)
    ensures var adj := Replay(n + 2, Conns(n, terminals, links)).adj;
            Symmetric(adj) && Hubs(adj, n, n)
  {
    ConnsInAll(n, terminals, links);
    ReplaySymmetric(n + 2, Conns(n, terminals, links));
    TermLists(n, terminals, n, n + 2);
    InnerKeeps(n, TermConns(n, terminals, n), links);
  }

  /**
   * The search of lines 137-138 along a chain starting at `start`: it stops
   * at the first edge into `v` or at the chain's last edge, so it finds `v`
   * exactly when `v` is a target, and otherwise ends on the last edge.
   */
  method FindEdge(next: array<int>, edge: array<Edge>, start: int, v: int, ghost ch: seq<int>, ghost ts: seq<int>)
      returns (last: int, found: bool)
    requires ch != [] && start == ch[0] && ChainAt(next[..], Heads(edge[..]), ch, ts)
    ensures found <==> v in ts
    ensures !found ==> last == ch[|ch| - 1]
  {
    last := start;
    ghost var k := 0;
    while next[last] != 0 && edge[last].v != v
      invariant 0 <= k < |ch| && last == ch[k]
      invariant v !in ts[..k]
      decreases |ch| - k
    {
      assert Heads(edge[..])[ch[k]] == ts[k] && next[..][ch[k]] == Succ(ch, k);
      assert ts[..k + 1] == ts[..k] + [ts[k]];
      last := next[last];
      k := k + 1;
    }
    assert Heads(edge[..])[ch[k]] == ts[k] && next[..][ch[k]] == Succ(ch, k);
    found := edge[last].v == v;
    if !found {
      assert ts == ts[..k] + [ts[k]];
    }
  }

  /**
   * The slots after a bidirectional connection `u -> v` whose forward edge
   * `n0 + 1` was new: the reverse edge follows when it was new as well
   * (`back`), with the forward edge as its `prev`.
   */
  lemma BothLinks(adj0: AdjLists, u: int, v: int, w: int, e0: seq<Edge>, p0: seq<int>, n0: int,
                  e2: seq<Edge>, p2: seq<int>, n2: int, back: bool, e3: seq<Edge>, p3: seq<int>)
    requires 0 <= u < |adj0| && 0 <= v < |adj0| && v !in adj0[u] && 0 <= n0 && n0 + 1 < |e0| && n0 + 1 < |p0|
    requires n2 == n0 + 1 + (if back then 1 else 0) && n2 < |e2| && n2 < |p2|
    requires back == (u !in Add(adj0, u, v)[v])
    requires e2[..n2 + 1] == e0[..n0 + 1] + [Edge(u, v, w)] + (if back then [Edge(v, u, w)] else [])
    requires p2[..n2 + 1] == p0[..n0 + 1] + [0] + (if back then [0] else [])
    requires e3 == e2 && p3 == if back then p2[n2 := n2 - 1][n2 - 1 := n2] else p2
    ensures e3[..n2 + 1] == e0[..n0 + 1] + Links(adj0, u, v, w, true)
    ensures p3[..n2 + 1] == p0[..n0 + 1] + PrevLinks(adj0, u, v, true, n0)
  {
    if back {
      assert p3[..n2 + 1] == p2[..n2 - 1] + [n2, n2 - 1];
      assert p2[..n2 - 1] == p2[..n2 + 1][..n2 - 1];
    }
  }

  /** `BothLinks` for line 150 as written: only the reverse edge gets a `prev`. */
  lemma BothLinksAsWritten(adj0: AdjLists, u: int, v: int, w: int, e0: seq<Edge>, p0: seq<int>, n0: int,
                           e2: seq<Edge>, p2: seq<int>, n2: int, back: bool, e3: seq<Edge>, p3: seq<int>)
    requires 0 <= u < |adj0| && 0 <= v < |adj0| && v !in adj0[u] && 0 <= n0 && n0 + 1 < |e0| && n0 + 1 < |p0|
    requires n2 == n0 + 1 + (if back then 1 else 0) && n2 < |e2| && n2 < |p2|
    requires back == (u !in Add(adj0, u, v)[v])
    requires e2[..n2 + 1] == e0[..n0 + 1] + [Edge(u, v, w)] + (if back then [Edge(v, u, w)] else [])
    requires p2[..n2 + 1] == p0[..n0 + 1] + [0] + (if back then [0] else [])
    requires e3 == e2 && p3 == if back then p2[n2 := n2 - 1] else p2
    ensures e3[..n2 + 1] == e0[..n0 + 1] + Links(adj0, u, v, w, true)
    ensures p3[..n2 + 1] == p0[..n0 + 1] + PrevLinksAsWritten(adj0, u, v, true, n0)
  {
    if back {
      assert p3[..n2 + 1] == p2[..n2] + [n2 - 1];
      assert p2[..n2] == p2[..n2 + 1][..n2];
    }
  }

  /** The slots in use before and after one edge is linked at `n0 + 1`, whose `prev` stays 0. */
  lemma LinkSlices(e0: seq<Edge>, e1: seq<Edge>, p0: seq<int>, p1: seq<int>, n0: int, n1: int, added: bool, x: Edge)
    requires 0 <= n0 && n0 + 1 < |e0| && |p0| == |e0| && p0[n0 + 1] == 0 && p1 == p0
    requires n1 == n0 + (if added then 1 else 0) && e1 == if added then e0[n1 := x] else e0
    ensures e1[..n1 + 1] == e0[..n0 + 1] + (if added then [x] else [])
    ensures p1[..n1 + 1] == p0[..n0 + 1] + (if added then [0] else [])
  {
    if added {
      assert p0[..n0 + 2] == p0[..n0 + 1] + [0];
    }
  }

  /** `s[..n + 1]` after slot `n + 1` is overwritten by `x`. */
  lemma PrefixSnoc<T>(s: seq<T>, n: int, x: T)
    requires 0 <= n && n + 1 < |s|
    ensures s[n + 1 := x][..n + 2] == s[..n + 1] + [x]
  {
  }

  /**
   * The walk of `GetMaxFlow` went from `t` down to `v` along `path`, each
   * vertex followed by its parent, and step `i` names the tree edge into
   * `path[i]` and the edge `prev` names for it.
   */
  ghost predicate PrevPath(path: seq<int>, steps: seq<(int, int)>, parent: seq<int>, pe: seq<int>, pv: seq<int>, t: int, v: int)
  {
    && |path| == |steps| + 1 && path[0] == t && path[|steps|] == v
    && (forall i :: 0 <= i < |path| ==> 0 <= path[i] < |parent| && path[i] < |pe|)
    && forall i :: 0 <= i < |steps| ==>
         && path[i + 1] == parent[path[i]] && 0 <= pe[path[i]] < |pv|
         && steps[i] == (pe[path[i]], pv[pe[path[i]]])
  }

  /** One step of the walk from `v` to its parent `u` extends the path and its steps. */
  lemma PrevPathStep(path: seq<int>, steps: seq<(int, int)>, parent: seq<int>, pe: seq<int>, pv: seq<int>, t: int,
                     v: int, u: int, res0: seq<int>, df: int)
    requires PrevPath(path, steps, parent, pe, pv, t, v) && StepsIn(steps, |res0|)
    requires 0 <= v < |parent| && u == parent[v] && 0 <= u < |parent| && u < |pe| && 0 <= pe[v] < |pv|
    requires 0 <= pe[v] < |res0| && 0 <= pv[pe[v]] < |res0|
    ensures PrevPath(path + [u], steps + [(pe[v], pv[pe[v]])], parent, pe, pv, t, u)
    ensures StepsIn(steps + [(pe[v], pv[pe[v]])], |res0|)
    ensures Pushed(res0, steps + [(pe[v], pv[pe[v]])], df) == AugmentStep(Pushed(res0, steps, df), pe[v], pv[pe[v]], df)
  {
    PushedSnoc(res0, steps, pe[v], pv[pe[v]], df);
  }

  /** Lines 36-46: the graph, its arrays and counters. */
  class Network {
    const N: int
    const K: int
    const nrVertices: int
    var nrEdges: int
    const first: array<int>
    const next: array<int>
    const prev: array<int>
    const edge: array<Edge>
    ghost var chains: seq<seq<int>>
    ghost var owner: seq<int>

    ghost predicate Frame()
      reads this
    {
      && first != next && first != prev && next != prev
      && 0 <= N && nrVertices == N + 2 && first.Length == nrVertices
      && next.Length == edge.Length && prev.Length == edge.Length
    }

    /**
     * Edges `1..nrEdges` are stored.  Contracts write `Valid() == true` so
     * that the verifier keeps it one fact; the store itself is sealed.
     */
    ghost predicate Valid()
      reads this, first, next, prev, edge
    {
      && Frame() && 0 <= nrEdges < edge.Length && |chains| == nrVertices
      && SealedStored(N + 1, first[..], next[..], prev[..], Heads(edge[..]), Starts(edge[..]), chains, owner, nrEdges, N + 1)
    }

    /** The store the arrays hold. */
    lemma Unseal()
      requires Valid() == true
      ensures Stored(first[..], next[..], prev[..], Heads(edge[..]), Starts(edge[..]), chains, owner, nrEdges, N + 1)
    {
      UnsealStored(N + 1, first[..], next[..], prev[..], Heads(edge[..]), Starts(edge[..]), chains, owner, nrEdges, N + 1);
    }

    /** The adjacency lists the store encodes. */
    ghost function Adj(): (r: AdjLists)
      reads this, first, next, prev, edge
      requires Valid() == true
      ensures |r| == nrVertices && NoParallel(r)
    {
      Unseal();
      Targets(chains, Heads(edge[..]))
    }

    /** The adjacency lists, the edges `0..nrEdges` and their `prev` entries. */
    ghost function Snap(): Snapshot
      reads this, first, next, prev, edge
      requires Valid() == true
    {
      Snapshot(Adj(), edge[..nrEdges + 1], prev[..nrEdges + 1])
    }

    /** The snapshot holds the edge slots `0..nrEdges`. */
    lemma SnapSize()
      requires Valid() == true
      ensures |Snap().edges| == nrEdges + 1
    {
    }

    /**
     * Lines 130-155, `Connect` as written: store `u -> v` with residual `w`
     * unless `u` already lists `v`, and, when bidirectional and that
     * succeeded, store `v -> u` the same way and make the forward edge its
     * `prev`; the forward edge keeps `prev` 0.
     */
    method ConnectAsWritten(u: int, v: int, w: int, bidir: bool) returns (ok: bool)
      requires Valid() == true && 0 <= u < nrVertices && 0 <= v < nrVertices
      requires nrEdges + (if bidir then 2 else 1) < edge.Length
      modifies this, first, next, prev, edge
      ensures Valid() == true
      ensures ok == (v !in old(Adj())[u])
      ensures Adj() == ConnectSpec(old(Adj()), u, v, bidir)
      ensures nrEdges == old(nrEdges) + |Links(old(Adj()), u, v, w, bidir)|
      ensures edge[..nrEdges + 1] == old(edge[..nrEdges + 1]) + Links(old(Adj()), u, v, w, bidir)
      ensures prev[..nrEdges + 1] == old(prev[..nrEdges + 1]) + PrevLinksAsWritten(old(Adj()), u, v, bidir, old(nrEdges))
    {
      ghost var adj0, e0, p0, n0 := Adj(), edge[..], prev[..], nrEdges;
      ok := LinkOne(u, v, w);
      if ok && bidir {
        var back := LinkOne(v, u, w);
        ghost var e2, p2, n2 := edge[..], prev[..], nrEdges;
        if back {
          Pair();
        }
        BothLinksAsWritten(adj0, u, v, w, e0, p0, n0, e2, p2, n2, back, edge[..], prev[..]);
      }
    }

    /**
     * Lines 130-155, `Connect` as evidently intended: the same, but the two
     * edges of a bidirectional connection name each other as `prev`, so
     * what either loses in an augmentation the other gains.
     */
    method Connect(u: int, v: int, w: int, bidir: bool) returns (ok: bool)
      requires Valid() == true && 0 <= u < nrVertices && 0 <= v < nrVertices
      requires nrEdges + (if bidir then 2 else 1) < edge.Length
      modifies this, first, next, prev, edge
      ensures Valid() == true
      ensures ok == (v !in old(Adj())[u])
      ensures Adj() == ConnectSpec(old(Adj()), u, v, bidir)
      ensures nrEdges == old(nrEdges) + |Links(old(Adj()), u, v, w, bidir)|
      ensures edge[..nrEdges + 1] == old(edge[..nrEdges + 1]) + Links(old(Adj()), u, v, w, bidir)
      ensures prev[..nrEdges + 1] == old(prev[..nrEdges + 1]) + PrevLinks(old(Adj()), u, v, bidir, old(nrEdges))
      ensures bidir ==> Snap() == Extend(old(Snap()), Conn(u, v, w))
    {
      ghost var adj0, e0, p0, n0 := Adj(), edge[..], prev[..], nrEdges;
      ok := LinkOne(u, v, w);
      if ok && bidir {
        var back := LinkOne(v, u, w);
        ghost var e2, p2, n2 := edge[..], prev[..], nrEdges;
        if back {
          Pair();
          PairFirst();
        }
        BothLinks(adj0, u, v, w, e0, p0, n0, e2, p2, n2, back, edge[..], prev[..]);
      }
    }

    /** Lines 132-146 for one edge, seen from the slots in use: `u -> v` is appended with `prev` 0 unless `u` lists `v`. */
    method LinkOne(u: int, v: int, w: int) returns (added: bool)
      requires Valid() == true && 0 <= u < nrVertices && 0 <= v < nrVertices && nrEdges + 1 < edge.Length
      modifies this, first, next, edge
      ensures nrEdges == old(nrEdges) + (if added then 1 else 0) && nrEdges < edge.Length
      ensures edge[..nrEdges + 1] == old(edge[..nrEdges + 1]) + (if added then [Edge(u, v, w)] else [])
      ensures prev[..nrEdges + 1] == old(prev[..nrEdges + 1]) + (if added then [0] else [])
      ensures Valid() == true && prev[..] == old(prev[..])
      ensures added == (v !in old(Adj())[u])
      ensures Adj() == Add(old(Adj()), u, v)
    {
      ghost var e0, p0, n0 := edge[..], prev[..], nrEdges;
      ZeroPast();
      added := LinkEdge(u, v, w);
      LinkSlices(e0, edge[..], p0, prev[..], n0, nrEdges, added, Edge(u, v, w));
    }

    /** The `prev` slot past the edges in use is 0. */
    lemma ZeroPast()
      requires Valid() == true && nrEdges + 1 < prev.Length
      ensures prev[nrEdges + 1] == 0
    {
      Unseal();
    }

    /** Line 150: the last edge stored, the reverse of the one before it, gets that one as its `prev`. */
    method Pair()
      requires Valid() == true && 2 <= nrEdges
      requires edge[nrEdges - 1].u == edge[nrEdges].v && edge[nrEdges - 1].v == edge[nrEdges].u
      modifies prev
      ensures Valid() == true && Adj() == old(Adj()) && prev[..] == old(prev[..])[nrEdges := nrEdges - 1]
    {
      ghost var f0, x0, p0, hs, ts := first[..], next[..], prev[..], Heads(edge[..]), Starts(edge[..]);
      assert ts[nrEdges - 1] == hs[nrEdges] && hs[nrEdges - 1] == ts[nrEdges];
      SealedPair(N + 1, f0, x0, p0, hs, ts, chains, owner, nrEdges, N + 1);
      prev[nrEdges] := nrEdges - 1;
      assert first[..] == f0 && next[..] == x0 && prev[..] == p0[nrEdges := nrEdges - 1];
      assert Heads(edge[..]) == hs && Starts(edge[..]) == ts;
    }

    /** Line 150 corrected: the forward edge before the last gets the last, its reverse, as its `prev`. */
    method PairFirst()
      requires Valid() == true && 2 <= nrEdges
      requires edge[nrEdges - 1].u == edge[nrEdges].v && edge[nrEdges - 1].v == edge[nrEdges].u
      modifies prev
      ensures Valid() == true && Adj() == old(Adj()) && prev[..] == old(prev[..])[nrEdges - 1 := nrEdges]
    {
      ghost var f0, x0, p0, hs, ts := first[..], next[..], prev[..], Heads(edge[..]), Starts(edge[..]);
      assert ts[nrEdges - 1] == hs[nrEdges] && hs[nrEdges - 1] == ts[nrEdges];
      SealedPairFirst(N + 1, f0, x0, p0, hs, ts, chains, owner, nrEdges, N + 1);
      prev[nrEdges - 1] := nrEdges;
      assert first[..] == f0 && next[..] == x0 && prev[..] == p0[nrEdges - 1 := nrEdges];
      assert Heads(edge[..]) == hs && Starts(edge[..]) == ts;
    }

    /**
     * Lines 132-146 for one edge: the chain of `u` is searched for `v`; when
     * it is missing, edge `nrEdges + 1` becomes `first[u]` or the successor
     * of the chain's last edge, and holds `u -> v` with residual `w`.  On a
     * duplicate the count goes back down and nothing else changed.
     */
    method LinkEdge(u: int, v: int, w: int) returns (added: bool)
      requires Valid() == true && 0 <= u < nrVertices && 0 <= v < nrVertices && nrEdges + 1 < edge.Length
      modifies this, first, next, edge
      ensures Valid() == true
      ensures added == (v !in old(Adj())[u])
      ensures Adj() == Add(old(Adj()), u, v)
      ensures nrEdges == old(nrEdges) + (if added then 1 else 0)
      ensures edge[..] == if added then old(edge[..])[nrEdges := Edge(u, v, w)] else old(edge[..])
    {
      var last, found := Lookup(u, v);
      if found {
        return false;
      }
      Unseal();
      LinkTail(u, v, w, last, first[..], next[..], prev[..], edge[..], chains, owner, nrEdges);
      added := true;
    }

    /**
     * Lines 134-143: whether `u -> v` is already stored and, when it is not,
     * the tail of `u`'s chain.
     */
    method Lookup(u: int, v: int) returns (last: int, found: bool)
      requires Valid() == true && 0 <= u < nrVertices && 0 <= v < nrVertices
      ensures found <==> v in Adj()[u]
      ensures (first[u] == 0 <==> chains[u] == []) && (chains[u] != [] ==> !found ==> last == chains[u][|chains[u]| - 1] && 0 <= last < next.Length)
    {
      ghost var hs := Heads(edge[..]);
      Unseal();
      StoredRead(first[..], next[..], prev[..], hs, Starts(edge[..]), chains, owner, nrEdges, N + 1, u);
      last, found := 0, false;
      if first[u] != 0 {
        last, found := FindEdge(next, edge, first[u], v, chains[u], Targets(chains, hs)[u]);
      }
    }

    /**
     * Lines 134-146 once `v` was not found: edge `n + 1` becomes `first[u]`
     * when `u` has no edge, else the successor of `last`, the tail of `u`'s
     * chain, and holds `u -> v` with residual `w`.
     */
    method LinkTail(u: int, v: int, w: int, last: int, ghost f0: seq<int>, ghost x0: seq<int>, ghost p0: seq<int>,
                    ghost e0: seq<Edge>, ghost c0: seq<seq<int>>, ghost o0: seq<int>, ghost n: int)
      requires Frame() == true && chains == c0 && owner == o0 && nrEdges == n
      requires first[..] == f0 && next[..] == x0 && prev[..] == p0 && edge[..] == e0
      requires Stored(f0, x0, p0, Heads(e0), Starts(e0), c0, o0, n, N + 1) == true
      requires 0 <= u <= N + 1 && 0 <= v <= N + 1 && n + 1 < |x0|
      requires v !in Targets(c0, Heads(e0))[u]
      requires (f0[u] == 0 <==> c0[u] == []) && (c0[u] != [] ==> last == c0[u][|c0[u]| - 1] && 0 <= last < |x0|)
      modifies this, first, next, edge
      ensures Valid() && nrEdges == n + 1
      ensures Adj() == Add(Targets(c0, Heads(e0)), u, v)
      ensures edge[..] == e0[n + 1 := Edge(u, v, w)]
    {
      var e := nrEdges + 1;
      if first[u] == 0 {
        Write(first, u, e, next, prev);
      } else {
        Write(next, last, e, first, prev);
      }
      edge[e] := Edge(u, v, w);
      nrEdges, chains, owner := e, c0[u := c0[u] + [e]], o0[e := u];
      ValidAppend(u, v, w, f0, x0, p0, e0, c0, o0, n);
    }

    /** The invariant once edge `n + 1`, `u -> v` with residual `w`, is linked at the tail of `u`'s chain. */
    lemma ValidAppend(u: int, v: int, w: int, f0: seq<int>, x0: seq<int>, p0: seq<int>,
                      e0: seq<Edge>, c0: seq<seq<int>>, o0: seq<int>, n: int)
      requires Frame() && Stored(f0, x0, p0, Heads(e0), Starts(e0), c0, o0, n, N + 1)
      requires 0 <= u <= N + 1 && 0 <= v <= N + 1 && n + 1 < |x0|
      requires v !in Targets(c0, Heads(e0))[u]
      requires first[..] == LinkFirst(f0, c0[u], u, n + 1) && next[..] == LinkNext(x0, c0[u], n + 1)
      requires prev[..] == p0 && edge[..] == e0[n + 1 := Edge(u, v, w)]
      requires chains == c0[u := c0[u] + [n + 1]] && owner == o0[n + 1 := u] && nrEdges == n + 1
      ensures Valid() && Adj() == Add(Targets(c0, Heads(e0)), u, v)
    {
      SealedAppend(f0, x0, p0, e0, c0, o0, n, N + 1, u, v, w, first[..], next[..], prev[..], edge[..], chains, owner);
    }

    /**
     * Lines 61-98, `operator>>`: `N + 2` vertices, room for
     * `2 * (2N + K) + 1` edges, all arrays zeroed; then `SOURCE -> u` and
     * `u -> SINK` for each `u` in `1..N`, and the `K` inner connections, all
     * bidirectional.
     */
    constructor Load(n: nat, k: nat, terminals: seq<(int, int)>, links: seq<Conn>)
      requires |terminals| == n && |links| == k && Inner(links, n)
      ensures Valid() == true && N == n && K == k && edge.Length == 2 * (2 * n + k) + 1
      ensures ConnsIn(Conns(n, terminals, links), n + 2)
      ensures Snap() == Replay(n + 2, Conns(n, terminals, links))
    {
      N, K, nrVertices, nrEdges := n, k, n + 2, 0;
      var numE := 2 * (2 * n + k) + 1;
      first := new int[n + 2](_ => 0);
      next := new int[numE](_ => 0);
      prev := new int[numE](_ => 0);
      edge := new Edge[numE](_ => Edge(0, 0, 0));
      chains, owner := EmptyChains(n + 2), NoOwners(numE);
      new;
      StoredEmpty(first[..], next[..], prev[..], edge[..], n + 1);
      SealStored(N + 1, first[..], next[..], prev[..], Heads(edge[..]), Starts(edge[..]), chains, owner, nrEdges, N + 1);
      assert Snap() == Replay(n + 2, []);
      ConnsInAll(n, terminals, links);
      ConnectTerminals(terminals);
      ConnectInner(links, TermConns(n, terminals, n));
    }

    /** Lines 86-91: `SOURCE -> u` with `w_xu` and `u -> SINK` with `w_uy`, for `u` = 1..N, on the empty store. */
    method ConnectTerminals(terminals: seq<(int, int)>)
      requires Valid() == true && |terminals| == N && edge.Length == 2 * (2 * N + K) + 1 && 0 <= K
      requires Snap() == Replay(N + 2, [])
      modifies this, first, next, prev, edge
      ensures Valid() == true && ConnsIn(TermConns(N, terminals, N), N + 2)
      ensures Snap() == Replay(N + 2, TermConns(N, terminals, N))
    {
      var i := 0;
      assert TermConns(N, terminals, 0) == [];
      while i < N
        invariant Valid() == true && 0 <= i <= N
        invariant ConnsIn(TermConns(N, terminals, i), N + 2) && Snap() == Replay(N + 2, TermConns(N, terminals, i))
      {
        var j := i + 1;
        ConnectTerminal(terminals, i, j);
        i := j;
      }
    }

    /** Lines 88-90: the connections `SOURCE -> j` and `j -> SINK` of vertex `j = i + 1`, after those of `1..i`. */
    method ConnectTerminal(terminals: seq<(int, int)>, i: nat, j: nat)
      requires Valid() == true && |terminals| == N && edge.Length == 2 * (2 * N + K) + 1 && 0 <= K && i < N && j == i + 1
      requires ConnsIn(TermConns(N, terminals, i), N + 2) && Snap() == Replay(N + 2, TermConns(N, terminals, i))
      modifies this, first, next, prev, edge
      ensures Valid() == true && ConnsIn(TermConns(N, terminals, j), N + 2)
      ensures Snap() == Replay(N + 2, TermConns(N, terminals, j))
    {
      var wx, wy := terminals[i].0, terminals[i].1;
      ghost var cs, c0, c1 := TermConns(N, terminals, i), Conn(0, j, wx), Conn(j, N + 1, wy);
      TermConnsIn(N, terminals, j);
      TermConnsNext(N, terminals, i, j, wx, wy);
      SnapSize();
      ReplaySnoc(N + 2, cs + [c0], c1, cs + [c0] + [c1]);
      ReplaySnoc(N + 2, cs, c0, cs + [c0]);
      ConnectBoth(j, wx, wy);
    }

    /** Lines 88-89 for vertex `u`: `SOURCE -> u` with `wx`, then `u -> SINK` with `wy`. */
    method ConnectBoth(u: int, wx: int, wy: int)
      requires Valid() == true && 1 <= u <= N && nrEdges + 4 < edge.Length
      modifies this, first, next, prev, edge
      ensures Valid() == true && Snap() == Extend(Extend(old(Snap()), Conn(0, u, wx)), Conn(u, N + 1, wy))
    {
      SnapSize();
      Join(0, u, wx);
      Join(u, N + 1, wy);
    }

    /** `Connect` as the loading uses it: bidirectional, its result unused, seen through the snapshot. */
    method Join(u: int, v: int, w: int)
      requires Valid() == true && 0 <= u < nrVertices && 0 <= v < nrVertices && nrEdges + 2 < edge.Length
      modifies this, first, next, prev, edge
      ensures Valid() == true && Snap() == Extend(old(Snap()), Conn(u, v, w))
      ensures nrEdges <= old(nrEdges) + 2
    {
      var ok := Connect(u, v, w, true);
    }

    /** Lines 94-98: the `K` inner connections, after those of `base`. */
    method ConnectInner(links: seq<Conn>, ghost base: seq<Conn>)
      requires Valid() == true && |links| == K && Inner(links, N) && edge.Length == 2 * (2 * N + K) + 1
      requires ConnsIn(base, N + 2) && |base| == 2 * N && Snap() == Replay(N + 2, base)
      modifies this, first, next, prev, edge
      ensures Valid() == true && ConnsIn(base + links, N + 2)
      ensures Snap() == Replay(N + 2, base + links)
    {
      var i := 0;
      ghost var cs := base;
      assert base + links[..0] == base;
      while i < K
        invariant Valid() == true && 0 <= i <= K && cs == base + links[..i] && |cs| == 2 * N + i
        invariant ConnsIn(cs, N + 2) && Snap() == Replay(N + 2, cs)
      {
        JoinLinks(base, links, i, N);
        ConnectLink(links[i], cs);
        cs := cs + [links[i]];
        i := i + 1;
      }
      assert links[..K] == links;
    }

    /** Lines 95-97: one inner connection `c`, after the connections `cs`, with room for its two edges. */
    method ConnectLink(c: Conn, ghost cs: seq<Conn>)
      requires Valid() == true && edge.Length == 2 * (2 * N + K) + 1 && |cs| < 2 * N + K
      requires ConnsIn(cs, N + 2) && ConnsIn(cs + [c], N + 2) && Snap() == Replay(N + 2, cs)
      modifies this, first, next, prev, edge
      ensures Valid() == true && Snap() == Replay(N + 2, cs + [c])
    {
      SnapSize();
      ReplaySnoc(N + 2, cs, c, cs + [c]);
      Join(c.u, c.v, c.w);
    }

    /** The tails, the pairing and the sizes the search and the augmentation read off the store. */
    lemma Ends()
      requires Valid() == true
      ensures 1 <= N + 1 && |chains| == N + 2 && 0 <= nrEdges < |owner| && |owner| == edge.Length
      ensures forall e :: 1 <= e <= nrEdges ==> edge[e].u == owner[e]
      ensures Paired(prev[..], Heads(edge[..]), owner, nrEdges)
      ensures Complete(chains, owner, nrEdges) && Ranged(owner, Heads(edge[..]), nrEdges, N + 1)
    {
      Unseal();
    }

    /** What the scan of `u`'s chain reads. */
    lemma ScanOf(u: int)
      requires Valid() == true && 0 <= u <= N + 1
      ensures Scannable(first[..], next[..], Heads(edge[..]), chains[u], owner, nrEdges, N + 1, u)
    {
      Unseal();
      StoredScan(first[..], next[..], prev[..], Heads(edge[..]), Starts(edge[..]), chains, owner, nrEdges, N + 1, u);
    }

    /**
     * Lines 180-196, one turn of the scan of `u`'s chain, at its `k`-th edge
     * `adj`: an edge with positive residual into a vertex `v` not visited
     * makes `adj` the parent entry of `v`; the sink ends the search, any
     * other vertex is queued and marked visited.
     */
    method Visit(parent: array<int>, visited: array<bool>, q0: seq<int>, u: int, adj: int, ghost k: int,
                 ghost hist0: seq<int>, ghost front: int, ghost gp0: seq<int>, ghost rank0: seq<int>, ghost pe0: seq<int>, ghost es: seq<Edge>)
        returns (found: bool, q: seq<int>, ghost hist: seq<int>, ghost gp: seq<int>, ghost rank: seq<int>, ghost pe: seq<int>)
      requires edge[..] == es && parent.Length == N + 2 && visited.Length == N + 2
      requires 1 <= front <= |hist0| && u == hist0[front - 1] && q0 == hist0[front..]
      requires 0 <= u < |chains| && 0 <= k < |chains[u]| && adj == chains[u][k]
      requires 1 <= adj <= nrEdges && adj < |es| && adj < |owner| && owner[adj] == u && 0 <= es[adj].v <= N + 1
      requires Scanning(gp0, rank0, pe0, hist0, front, chains, owner, Heads(es), Residuals(es), nrEdges, N + 1, 1, k) == true
      requires Visits(visited[..], gp0, N + 1) && Parents(parent[..], gp0, pe0, N + 1) && gp0[N + 1] == NIL && |hist0| <= N + 1
      modifies parent, visited
      ensures front <= |hist| && hist[front - 1] == u && Parents(parent[..], gp, pe, N + 1)
      ensures found == (gp[N + 1] != NIL)
      ensures found ==> Searching(gp, rank, pe, hist, front, chains, owner, Heads(es), Residuals(es), nrEdges, N + 1, 1) == true
      ensures !found ==> Scanning(gp, rank, pe, hist, front, chains, owner, Heads(es), Residuals(es), nrEdges, N + 1, 1, k + 1) == true
      ensures !found ==> Visits(visited[..], gp, N + 1) && q == hist[front..] && |hist| <= N + 1
    {
      ghost var vs, res := Heads(es), Residuals(es);
      found, q, hist, gp, rank, pe := false, q0, hist0, gp0, rank0, pe0;
      var e := edge[adj];
      var v := e.v;
      assert vs[adj] == v && res[adj] == e.residual;
      if !visited[v] && e.residual > 0 {
        ScanFind(gp0, rank0, pe0, hist0, front, chains, owner, vs, res, nrEdges, N + 1, 1, k);
        assert Min(1, res[adj]) == 1;
        gp, rank, pe := gp0[v := u], rank0[v := rank0[u] + 1], pe0[v := adj];
        parent[v] := adj;
        assert parent[..] == old(parent[..])[v := adj];
        if v == N + 1 {
          ScanDone(gp, rank, pe, hist0, front, chains, owner, vs, res, nrEdges, N + 1, 1, k + 1);
          return true, q, hist, gp, rank, pe;
        }
        q, hist := q0 + [v], hist0 + [v];
        visited[v] := true;
        assert visited[..] == old(visited[..])[v := true];
      } else {
        ScanSkip(gp0, rank0, pe0, hist0, front, chains, owner, vs, res, nrEdges, N + 1, 1, k);
      }
    }

    /**
     * Lines 178-197, the scan of the chain of `u`, the vertex just popped,
     * edge by edge along `next`, until its end or until the sink is found.
     */
    method ScanChain(parent: array<int>, visited: array<bool>, q0: seq<int>, u: int,
                     ghost hist0: seq<int>, ghost front: int, ghost gp0: seq<int>, ghost rank0: seq<int>, ghost pe0: seq<int>, ghost es: seq<Edge>)
        returns (found: bool, q: seq<int>, ghost hist: seq<int>, ghost gp: seq<int>, ghost rank: seq<int>, ghost pe: seq<int>)
      requires edge[..] == es && parent.Length == N + 2 && visited.Length == N + 2 && parent != first && parent != next
      requires 1 <= front <= |hist0| && u == hist0[front - 1] && q0 == hist0[front..] && 0 <= u < |chains|
      requires Scannable(first[..], next[..], Heads(es), chains[u], owner, nrEdges, N + 1, u)
      requires Scanning(gp0, rank0, pe0, hist0, front, chains, owner, Heads(es), Residuals(es), nrEdges, N + 1, 1, 0) == true
      requires Visits(visited[..], gp0, N + 1) && Parents(parent[..], gp0, pe0, N + 1) && gp0[N + 1] == NIL && |hist0| <= N + 1
      modifies parent, visited
      ensures Searching(gp, rank, pe, hist, front, chains, owner, Heads(es), Residuals(es), nrEdges, N + 1, 1) == true
      ensures Parents(parent[..], gp, pe, N + 1) && found == (gp[N + 1] != NIL)
      ensures !found ==> Visits(visited[..], gp, N + 1) && q == hist[front..] && |hist| <= N + 1
    {
      ghost var ch, f, x := chains[u], first[..], next[..];
      found, q, hist, gp, rank, pe := false, q0, hist0, gp0, rank0, pe0;
      var adj := first[u];
      ghost var k := 0;
      while adj != 0
        invariant first[..] == f && next[..] == x
        invariant 0 <= k <= |ch| && adj == (if k < |ch| then ch[k] else 0)
        invariant front <= |hist| && hist[front - 1] == u
        invariant Scanning(gp, rank, pe, hist, front, chains, owner, Heads(es), Residuals(es), nrEdges, N + 1, 1, k) == true
        invariant Visits(visited[..], gp, N + 1) && Parents(parent[..], gp, pe, N + 1) && gp[N + 1] == NIL
        invariant q == hist[front..] && |hist| <= N + 1 && !found
        decreases |ch| - k
      {
        found, q, hist, gp, rank, pe := Visit(parent, visited, q, u, adj, k, hist, front, gp, rank, pe, es);
        if found {
          return;
        }
        adj := next[adj];
        k := k + 1;
      }
      ScanDone(gp, rank, pe, hist, front, chains, owner, Heads(es), Residuals(es), nrEdges, N + 1, 1, k);
    }

    /**
     * Lines 162-200, `BFS`: `s` alone queued and visited, with parent entry
     * -1; popped vertices have their chains scanned until the queue drains
     * or the sink is found.  The answer is whether a residual walk leads
     * from `s` to the sink; when it is yes, `parent` holds the tree edges of
     * a search tree that reaches the sink, and when it is no, the reached
     * set is closed.
     */
    method BFS(parent: array<int>) returns (found: bool, ghost gp: seq<int>, ghost rank: seq<int>, ghost pe: seq<int>)
      requires Valid() == true && parent.Length == N + 2 && parent != first && parent != next && parent != prev
      modifies parent
      ensures found == Augmentable(owner, Heads(edge[..]), Residuals(edge[..]), nrEdges, N + 1)
      ensures found ==> Tree(gp, rank, pe, owner, Heads(edge[..]), Residuals(edge[..]), nrEdges, N + 1, 1) && gp[N + 1] != NIL
      ensures found ==> Parents(parent[..], gp, pe, N + 1)
      ensures !found ==> Closed(gp, owner, Heads(edge[..]), Residuals(edge[..]), nrEdges)
    {
      ghost var es, t := edge[..], N + 1;
      ghost var vs, res := Heads(es), Residuals(es);
      Ends();
      var visited := new bool[N + 2](_ => false);
      var q := [0];
      visited[0] := true;
      parent[0] := -1;
      gp := seq(t + 1, w => if w == 0 then 0 else NIL);
      rank, pe := seq(t + 1, _ => 0), seq(t + 1, _ => 0);
      ghost var hist, front := [0], 0;
      SearchMarks(visited[..], parent[..], gp, pe, t);
      SearchStart(gp, rank, pe, chains, owner, vs, res, nrEdges, t, 1);
      while q != []
        invariant Valid() == true && edge[..] == es
        invariant 0 <= front <= |hist| <= t && q == hist[front..]
        invariant Searching(gp, rank, pe, hist, front, chains, owner, vs, res, nrEdges, t, 1) == true
        invariant Visits(visited[..], gp, t) && Parents(parent[..], gp, pe, t) && gp[t] == NIL
        decreases t - front
      {
        PopStart(gp, rank, pe, hist, front, chains, owner, vs, res, nrEdges, t, 1);
        var u := q[0];
        q := q[1..];
        front := front + 1;
        ScanOf(u);
        found, q, hist, gp, rank, pe := ScanChain(parent, visited, q, u, hist, front, gp, rank, pe, es);
        if found {
          SearchTree(gp, rank, pe, hist, front, chains, owner, vs, res, nrEdges, t, 1);
          SearchAnswer(gp, rank, pe, owner, vs, res, nrEdges, t, 1);
          return;
        }
      }
      SearchEnd(gp, rank, pe, hist, chains, owner, vs, res, nrEdges, t, 1);
      SearchTree(gp, rank, pe, hist, front, chains, owner, vs, res, nrEdges, t, 1);
      SearchAnswer(gp, rank, pe, owner, vs, res, nrEdges, t, 1);
      found := false;
    }

    /**
     * Lines 216-224: the walk from the sink back to `s` through the parent
     * entries, each the index of a tree edge whose tail is the next vertex,
     * taking the smallest residual on the way, from INT_MAX.  The ghost `gq`
     * keeps the search tree's parents of the vertices walked: a search tree
     * of the walked edges alone, all with residual at least the result,
     * which is INT_MAX or the residual of one of them.
     */
    method PathFlow(parent: array<int>, ghost gp: seq<int>, ghost rank: seq<int>, ghost pe: seq<int>)
        returns (pathFlow: int, ghost gq: seq<int>)
      requires Valid() == true
      requires Tree(gp, rank, pe, owner, Heads(edge[..]), Residuals(edge[..]), nrEdges, N + 1, 1) && gp[N + 1] != NIL
      requires Parents(parent[..], gp, pe, N + 1)
      ensures Tree(gq, rank, pe, owner, Heads(edge[..]), Residuals(edge[..]), nrEdges, N + 1, pathFlow) && gq[N + 1] != NIL
      ensures 0 < pathFlow <= INF
      ensures forall w :: 1 <= w <= N + 1 && gq[w] != NIL ==> gq[w] == gp[w] && OnPath(gp, rank, N + 1, w)
      ensures pathFlow == INF || exists w :: 1 <= w <= N + 1 && gq[w] != NIL && pathFlow == edge[pe[w]].residual
    {
      ghost var vs, res, t := Heads(edge[..]), Residuals(edge[..]), N + 1;
      Ends();
      pathFlow := INF;
      gq := seq(t + 1, _ => NIL);
      ghost var at := 0;
      WalkStart(gp, rank, pe, owner, vs, res, nrEdges, t);
      var v := N + 1;
      while v != 0
        invariant Walked(gq, gp, rank, pe, owner, vs, res, nrEdges, t, v, pathFlow, at)
        decreases rank[v]
      {
        WalkStep(gq, gp, rank, pe, owner, vs, res, nrEdges, t, v, pathFlow, at);
        var adj := parent[v];
        var e := edge[adj];
        assert res[adj] == e.residual;
        gq, at := gq[v := gp[v]], if e.residual < pathFlow then v else at;
        v := e.u;
        pathFlow := Min(pathFlow, e.residual);
      }
      WalkEnd(gq, gp, rank, pe, owner, vs, res, nrEdges, t, pathFlow, at);
    }

    /**
     * Lines 228-238: the walk from the sink back to `s` again; the tree edge
     * `adj` into each vertex left loses `pathFlow` and the edge `prev[adj]`
     * gains it: the reverse edge, or the unused slot 0 when `adj` is a
     * forward edge.  The residuals out of `s` and into the sink each lose
     * `pathFlow` in all.
     */
    method Augment(parent: array<int>, pathFlow: int, ghost gq: seq<int>, ghost rank: seq<int>, ghost pe: seq<int>)
      returns (ghost path: seq<int>, ghost steps: seq<(int, int)>)
      requires Valid() == true && NonNeg(Residuals(edge[..])) && 0 < pathFlow
      requires Tree(gq, rank, pe, owner, Heads(edge[..]), Residuals(edge[..]), nrEdges, N + 1, pathFlow) && gq[N + 1] != NIL
      requires |parent[..]| == N + 2 && forall w :: 1 <= w <= N + 1 && gq[w] != NIL ==> parent[w] == pe[w]
      modifies edge
      ensures Valid() == true && Adj() == old(Adj())
      ensures Heads(edge[..]) == old(Heads(edge[..])) && Starts(edge[..]) == old(Starts(edge[..]))
      ensures PrevPath(path, steps, gq, pe, prev[..], N + 1, 0)
      ensures StepsIn(steps, |old(edge[..])|) && Residuals(edge[..]) == Pushed(old(Residuals(edge[..])), steps, pathFlow)
      ensures Backing(Residuals(edge[..]), old(Residuals(edge[..])), gq, rank, pe, owner, Heads(edge[..]), nrEdges, N + 1, pathFlow, 0)
    {
      ghost var f, x, pv, hs, ts := first[..], next[..], prev[..], Heads(edge[..]), Starts(edge[..]);
      ghost var res0, n, t := Residuals(edge[..]), nrEdges, N + 1;
      Ends();
      Unseal();
      BackStart(res0, gq, rank, pe, owner, hs, n, t, pathFlow);
      BackEdge(res0, res0, gq, rank, pe, owner, hs, n, t, pathFlow, t);
      path, steps := WalkBack(parent, pathFlow, gq, rank, pe, res0, hs, ts, pv, n, t);
      Reseal(f, x, pv, hs, ts);
    }

    /** Lines 229-238, the loop of `Augment`: from the sink back to `s`, one `PushBack` per tree edge. */
    method WalkBack(parent: array<int>, pathFlow: int, ghost gq: seq<int>, ghost rank: seq<int>, ghost pe: seq<int>,
                    ghost res0: seq<int>, ghost hs: seq<int>, ghost ts: seq<int>, ghost pv: seq<int>, ghost n: int, ghost t: int)
      returns (ghost path: seq<int>, ghost steps: seq<(int, int)>)
      requires n == nrEdges && t == N + 1 && 0 <= t < |rank| && 0 <= rank[t]
      requires prev[..] == pv && Paired(pv, hs, owner, n) && Heads(edge[..]) == hs && Starts(edge[..]) == ts
      requires n < |owner| && forall e :: 1 <= e <= n ==> ts[e] == owner[e]
      requires Residuals(edge[..]) == res0 && Backing(res0, res0, gq, rank, pe, owner, hs, n, t, pathFlow, t)
      requires |parent[..]| == t + 1 && forall w :: 1 <= w <= t && gq[w] != NIL ==> parent[w] == pe[w]
      modifies edge
      ensures Heads(edge[..]) == hs && Starts(edge[..]) == ts
      ensures PrevPath(path, steps, gq, pe, pv, t, 0)
      ensures StepsIn(steps, |res0|) && Residuals(edge[..]) == Pushed(res0, steps, pathFlow)
      ensures Backing(Residuals(edge[..]), res0, gq, rank, pe, owner, hs, n, t, pathFlow, 0)
    {
      var v := N + 1;
      path, steps := [v], [];
      while v != 0
        invariant Heads(edge[..]) == hs && Starts(edge[..]) == ts && 0 <= v <= t && 0 <= rank[v]
        invariant Backing(Residuals(edge[..]), res0, gq, rank, pe, owner, hs, n, t, pathFlow, v)
        invariant PrevPath(path, steps, gq, pe, pv, t, v)
        invariant StepsIn(steps, |res0|) && Residuals(edge[..]) == Pushed(res0, steps, pathFlow)
        decreases rank[v]
      {
        ghost var v0 := v;
        v := PushBack(parent, v, pathFlow, gq, rank, pe, res0, hs, ts, pv, n, t);
        PrevPathStep(path, steps, gq, pe, pv, t, v0, v, res0, pathFlow);
        path, steps := path + [v], steps + [(pe[v0], pv[pe[v0]])];
      }
    }

    /** The store is back once the arrays hold what they held, with only residuals changed. */
    lemma Reseal(f: seq<int>, x: seq<int>, pv: seq<int>, hs: seq<int>, ts: seq<int>)
      requires Frame() && Stored(f, x, pv, hs, ts, chains, owner, nrEdges, N + 1) && 0 <= nrEdges < edge.Length && |chains| == N + 2
      requires first[..] == f && next[..] == x && prev[..] == pv && Heads(edge[..]) == hs && Starts(edge[..]) == ts
      ensures Valid() == true && Adj() == Targets(chains, hs)
    {
      SealStored(N + 1, f, x, pv, hs, ts, chains, owner, nrEdges, N + 1);
    }

    /**
     * Lines 229-237, one step of the walk at `v`: the tree edge `adj` into
     * `v` loses `pathFlow`, the edge `prev[adj]` gains it, and the walk
     * moves to the tail of `adj`, the parent of `v`.
     */
    method PushBack(parent: array<int>, v: int, pathFlow: int, ghost gq: seq<int>, ghost rank: seq<int>, ghost pe: seq<int>,
                    ghost res0: seq<int>, ghost hs: seq<int>, ghost ts: seq<int>, ghost pv: seq<int>, ghost n: int, ghost t: int) returns (u: int)
      requires n == nrEdges && t == N + 1
      requires prev[..] == pv && Paired(pv, hs, owner, n) && Heads(edge[..]) == hs && Starts(edge[..]) == ts
      requires n < |owner| && forall e :: 1 <= e <= n ==> ts[e] == owner[e]
      requires Backing(Residuals(edge[..]), res0, gq, rank, pe, owner, hs, n, t, pathFlow, v) && v != 0
      requires |parent[..]| == t + 1 && forall w :: 1 <= w <= t && gq[w] != NIL ==> parent[w] == pe[w]
      modifies edge
      ensures Heads(edge[..]) == hs && Starts(edge[..]) == ts && u == gq[v] && 0 <= u <= t && 0 <= rank[u] < rank[v]
      ensures 0 <= parent[v] < |pv| && Residuals(edge[..]) == AugmentStep(old(Residuals(edge[..])), parent[v], pv[parent[v]], pathFlow)
      ensures Backing(Residuals(edge[..]), res0, gq, rank, pe, owner, hs, n, t, pathFlow, u)
    {
      ghost var es := edge[..];
      ghost var res := Residuals(es);
      BackEdge(res, res0, gq, rank, pe, owner, hs, n, t, pathFlow, v);
      var adj := parent[v];
      var b := prev[adj];
      assert Reverse(pv[adj], hs[adj], owner[adj], owner, hs, n);
      var e := edge[adj];
      u := e.u;
      assert ts[adj] == u && b != adj;
      Shift(edge, adj, b, pathFlow);
      PushResiduals(es, adj, b, pathFlow);
      BackMove(res, res0, gq, rank, pe, owner, hs, n, t, pathFlow, v, b, Residuals(edge[..]), u);
    }

    /**
     * Lines 203-245, `GetMaxFlow`: while `BFS` finds the sink, the path's
     * bottleneck is pushed along it and added to the flow.  The flow
     * returned is what the edges out of `s`, and what the edges into the
     * sink, have lost, no more than their capacity; at the end no residual
     * walk leads from `s` to the sink.
     */
    method GetMaxFlow() returns (maxFlow: int)
      requires Valid() == true && NonNeg(Residuals(edge[..]))
      modifies edge
      ensures Valid() == true && Adj() == old(Adj())
      ensures Heads(edge[..]) == old(Heads(edge[..])) && Starts(edge[..]) == old(Starts(edge[..]))
      ensures Flowing(Residuals(edge[..]), old(Residuals(edge[..])), owner, Heads(edge[..]), nrEdges, N + 1, maxFlow)
      ensures !Augmentable(owner, Heads(edge[..]), Residuals(edge[..]), nrEdges, N + 1)
      ensures 0 <= maxFlow <= SumWhere(old(Residuals(edge[..])), owner, 0, nrEdges)
    {
      ghost var hs, ts, cap := Heads(edge[..]), Starts(edge[..]), Residuals(edge[..]);
      Ends();
      var parent := new int[N + 2];
      var found, gp, rank, pe := BFS(parent);
      maxFlow := Saturate(parent, found, gp, rank, pe, cap, hs, ts, Adj());
      FlowBound(Residuals(edge[..]), cap, owner, hs, nrEdges, N + 1, maxFlow);
    }

    /** Lines 207-243: the `while (BFS(parent))` loop from a flow of 0. */
    method Saturate(parent: array<int>, found0: bool, ghost gp0: seq<int>, ghost rank0: seq<int>, ghost pe0: seq<int>,
                    ghost cap: seq<int>, ghost hs: seq<int>, ghost ts: seq<int>, ghost adj0: AdjLists) returns (maxFlow: int)
      requires Valid() == true && Heads(edge[..]) == hs && Starts(edge[..]) == ts && Adj() == adj0 && cap == Residuals(edge[..])
      requires parent.Length == N + 2 && parent != first && parent != next && parent != prev && NonNeg(cap)
      requires found0 == Augmentable(owner, hs, cap, nrEdges, N + 1)
      requires found0 ==> Tree(gp0, rank0, pe0, owner, hs, cap, nrEdges, N + 1, 1) && gp0[N + 1] != NIL
      requires found0 ==> Parents(parent[..], gp0, pe0, N + 1)
      modifies edge, parent
      ensures Valid() == true && Heads(edge[..]) == hs && Starts(edge[..]) == ts && Adj() == adj0
      ensures Flowing(Residuals(edge[..]), cap, owner, hs, nrEdges, N + 1, maxFlow)
      ensures !Augmentable(owner, hs, Residuals(edge[..]), nrEdges, N + 1)
    {
      ghost var n, t := nrEdges, N + 1;
      Ends();
      maxFlow := 0;
      var found, gp, rank, pe := found0, gp0, rank0, pe0;
      while found
        invariant Valid() == true && Heads(edge[..]) == hs && Starts(edge[..]) == ts && Adj() == adj0
        invariant Flowing(Residuals(edge[..]), cap, owner, hs, n, t, maxFlow) == true
        invariant found == Augmentable(owner, hs, Residuals(edge[..]), n, t)
        invariant found ==> Tree(gp, rank, pe, owner, hs, Residuals(edge[..]), n, t, 1) == true && gp[t] != NIL
        invariant found ==> Parents(parent[..], gp, pe, t) == true
        decreases SumWhere(Residuals(edge[..]), hs, t, n)
      {
        maxFlow := Improve(parent, maxFlow, gp, rank, pe, cap, hs, ts, adj0);
        found, gp, rank, pe := BFS(parent);
      }
    }

    /**
     * Lines 215-240, one pass of the loop body: the bottleneck of the path
     * `BFS` found is pushed along it and added to `max_flow`, which keeps
     * the flow equations and lowers the residual into the sink.
     */
    method Improve(parent: array<int>, flow0: int, ghost gp: seq<int>, ghost rank: seq<int>, ghost pe: seq<int>,
                   ghost cap: seq<int>, ghost hs: seq<int>, ghost ts: seq<int>, ghost adj0: AdjLists) returns (flow: int)
      requires Valid() == true && Heads(edge[..]) == hs && Starts(edge[..]) == ts && Adj() == adj0
      requires Flowing(Residuals(edge[..]), cap, owner, hs, nrEdges, N + 1, flow0)
      requires Tree(gp, rank, pe, owner, hs, Residuals(edge[..]), nrEdges, N + 1, 1) && gp[N + 1] != NIL
      requires Parents(parent[..], gp, pe, N + 1)
      modifies edge
      ensures Valid() == true && Heads(edge[..]) == hs && Starts(edge[..]) == ts && Adj() == adj0
      ensures Flowing(Residuals(edge[..]), cap, owner, hs, nrEdges, N + 1, flow)
      ensures 0 <= SumWhere(Residuals(edge[..]), hs, N + 1, nrEdges) < old(SumWhere(Residuals(edge[..]), hs, N + 1, nrEdges))
    {
      ghost var res0, n, t := Residuals(edge[..]), nrEdges, N + 1;
      var pathFlow, gq := PathFlow(parent, gp, rank, pe);
      ghost var path, steps := Augment(parent, pathFlow, gq, rank, pe);
      FlowingStep(Residuals(edge[..]), res0, cap, gq, rank, pe, owner, hs, n, t, pathFlow, flow0);
      SumNonneg(Residuals(edge[..]), hs, t, n);
      flow := flow0 + pathFlow;
    }
  }
}
