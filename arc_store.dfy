/**
 * The array-linked store of the projects whose `connect` does not reject a
 * repeated pair: the same `first`/`next`/`vertex` encoding as `LinkedGraph`,
 * with any number of edges between two vertices.
 */
module ArcStore {
  import opened Chains
  import opened LinkedGraph

  /**
   * `first`/`next` encode the chains of the `n` edges in use, and the
   * targets `vs` have a slot for every edge index.
   */
  ghost predicate Chained(f: seq<int>, x: seq<int>, vs: seq<int>, chains: seq<seq<int>>, owner: seq<int>, n: int)
  {
    Linked(f, x, chains, owner, n) && |vs| == |x| && ChainsIn(chains, |vs|)
  }

  /** What a walk along `u`'s chain reads. */
  lemma ChainedRead(f: seq<int>, x: seq<int>, vs: seq<int>, chains: seq<seq<int>>, owner: seq<int>, n: int, u: int)
    requires Chained(f, x, vs, chains, owner, n) && 0 <= u < |chains|
    ensures f[u] == Head(chains[u])
    ensures ChainAt(x, vs, chains[u], Targets(chains, vs)[u])
    ensures forall k :: 0 <= k < |chains[u]| ==> 1 <= chains[u][k] <= n
  {
    forall k | 0 <= k < |chains[u]|
      ensures 0 < chains[u][k] < |x| && x[chains[u][k]] == Succ(chains[u], k)
    {
      if k + 1 < |chains[u]| {
        assert 1 <= chains[u][k + 1];
      }
    }
  }

  /** Linking edge `n + 1`, with target `v`, at the tail of `u`'s chain appends `v` to `u`'s targets. */
  lemma ChainedAppend(f: seq<int>, x: seq<int>, vs: seq<int>, chains: seq<seq<int>>, owner: seq<int>, n: int, u: int, v: int)
    requires Chained(f, x, vs, chains, owner, n) && 0 <= u < |chains| && n + 1 < |x|
    ensures Chained(LinkFirst(f, chains[u], u, n + 1), LinkNext(x, chains[u], n + 1), vs[n + 1 := v],
                    chains[u := chains[u] + [n + 1]], owner[n + 1 := u], n + 1)
    ensures Targets(chains[u := chains[u] + [n + 1]], vs[n + 1 := v]) ==
            Targets(chains, vs)[u := Targets(chains, vs)[u] + [v]]
  {
    AppendLinked(f, x, chains, owner, n, u);
    LinkedChainsIn(f, x, chains, owner, n);
    TargetsAppend(chains, vs, n, u, v);
  }

  /** The zeroed `first` and `next` hold the store without edges. */
  lemma ChainedEmpty(f: seq<int>, x: seq<int>, vs: seq<int>, owner: seq<int>)
    requires |x| >= 1 && |owner| == |x| && |vs| == |x|
    requires forall u :: 0 <= u < |f| ==> f[u] == 0
    requires forall e :: 0 <= e < |x| ==> x[e] == 0
    ensures Chained(f, x, vs, EmptyChains(|f|), owner, 0)
    ensures Targets(EmptyChains(|f|), vs) == NoArcs(|f|)
  {
    EmptyLinked(f, x, owner);
    assert Targets(EmptyChains(|f|), vs) == NoArcs(|f|);
  }

  /**
   * The tail search `for (e = first[u]; next[e] != 0; e = next[e]);` along
   * a chain starting at `start`: it ends on the chain's last edge.
   */
  method FindTail(next: array<int>, start: int, ghost ch: seq<int>) returns (last: int)
    requires ch != [] && start == ch[0]
    requires forall k :: 0 <= k < |ch| ==> 0 < ch[k] < next.Length && next[ch[k]] == Succ(ch, k)
    ensures last == ch[|ch| - 1]
  {
    last := start;
    ghost var k := 0;
    while next[last] != 0
      invariant 0 <= k < |ch| && last == ch[k]
      decreases |ch| - k
    {
      last := next[last];
      k := k + 1;
    }
  }
}
