/**
 * The array-linked adjacency store that every C project of the repository
 * uses: `first[vertex]` is the first edge index of the vertex's chain,
 * `next[edge]` the following edge of the same chain, and index 0 is the
 * "no edge" sentinel, so real edges are 1..n.
 *
 * `Linked` ties the two arrays (as sequences) to a ghost list of chains: the
 * edge indices of each source vertex in chain order.  Because every store
 * links a new edge, numbered n + 1, at the tail of its source's chain, each
 * chain is strictly increasing, i.e. it lists the vertex's edges in insertion
 * order.
 */
module Chains {

  /** The number of edges held by all chains together. */
  function TotalLength(chains: seq<seq<int>>): nat
  {
    if chains == [] then 0 else TotalLength(chains[..|chains| - 1]) + |chains[|chains| - 1]|
  }

  /** The first edge index of a chain, or the sentinel 0. */
  function Head(chain: seq<int>): int
  {
    if chain == [] then 0 else chain[0]
  }

  /** What `next` must hold for the `k`-th edge of a chain. */
  function Succ(chain: seq<int>, k: int): int
    requires 0 <= k < |chain|
  {
    if k + 1 < |chain| then chain[k + 1] else 0
  }

  /** Every chained index is a real edge owned by its chain's vertex. */
  ghost predicate Owned(chains: seq<seq<int>>, owner: seq<int>, n: int)
  {
    forall u, k :: 0 <= u < |chains| && 0 <= k < |chains[u]| ==>
      1 <= chains[u][k] <= n && 0 <= chains[u][k] < |owner| && owner[chains[u][k]] == u
  }

  /** A chain lists its edges in insertion (= index) order. */
  ghost predicate Ascending(chain: seq<int>)
  {
    |chain| < 2 || (chain[0] < chain[1] && Ascending(chain[1..]))
  }

  /** In an ascending chain every entry is below every later one. */
  lemma {:induction false} AscendingAt(chain: seq<int>, i: int, j: int)
    requires Ascending(chain) && 0 <= i < j < |chain|
    ensures chain[i] < chain[j]
    decreases |chain|
  {
    if i > 0 {
      AscendingAt(chain[1..], i - 1, j - 1);
    } else if j > 1 {
      AscendingAt(chain[1..], 0, j - 1);
    }
  }

  /** The pairwise form of `Ascending`. */
  lemma AscendingAll(chain: seq<int>)
    requires Ascending(chain)
    ensures forall i, j :: 0 <= i < j < |chain| ==> chain[i] < chain[j]
  {
    forall i, j | 0 <= i < j < |chain| ensures chain[i] < chain[j] {
      AscendingAt(chain, i, j);
    }
  }

  /** An entry above all of an ascending chain's entries extends it. */
  lemma {:induction false} AscendingSnoc(chain: seq<int>, x: int)
    requires Ascending(chain) && forall k :: 0 <= k < |chain| ==> chain[k] < x
    ensures Ascending(chain + [x])
    decreases |chain|
  {
    if |chain| >= 2 {
      assert (chain + [x])[1..] == chain[1..] + [x];
      AscendingSnoc(chain[1..], x);
    }
  }

  /** Every chain is ascending. */
  ghost predicate Increasing(chains: seq<seq<int>>)
  {
    forall u :: 0 <= u < |chains| ==> Ascending(chains[u])
  }

  /** `first` and `next` encode the chains; unused slots of `next` are 0. */
  ghost predicate Encoded(first: seq<int>, next: seq<int>, chains: seq<seq<int>>, n: int)
  {
    && |first| == |chains|
    && (forall u :: 0 <= u < |chains| ==> first[u] == Head(chains[u]))
    && (forall u, k {:trigger next[chains[u][k]]} :: 0 <= u < |chains| && 0 <= k < |chains[u]| && 0 <= chains[u][k] < |next| ==>
          next[chains[u][k]] == Succ(chains[u], k))
    && (forall e :: 0 <= n < e < |next| ==> next[e] == 0)
  }

  ghost predicate Linked(first: seq<int>, next: seq<int>, chains: seq<seq<int>>, owner: seq<int>, n: int)
  {
    && |chains| == |first| && |owner| == |next| && 0 <= n < |next|
    && Owned(chains, owner, n)
    && Increasing(chains)
    && Encoded(first, next, chains, n)
    && TotalLength(chains) == n
  }

  /** The empty store: zeroed arrays and no edge. */
  function EmptyChains(count: nat): (c: seq<seq<int>>)
    ensures |c| == count && forall u :: 0 <= u < count ==> c[u] == []
  {
    seq(count, _ => [])
  }

  /** No edge has an owner yet. */
  ghost function NoOwners(count: nat): (o: seq<int>)
    ensures |o| == count && forall e :: 0 <= e < count ==> o[e] == 0
  {
    seq(count, _ => 0)
  }

  lemma {:induction false} TotalLengthEmpty(count: nat)
    ensures TotalLength(EmptyChains(count)) == 0
  {
    if count > 0 {
      assert EmptyChains(count)[..count - 1] == EmptyChains(count - 1);
      TotalLengthEmpty(count - 1);
    }
  }

  lemma EmptyLinked(first: seq<int>, next: seq<int>, owner: seq<int>)
    requires |next| >= 1 && |owner| == |next|
    requires forall u :: 0 <= u < |first| ==> first[u] == 0
    requires forall e :: 0 < e < |next| ==> next[e] == 0
    ensures Linked(first, next, EmptyChains(|first|), owner, 0)
  {
    TotalLengthEmpty(|first|);
  }

  lemma {:induction false} TotalLengthUpdate(chains: seq<seq<int>>, u: int, c: seq<int>)
    requires 0 <= u < |chains|
    ensures TotalLength(chains[u := c]) == TotalLength(chains) - |chains[u]| + |c|
  {
    var last := |chains| - 1;
    if u == last {
      assert chains[u := c][..last] == chains[..last];
    } else {
      assert chains[u := c][..last] == chains[..last][u := c];
      TotalLengthUpdate(chains[..last], u, c);
    }
  }

  /** Chains of the same lengths hold the same number of edges. */
  lemma {:induction false} TotalLengthSameShape(a: seq<seq<int>>, b: seq<seq<int>>)
    requires |a| == |b| && forall u :: 0 <= u < |a| ==> |a[u]| == |b[u]|
    ensures TotalLength(a) == TotalLength(b)
  {
    if a != [] {
      TotalLengthSameShape(a[..|a| - 1], b[..|b| - 1]);
    }
  }

  /** The total length of the chains of the vertices below `u`. */
  lemma TotalLengthPrefix(chains: seq<seq<int>>, u: int)
    requires 0 <= u < |chains|
    ensures TotalLength(chains[..u + 1]) == TotalLength(chains[..u]) + |chains[u]|
  {
    assert chains[..u + 1][..u] == chains[..u];
  }

  lemma {:induction false} TotalLengthBound(chains: seq<seq<int>>, u: int)
    requires 0 <= u <= |chains|
    ensures TotalLength(chains[..u]) <= TotalLength(chains)
    decreases |chains| - u
  {
    if u < |chains| {
      TotalLengthPrefix(chains, u);
      TotalLengthBound(chains, u + 1);
    } else {
      assert chains[..u] == chains;
    }
  }

  /** While a prefix misses some edge, there is a chain past it. */
  lemma TotalLengthShort(chains: seq<seq<int>>, u: int)
    requires 0 <= u <= |chains| && TotalLength(chains[..u]) < TotalLength(chains)
    ensures u < |chains|
  {
    assert chains[..|chains|] == chains;
  }

  /** Once a prefix holds every edge, the chains past it are empty. */
  lemma TotalLengthRest(chains: seq<seq<int>>, u: int, w: int)
    requires 0 <= u <= w < |chains| && TotalLength(chains[..u]) >= TotalLength(chains)
    ensures chains[w] == []
  {
    var pre := chains[..w];
    TotalLengthBound(pre, u);
    assert pre[..u] == chains[..u];
    TotalLengthPrefix(chains, w);
    TotalLengthBound(chains, w + 1);
  }

  /** `first` after linking edge `e` as the new tail of `u`'s chain. */
  function LinkFirst(first: seq<int>, chain: seq<int>, u: int, e: int): seq<int>
    requires 0 <= u < |first|
  {
    if chain == [] then first[u := e] else first
  }

  /** `next` after linking edge `e` as the new tail of `chain`. */
  function LinkNext(next: seq<int>, chain: seq<int>, e: int): seq<int>
    requires forall k :: 0 <= k < |chain| ==> 0 <= chain[k] < |next|
  {
    if chain == [] then next else next[chain[|chain| - 1] := e]
  }

  /**
   * Linking edge n + 1 at the tail of `u`'s chain keeps the store linked,
   * now with n + 1 edges, and changes no other chain.
   */
  lemma AppendLinked(first: seq<int>, next: seq<int>, chains: seq<seq<int>>, owner: seq<int>, n: int, u: int)
    requires Linked(first, next, chains, owner, n)
    requires 0 <= u < |first| && n + 1 < |next|
    ensures Linked(LinkFirst(first, chains[u], u, n + 1), LinkNext(next, chains[u], n + 1),
                   chains[u := chains[u] + [n + 1]], owner[n + 1 := u], n + 1)
  {
    TotalLengthUpdate(chains, u, chains[u] + [n + 1]);
    AppendOwned(chains, owner, n, u);
    AppendIncreasing(chains, n, u);
    AppendEncoded(first, next, chains, owner, n, u);
  }

  lemma AppendOwned(chains: seq<seq<int>>, owner: seq<int>, n: int, u: int)
    requires Owned(chains, owner, n) && 0 <= u < |chains| && 0 <= n && n + 1 < |owner|
    ensures Owned(chains[u := chains[u] + [n + 1]], owner[n + 1 := u], n + 1)
  {
    var c', o' := chains[u := chains[u] + [n + 1]], owner[n + 1 := u];
    forall w, k | 0 <= w < |c'| && 0 <= k < |c'[w]|
      ensures 1 <= c'[w][k] <= n + 1 && 0 <= c'[w][k] < |o'| && o'[c'[w][k]] == w
    {
      if w != u || k < |chains[u]| {
        assert c'[w][k] == chains[w][k];
      }
    }
  }

  lemma AppendIncreasing(chains: seq<seq<int>>, n: int, u: int)
    requires Increasing(chains) && 0 <= u < |chains|
    requires forall k :: 0 <= k < |chains[u]| ==> chains[u][k] <= n
    ensures Increasing(chains[u := chains[u] + [n + 1]])
  {
    AscendingSnoc(chains[u], n + 1);
  }

  lemma AppendEncoded(first: seq<int>, next: seq<int>, chains: seq<seq<int>>, owner: seq<int>, n: int, u: int)
    requires Linked(first, next, chains, owner, n)
    requires 0 <= u < |first| && n + 1 < |next|
    ensures Encoded(LinkFirst(first, chains[u], u, n + 1), LinkNext(next, chains[u], n + 1),
                    chains[u := chains[u] + [n + 1]], n + 1)
  {
    var e := n + 1;
    var f', x', c' := LinkFirst(first, chains[u], u, e), LinkNext(next, chains[u], e),
                      chains[u := chains[u] + [e]];
    forall w, k | 0 <= w < |c'| && 0 <= k < |c'[w]| && 0 <= c'[w][k] < |x'|
      ensures x'[c'[w][k]] == Succ(c'[w], k)
    {
      if w == u && k + 1 == |chains[u]| {
        assert x'[chains[u][k]] == e;
      } else if w == u && k == |chains[u]| {
        assert x'[e] == next[e] == 0;
      } else {
        AppendKeeps(first, next, chains, owner, n, u, w, k);
      }
    }
    forall w | 0 <= w < |c'| ensures f'[w] == Head(c'[w]) {
    }
  }

  /** A link other than the new tail's is untouched by the append. */
  lemma AppendKeeps(first: seq<int>, next: seq<int>, chains: seq<seq<int>>, owner: seq<int>, n: int, u: int, w: int, k: int)
    requires Linked(first, next, chains, owner, n)
    requires 0 <= u < |first| && n + 1 < |next| && 0 <= w < |chains| && 0 <= k < |chains[w]|
    requires w != u || k + 1 < |chains[u]|
    ensures LinkNext(next, chains[u], n + 1)[chains[w][k]] == Succ(chains[u := chains[u] + [n + 1]][w], k)
  {
    if chains[u] != [] {
      var t := chains[u][|chains[u]| - 1];
      assert owner[t] == u;
      assert chains[w][k] != t by {
        if w == u {
          AscendingAt(chains[u], k, |chains[u]| - 1);
        } else {
          assert owner[chains[w][k]] == w;
        }
      }
    }
    if w == u {
      assert chains[u := chains[u] + [n + 1]][w][k + 1] == chains[u][k + 1];
    }
  }

  /** Every chained index lies in `[0, bound)`. */
  ghost predicate ChainsIn(chains: seq<seq<int>>, bound: int)
  {
    forall u, k :: 0 <= u < |chains| && 0 <= k < |chains[u]| ==> 0 <= chains[u][k] < bound
  }

  /** The sequence of values `vals` holds at the indices of `chain`. */
  function Project<T>(chain: seq<int>, vals: seq<T>): (r: seq<T>)
    requires forall k :: 0 <= k < |chain| ==> 0 <= chain[k] < |vals|
    ensures |r| == |chain| && forall k :: 0 <= k < |chain| ==> r[k] == vals[chain[k]]
  {
    seq(|chain|, k requires 0 <= k < |chain| => vals[chain[k]])
  }

  /** Projection through an appended edge. */
  lemma ProjectAppend<T>(chain: seq<int>, vals: seq<T>, e: int, x: T)
    requires forall k :: 0 <= k < |chain| ==> 0 <= chain[k] < |vals| && chain[k] != e
    requires 0 <= e < |vals|
    ensures Project(chain + [e], vals[e := x]) == Project(chain, vals) + [x]
  {
  }

  /** Projection does not see values outside the chain. */
  lemma ProjectOutside<T>(chain: seq<int>, vals: seq<T>, e: int, x: T)
    requires forall k :: 0 <= k < |chain| ==> 0 <= chain[k] < |vals| && chain[k] != e
    requires 0 <= e < |vals|
    ensures Project(chain, vals[e := x]) == Project(chain, vals)
  {
  }

  /** `vals` with the slots of the first `k` chain entries overwritten by `t`, in chain order. */
  function Relabel(vals: seq<int>, chain: seq<int>, t: seq<int>, k: nat): (r: seq<int>)
    requires k <= |chain| && k <= |t|
    requires forall j :: 0 <= j < |chain| ==> 0 <= chain[j] < |vals|
    ensures |r| == |vals|
    decreases k
  {
    if k == 0 then vals else Relabel(vals, chain, t, k - 1)[chain[k - 1] := t[k - 1]]
  }

  /** On an increasing chain, the first `k` chain slots hold `t` and every other slot is untouched. */
  lemma {:induction false} RelabelAt(vals: seq<int>, chain: seq<int>, t: seq<int>, k: nat)
    requires k <= |chain| && k <= |t|
    requires forall j :: 0 <= j < |chain| ==> 0 <= chain[j] < |vals|
    requires Ascending(chain)
    ensures forall j :: 0 <= j < k ==> Relabel(vals, chain, t, k)[chain[j]] == t[j]
    ensures forall i :: 0 <= i < |vals| && (forall j :: 0 <= j < k ==> chain[j] != i) ==>
      Relabel(vals, chain, t, k)[i] == vals[i]
    decreases k
  {
    AscendingAll(chain);
    if k > 0 {
      RelabelAt(vals, chain, t, k - 1);
    }
  }
}
