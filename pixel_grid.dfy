/**
 * The network that proj/2017-2018/p2/src/proj.c builds for an m x n image:
 * pixel (i, j) is vertex `(i - 1) * n + j`, the source `s` is vertex 0 and
 * the sink `t` is vertex `m * n + 1`.  `graph_init` reads, per pixel, a
 * foreground weight `l` and a background weight `c`, then a weight per pair
 * of horizontal neighbours and one per pair of vertical neighbours, and
 * turns them into arcs:
 *   - a pixel with `l > c` gets the arc `s -> u` of capacity `l - c`, one with
 *     `l < c` the arc `u -> t` of capacity `c - l`, and `min(l, c)` is added to
 *     the base weight;
 *   - neighbours with a positive weight get one arc each way of that capacity.
 * This module states that sequence of arcs as functions that follow the
 * input loops, and proves what the flow code relies on: positive capacities,
 * no arc into `s` or out of `t`, no self-loop, no pair of arcs with the same
 * endpoints, and the number of arcs.
 */
module PixelGrid {

  /** One `graph_connect(g, src, dst, w)` call. */
  datatype Arc = Arc(src: int, dst: int, w: int)

  /** Line 141, `graph_get_pixel`: the vertex of the pixel in row `i`, column `j`. */
  function GetPixel(n: int, i: int, j: int): int
  {
    (i - 1) * n + j
  }

  /**
   * Pixels are numbered row by row: inside the grid the numbers run over
   * `1..m*n`, and a pixel later in reading order has a larger number, so no
   * two pixels share one.
   */
  lemma PixelOrder(m: int, n: int, i: int, j: int, i': int, j': int)
    requires 1 <= i <= m && 1 <= j <= n && 1 <= i' <= m && 1 <= j' <= n
    ensures 1 <= GetPixel(n, i, j) <= m * n
    ensures (i < i' || (i == i' && j < j')) ==> GetPixel(n, i, j) < GetPixel(n, i', j')
  {
    Mono(i - 1, m - 1, n);
    if i < i' {
      Mono(i, i' - 1, n);
    }
  }

  lemma Mono(a: int, b: int, n: int)
    requires a <= b && 0 <= n
    ensures a * n <= b * n
  {
  }

  /** Lines 142-143: the right-hand and the lower neighbour of a pixel. */
  function HNeighbor(u: int): int
  {
    u + 1
  }

  function VNeighbor(n: int, u: int): int
  {
    u + n
  }

  /** The neighbours are the pixels one column right and one row down. */
  lemma Neighbors(m: int, n: int, i: int, j: int)
    requires 1 <= i <= m && 1 <= j <= n
    ensures j < n ==> HNeighbor(GetPixel(n, i, j)) == GetPixel(n, i, j + 1)
    ensures i < m ==> VNeighbor(n, GetPixel(n, i, j)) == GetPixel(n, i + 1, j)
  {
  }

  /** Line 103, `num_v`: the pixels and the source. */
  function NumV(m: int, n: int): int
  {
    m * n + 1
  }

  /** The number of pairs of neighbouring pixels. */
  function Pairs(m: int, n: int): int
  {
    m * (n - 1) + (m - 1) * n
  }

  /** Line 104, `num_e`, as written: the pairs plus twice `num_v`. */
  function NumE(m: int, n: int): int
  {
    Pairs(m, n) + 2 * NumV(m, n)
  }

  /** The most arcs `graph_init` creates: one per pixel and two per pair. */
  function MaxArcs(m: int, n: int): int
  {
    m * n + 2 * Pairs(m, n)
  }

  /**
   * The edge arrays hold `num_e + 1` slots and edge numbers start at 1, so
   * they take at most `num_e` edges; that falls short of the arcs a grid can
   * need exactly when `(m - 1) * (n - 1) > 3`, the 3 x 3 grid being the
   * smallest.
   */
  lemma NumEShort(m: int, n: int)
    requires 1 <= m && 1 <= n
    ensures NumE(m, n) < MaxArcs(m, n) <==> (m - 1) * (n - 1) > 3
    ensures NumE(3, 3) == 32 && MaxArcs(3, 3) == 33
  {
    assert MaxArcs(m, n) - NumE(m, n) == (m - 1) * (n - 1) - 3;
  }

  /** The dimensions and the four weight tables `graph_init` reads, row by row. */
  ghost predicate Input(m: int, n: int, ls: seq<int>, cs: seq<int>, hw: seq<seq<int>>, vw: seq<seq<int>>)
  {
    && 1 <= m && 1 <= n
    && |ls| == m * n && |cs| == m * n
    && |hw| == m && (forall i :: 0 <= i < m ==> |hw[i]| == n - 1)
    && |vw| == m - 1 && (forall i :: 0 <= i < m - 1 ==> |vw[i]| == n)
  }

  /** Lines 192-197: the terminal arc, if any, of pixel `u` with weights `l` and `c`. */
  function TermStep(u: int, l: int, c: int, t: int): seq<Arc>
  {
    if l - c > 0 then [Arc(0, u, l - c)] else if l - c < 0 then [Arc(u, t, c - l)] else []
  }

  /** Lines 208-212 and 222-226: the arcs of a pair of neighbours, one each way when the weight is positive. */
  function PairArcs(u: int, v: int, w: int): seq<Arc>
  {
    if w > 0 then [Arc(u, v, w), Arc(v, u, w)] else []
  }

  /** The two arcs of a pair, appended one after the other. */
  lemma PairJoin(a0: seq<Arc>, a1: seq<Arc>, a2: seq<Arc>, u: int, v: int, w: int)
    requires w > 0 && a1 == a0 + [Arc(u, v, w)] && a2 == a1 + [Arc(v, u, w)]
    ensures a2 == a0 + PairArcs(u, v, w)
  {
  }

  /** Lines 185-199: the terminal arcs of pixels `1..k`. */
  function TermArcs(ls: seq<int>, cs: seq<int>, t: int, k: int): seq<Arc>
    requires 0 <= k <= |ls| && |cs| == |ls|
  {
    if k == 0 then [] else TermArcs(ls, cs, t, k - 1) + TermStep(k, ls[k - 1], cs[k - 1], t)
  }

  /** Lines 202-214, one row: the arcs of columns `1..j-1` of the row whose pixels follow `base`. */
  function HRow(n: int, row: seq<int>, base: int, j: int): seq<Arc>
    requires 1 <= j <= n && |row| == n - 1
  {
    if j == 1 then [] else HRow(n, row, base, j - 1) + PairArcs(base + j - 1, base + j, row[j - 2])
  }

  /** Lines 202-214: the horizontal arcs of rows `1..i-1`, where row `i`'s pixels follow `base`. */
  function HRows(n: int, hw: seq<seq<int>>, i: int, base: int): seq<Arc>
    requires 1 <= n && 1 <= i <= |hw| + 1 && forall r :: 0 <= r < |hw| ==> |hw[r]| == n - 1
  {
    if i == 1 then [] else HRows(n, hw, i - 1, base - n) + HRow(n, hw[i - 2], base - n, n)
  }

  /** Lines 216-228, one row: the arcs of columns `1..j-1` of the row whose pixels follow `base`. */
  function VRow(n: int, row: seq<int>, base: int, j: int): seq<Arc>
    requires 1 <= j <= n + 1 && |row| == n
  {
    if j == 1 then [] else VRow(n, row, base, j - 1) + PairArcs(base + j - 1, base + j - 1 + n, row[j - 2])
  }

  /** Lines 216-228: the vertical arcs of rows `1..i-1`, where row `i`'s pixels follow `base`. */
  function VRows(n: int, vw: seq<seq<int>>, i: int, base: int): seq<Arc>
    requires 1 <= n && 1 <= i <= |vw| + 1 && forall r :: 0 <= r < |vw| ==> |vw[r]| == n
  {
    if i == 1 then [] else VRows(n, vw, i - 1, base - n) + VRow(n, vw[i - 2], base - n, n + 1)
  }

  /** Lines 173-229, `graph_init`: every arc, in the order of the `graph_connect` calls. */
  function InitArcs(m: int, n: int, ls: seq<int>, cs: seq<int>, hw: seq<seq<int>>, vw: seq<seq<int>>): seq<Arc>
    requires Input(m, n, ls, cs, hw, vw)
  {
    TermArcs(ls, cs, NumV(m, n), m * n) + HRows(n, hw, m + 1, m * n) + VRows(n, vw, m, m * n - n)
  }

  /** `k * x` by repeated addition, so that row-by-row proofs stay linear. */
  function Times(k: nat, x: int): int
  {
    if k == 0 then 0 else Times(k - 1, x) + x
  }

  lemma {:induction false} TimesMul(k: nat, x: int)
    ensures Times(k, x) == k * x
  {
    if k > 0 {
      TimesMul(k - 1, x);
      assert k * x == (k - 1) * x + x;
    }
  }

  /** Line 198: the base weight, the sum of `min(l, c)` over pixels `1..k`. */
  function MinSum(ls: seq<int>, cs: seq<int>, k: int): int
    requires 0 <= k <= |ls| && |cs| == |ls|
  {
    if k == 0 then 0 else MinSum(ls, cs, k - 1) + (if ls[k - 1] < cs[k - 1] then ls[k - 1] else cs[k - 1])
  }

  /** No two arcs join the same ordered pair of vertices. */
  ghost predicate DistinctPairs(arcs: seq<Arc>)
  {
    forall i, j :: 0 <= i < j < |arcs| ==> arcs[i].src != arcs[j].src || arcs[i].dst != arcs[j].dst
  }

  /** An arc as the flow code needs it: positive capacity, from `0..t-1` into `1..t`, no self-loop, none from `s` to `t`. */
  ghost predicate Proper(a: Arc, t: int)
  {
    0 < a.w && 0 <= a.src < t && 1 <= a.dst <= t && a.src != a.dst && (a.src == 0 ==> a.dst < t)
  }

  /** Every arc is a terminal arc of one of the pixels `lo..hi-1`. */
  ghost predicate AllTerm(arcs: seq<Arc>, t: int, lo: int, hi: int)
  {
    forall k :: 0 <= k < |arcs| ==>
      0 < arcs[k].w && ((arcs[k].src == 0 && lo <= arcs[k].dst < hi) || (lo <= arcs[k].src < hi && arcs[k].dst == t))
  }

  /** A neighbour arc `d` apart whose smaller end lies in `lo..hi-1` and larger end at most `top`. */
  ghost predicate Between(a: Arc, d: int, lo: int, hi: int, top: int)
  {
    0 < a.w && ((lo <= a.src < hi && a.dst == a.src + d) || (lo <= a.dst < hi && a.src == a.dst + d)) &&
    a.src <= top && a.dst <= top
  }

  /** Every arc is a neighbour arc `d` apart with its smaller end in `lo..hi-1` and larger end at most `top`. */
  ghost predicate AllBetween(arcs: seq<Arc>, d: int, lo: int, hi: int, top: int)
  {
    forall k :: 0 <= k < |arcs| ==> Between(arcs[k], d, lo, hi, top)
  }

  /** No arc of `a` joins the same ordered pair as an arc of `b`. */
  ghost predicate Disjoint(a: seq<Arc>, b: seq<Arc>)
  {
    forall i, j :: 0 <= i < |a| && 0 <= j < |b| ==> a[i].src != b[j].src || a[i].dst != b[j].dst
  }

  lemma Widen(a: seq<Arc>, d: int, lo: int, hi: int, top: int, lo': int, hi': int, top': int)
    requires AllBetween(a, d, lo, hi, top) == true && lo' <= lo && hi <= hi' && top <= top'
    ensures AllBetween(a, d, lo', hi', top')
  {
    forall k | 0 <= k < |a| ensures Between(a[k], d, lo', hi', top') {
      assert Between(a[k], d, lo, hi, top);
    }
  }

  lemma DistinctConcat(a: seq<Arc>, b: seq<Arc>)
    requires DistinctPairs(a) == true && DistinctPairs(b) == true && Disjoint(a, b)
    ensures DistinctPairs(a + b)
  {
    var c := a + b;
    forall i, j | 0 <= i < j < |c| ensures c[i].src != c[j].src || c[i].dst != c[j].dst {
      if j < |a| {
        assert c[i] == a[i] && c[j] == a[j];
      } else if |a| <= i {
        assert c[i] == b[i - |a|] && c[j] == b[j - |a|];
      } else {
        assert c[i] == a[i] && c[j] == b[j - |a|];
      }
    }
  }

  /** Two runs of neighbour arcs `d` apart, the second's smaller ends above the first's, concatenate without a repeated pair. */
  lemma BetweenConcat(a: seq<Arc>, b: seq<Arc>, d: int, lo: int, mid: int, mid': int, hi: int, top1: int, top2: int)
    requires 1 <= d && DistinctPairs(a) == true && DistinctPairs(b) == true && top1 <= top2 && lo <= mid' && mid <= mid' && mid <= hi
    requires AllBetween(a, d, lo, mid, top1) == true && AllBetween(b, d, mid', hi, top2) == true
    ensures DistinctPairs(a + b) && AllBetween(a + b, d, lo, hi, top2)
  {
    forall i, j | 0 <= i < |a| && 0 <= j < |b| ensures a[i].src != b[j].src || a[i].dst != b[j].dst {
      assert Between(a[i], d, lo, mid, top1) && Between(b[j], d, mid', hi, top2);
    }
    DistinctConcat(a, b);
    var c := a + b;
    forall k | 0 <= k < |c| ensures Between(c[k], d, lo, hi, top2) {
      if k < |a| {
        assert c[k] == a[k] && Between(a[k], d, lo, mid, top1);
      } else {
        assert c[k] == b[k - |a|] && Between(b[k - |a|], d, mid', hi, top2);
      }
    }
  }

  /** One arc at most per pixel, and exactly one for each pixel with `l != c`. */
  lemma {:induction false} TermCount(ls: seq<int>, cs: seq<int>, t: int, k: int)
    requires 0 <= k <= |ls| && |cs| == |ls|
    ensures |TermArcs(ls, cs, t, k)| <= k
    ensures (forall u :: 0 <= u < k ==> ls[u] != cs[u]) ==> |TermArcs(ls, cs, t, k)| == k
  {
    if k > 0 {
      TermCount(ls, cs, t, k - 1);
    }
  }

  /** The terminal arcs of pixels `1..k`: at most one per pixel, all distinct. */
  lemma {:induction false} TermShape(ls: seq<int>, cs: seq<int>, t: int, k: int)
    requires 0 <= k <= |ls| && |cs| == |ls| && |ls| < t
    ensures DistinctPairs(TermArcs(ls, cs, t, k)) && AllTerm(TermArcs(ls, cs, t, k), t, 1, k + 1)
  {
    if k > 0 {
      var pre, step := TermArcs(ls, cs, t, k - 1), TermStep(k, ls[k - 1], cs[k - 1], t);
      TermShape(ls, cs, t, k - 1);
      DistinctConcat(pre, step);
      var c := pre + step;
      forall i | 0 <= i < |c| ensures 0 < c[i].w && ((c[i].src == 0 && 1 <= c[i].dst < k + 1) || (1 <= c[i].src < k + 1 && c[i].dst == t)) {
        if i < |pre| {
          assert c[i] == pre[i];
        } else {
          assert c[i] == step[i - |pre|];
        }
      }
    }
  }

  /** The arcs of columns `1..j-1` of a row: all `1` apart, with smaller ends in that stretch of the row. */
  lemma {:induction false} HRowShape(n: int, row: seq<int>, base: int, j: int)
    requires 1 <= j <= n && |row| == n - 1
    ensures DistinctPairs(HRow(n, row, base, j)) && AllBetween(HRow(n, row, base, j), 1, base + 1, base + j, base + n)
  {
    if j > 1 {
      var pre, step := HRow(n, row, base, j - 1), PairArcs(base + j - 1, base + j, row[j - 2]);
      HRowShape(n, row, base, j - 1);
      BetweenConcat(pre, step, 1, base + 1, base + j - 1, base + j - 1, base + j, base + n, base + n);
    }
  }

  lemma {:induction false} HRowCount(n: int, row: seq<int>, base: int, j: int)
    requires 1 <= j <= n && |row| == n - 1
    ensures |HRow(n, row, base, j)| <= 2 * (j - 1)
    ensures (forall c :: 0 <= c < n - 1 ==> row[c] > 0) ==> |HRow(n, row, base, j)| == 2 * (j - 1)
  {
    if j > 1 {
      HRowCount(n, row, base, j - 1);
    }
  }

  /** The horizontal arcs of rows `1..i-1`, the first row's pixels following `base0`: smaller ends below row `i`. */
  lemma {:induction false} HRowsShape(n: int, hw: seq<seq<int>>, i: int, base0: int, base: int)
    requires 1 <= n && 1 <= i <= |hw| + 1 && forall r :: 0 <= r < |hw| ==> |hw[r]| == n - 1
    requires base == base0 + Times(i - 1, n)
    ensures DistinctPairs(HRows(n, hw, i, base)) == true && AllBetween(HRows(n, hw, i, base), 1, base0 + 1, base, base) == true
  {
    if i > 1 {
      var pre, row := HRows(n, hw, i - 1, base - n), HRow(n, hw[i - 2], base - n, n);
      assert Times(i - 1, n) == Times(i - 2, n) + n;
      TimesMonotone(i - 2, n);
      assert DistinctPairs(pre) == true && AllBetween(pre, 1, base0 + 1, base - n, base - n) == true by {
        HRowsShape(n, hw, i - 1, base0, base - n);
      }
      assert DistinctPairs(row) == true && AllBetween(row, 1, base - n + 1, base, base) == true by {
        HRowShape(n, hw[i - 2], base - n, n);
      }
      BetweenConcat(pre, row, 1, base0 + 1, base - n, base - n + 1, base, base - n, base);
      assert HRows(n, hw, i, base) == pre + row;
    }
  }

  /** `Times` of a count and a non-negative `x` is not negative. */
  lemma {:induction false} TimesMonotone(k: nat, x: int)
    requires 0 <= x
    ensures 0 <= Times(k, x)
  {
    if k > 0 {
      TimesMonotone(k - 1, x);
    }
  }

  /** Pixel `(i, j)` comes `j` places after the `Times(i - 1, n)` pixels of the rows above. */
  lemma PixelBase(n: int, i: int, j: int)
    requires 1 <= i
    ensures GetPixel(n, i, j) == Times(i - 1, n) + j
  {
    TimesMul(i - 1, n);
  }

  /** Connecting pixel `u = base + j` to its right neighbour `v` extends the arcs of row `base` by column `j`. */
  lemma HRowExtend(n: int, row: seq<int>, base: int, j: int, u: int, v: int, a0: seq<Arc>, a: seq<Arc>, b: seq<Arc>)
    requires 1 <= j < n && |row| == n - 1 && u == base + j && v == u + 1
    requires a == a0 + HRow(n, row, base, j) && b == a + PairArcs(u, v, row[j - 1])
    ensures b == a0 + HRow(n, row, base, j + 1)
  {
  }

  /** Connecting pixel `u = base + j` to the pixel `v` below it extends the arcs of row `base` by column `j`. */
  lemma VRowExtend(n: int, row: seq<int>, base: int, j: int, u: int, v: int, a0: seq<Arc>, a: seq<Arc>, b: seq<Arc>)
    requires 1 <= j <= n && |row| == n && u == base + j && v == u + n
    requires a == a0 + VRow(n, row, base, j) && b == a + PairArcs(u, v, row[j - 1])
    ensures b == a0 + VRow(n, row, base, j + 1)
  {
  }

  /** Pixel `u`'s terminal arc follows those of the pixels before it. */
  lemma TermArcsExtend(ls: seq<int>, cs: seq<int>, t: int, u: int, a0: seq<Arc>, a: seq<Arc>, b: seq<Arc>)
    requires 1 <= u <= |ls| && |cs| == |ls|
    requires a == a0 + TermArcs(ls, cs, t, u - 1) && b == a + TermStep(u, ls[u - 1], cs[u - 1], t)
    ensures b == a0 + TermArcs(ls, cs, t, u)
  {
  }

  /** Lines 202-214: the horizontal arcs of the rows above row `i`. */
  function HArcsAbove(n: int, hw: seq<seq<int>>, i: int): seq<Arc>
    requires 1 <= n && 1 <= i <= |hw| + 1 && forall r :: 0 <= r < |hw| ==> |hw[r]| == n - 1
  {
    HRows(n, hw, i, Times(i - 1, n))
  }

  /** Lines 216-228: the vertical arcs of the rows above row `i`. */
  function VArcsAbove(n: int, vw: seq<seq<int>>, i: int): seq<Arc>
    requires 1 <= n && 1 <= i <= |vw| + 1 && forall r :: 0 <= r < |vw| ==> |vw[r]| == n
  {
    VRows(n, vw, i, Times(i - 1, n))
  }

  /** No row lies above the first. */
  lemma HArcsAboveFirst(n: int, hw: seq<seq<int>>)
    requires 1 <= n && forall r :: 0 <= r < |hw| ==> |hw[r]| == n - 1
    ensures HArcsAbove(n, hw, 1) == []
  {
  }

  /** No row lies above the first. */
  lemma VArcsAboveFirst(n: int, vw: seq<seq<int>>)
    requires 1 <= n && forall r :: 0 <= r < |vw| ==> |vw[r]| == n
    ensures VArcsAbove(n, vw, 1) == []
  {
  }

  /** The terminal arcs and the weight of the first `i` pixels, named by `j == i`. */
  lemma TermsAt(ls: seq<int>, cs: seq<int>, t: int, i: int, j: int)
    requires 0 <= i <= |ls| && |cs| == |ls| && i == j
    ensures TermArcs(ls, cs, t, i) == TermArcs(ls, cs, t, j) && MinSum(ls, cs, i) == MinSum(ls, cs, j)
  {
  }

  /** The arcs of `graph_init` are proper arcs of the network with sink `t`, with pairwise different endpoint pairs. */
  lemma InitArcsSimple(m: int, n: int, t: int, ls: seq<int>, cs: seq<int>, hw: seq<seq<int>>, vw: seq<seq<int>>)
    requires Input(m, n, ls, cs, hw, vw) && t == m * n + 1
    ensures DistinctPairs(InitArcs(m, n, ls, cs, hw, vw)) && AllProper(InitArcs(m, n, ls, cs, hw, vw), t)
  {
    InitSized(m, n, ls, cs, hw, vw);
    InitRuns(m, n, m * n, t, ls, cs, hw, vw);
  }

  /** The arcs of `graph_init` are those of its three passes, in order. */
  lemma InitPasses(m: int, n: int, t: int, ls: seq<int>, cs: seq<int>, hw: seq<seq<int>>, vw: seq<seq<int>>)
    requires Input(m, n, ls, cs, hw, vw) && t == m * n + 1
    ensures InitArcs(m, n, ls, cs, hw, vw) == TermArcs(ls, cs, t, t - 1) + HArcsAbove(n, hw, m + 1) + VArcsAbove(n, vw, m)
    ensures MinSum(ls, cs, t - 1) == MinSum(ls, cs, m * n)
  {
    RowBases(m, n);
  }

  /** When every horizontal weight is positive, the rows above row `k + 1` give exactly two arcs per pair. */
  lemma HArcsAboveCount(n: int, hw: seq<seq<int>>, k: int)
    requires 1 <= n && 0 <= k <= |hw| && forall r :: 0 <= r < |hw| ==> |hw[r]| == n - 1
    ensures (forall r, c :: 0 <= r < |hw| && 0 <= c < n - 1 ==> hw[r][c] > 0) ==> |HArcsAbove(n, hw, k + 1)| == 2 * Times(k, n - 1)
  {
    HRowsCount(n, hw, k + 1, Times(k, n));
  }

  /** The rows above row `k + 1` give at most two arcs per pair. */
  lemma HArcsAboveBound(n: int, hw: seq<seq<int>>, k: int)
    requires 1 <= n && 0 <= k <= |hw| && forall r :: 0 <= r < |hw| ==> |hw[r]| == n - 1
    ensures |HArcsAbove(n, hw, k + 1)| <= 2 * Times(k, n - 1)
  {
    HRowsCount(n, hw, k + 1, Times(k, n));
  }

  /** When every vertical weight is positive, the rows above row `j = k + 1` give exactly two arcs per pair. */
  lemma VArcsAboveCount(n: int, vw: seq<seq<int>>, k: int, j: int)
    requires j == k + 1 && 1 <= n && 0 <= k <= |vw| && forall r :: 0 <= r < |vw| ==> |vw[r]| == n
    ensures (forall r, c :: 0 <= r < |vw| && 0 <= c < n ==> vw[r][c] > 0) ==> |VArcsAbove(n, vw, j)| == 2 * Times(k, n)
  {
    VRowsCount(n, vw, j, Times(k, n));
  }

  /** The rows above row `j = k + 1` give at most two arcs per pair. */
  lemma VArcsAboveBound(n: int, vw: seq<seq<int>>, k: int, j: int)
    requires j == k + 1 && 1 <= n && 0 <= k <= |vw| && forall r :: 0 <= r < |vw| ==> |vw[r]| == n
    ensures |VArcsAbove(n, vw, j)| <= 2 * Times(k, n)
  {
    VRowsCount(n, vw, j, Times(k, n));
  }

  /** Appending two runs one after the other is appending their concatenation. */
  lemma ArcsAssoc(a: seq<Arc>, b: seq<Arc>, c: seq<Arc>)
    ensures a + b + c == a + (b + c)
  {
  }

  /** Row `i`'s horizontal arcs follow those of the rows above it. */
  lemma HArcsAboveNext(n: int, hw: seq<seq<int>>, i: int, a0: seq<Arc>, a: seq<Arc>, b: seq<Arc>)
    requires 1 <= n && 1 <= i <= |hw| && forall r :: 0 <= r < |hw| ==> |hw[r]| == n - 1
    requires a == a0 + HArcsAbove(n, hw, i) && b == a + HRow(n, hw[i - 1], Times(i - 1, n), n)
    ensures b == a0 + HArcsAbove(n, hw, i + 1)
  {
    var p := Times(i - 1, n);
    assert Times(i, n) - n == p;
    var x, y := HRows(n, hw, i, p), HRow(n, hw[i - 1], p, n);
    assert HArcsAbove(n, hw, i + 1) == x + y;
    ArcsAssoc(a0, x, y);
  }

  /** Row `i`'s vertical arcs follow those of the rows above it. */
  lemma VArcsAboveNext(n: int, vw: seq<seq<int>>, i: int, a0: seq<Arc>, a: seq<Arc>, b: seq<Arc>)
    requires 1 <= n && 1 <= i <= |vw| && forall r :: 0 <= r < |vw| ==> |vw[r]| == n
    requires a == a0 + VArcsAbove(n, vw, i) && b == a + VRow(n, vw[i - 1], Times(i - 1, n), n + 1)
    ensures b == a0 + VArcsAbove(n, vw, i + 1)
  {
    var p := Times(i - 1, n);
    assert Times(i, n) - n == p;
    var x, y := VRows(n, vw, i, p), VRow(n, vw[i - 1], p, n + 1);
    assert VArcsAbove(n, vw, i + 1) == x + y;
    ArcsAssoc(a0, x, y);
  }

  lemma {:induction false} TimesGrow(k: nat, k': nat, x: int)
    requires k <= k' && 0 <= x
    ensures Times(k, x) <= Times(k', x)
  {
    if k < k' {
      TimesGrow(k, k' - 1, x);
    }
  }

  /** Each row has `n - 1` horizontal pairs, each giving at most two arcs. */
  lemma {:induction false} HRowsCount(n: int, hw: seq<seq<int>>, i: int, base: int)
    requires 1 <= n && 1 <= i <= |hw| + 1 && forall r :: 0 <= r < |hw| ==> |hw[r]| == n - 1
    ensures |HRows(n, hw, i, base)| <= 2 * Times(i - 1, n - 1)
    ensures (forall r, c :: 0 <= r < |hw| && 0 <= c < n - 1 ==> hw[r][c] > 0) ==>
            |HRows(n, hw, i, base)| == 2 * Times(i - 1, n - 1)
  {
    if i > 1 {
      var pre, row := HRows(n, hw, i - 1, base - n), HRow(n, hw[i - 2], base - n, n);
      HRowsCount(n, hw, i - 1, base - n);
      HRowCount(n, hw[i - 2], base - n, n);
      assert HRows(n, hw, i, base) == pre + row;
      assert Times(i - 1, n - 1) == Times(i - 2, n - 1) + (n - 1);
    }
  }

  /** The arcs of columns `1..j-1` of a row: all `n` apart, with smaller ends in that stretch of the row. */
  lemma {:induction false} VRowShape(n: int, row: seq<int>, base: int, j: int)
    requires 1 <= j <= n + 1 && |row| == n
    ensures DistinctPairs(VRow(n, row, base, j)) && AllBetween(VRow(n, row, base, j), n, base + 1, base + j, base + 2 * n)
  {
    if j > 1 {
      var pre, step := VRow(n, row, base, j - 1), PairArcs(base + j - 1, base + j - 1 + n, row[j - 2]);
      VRowShape(n, row, base, j - 1);
      BetweenConcat(pre, step, n, base + 1, base + j - 1, base + j - 1, base + j, base + 2 * n, base + 2 * n);
    }
  }

  lemma {:induction false} VRowCount(n: int, row: seq<int>, base: int, j: int)
    requires 1 <= j <= n + 1 && |row| == n
    ensures |VRow(n, row, base, j)| <= 2 * (j - 1)
    ensures (forall c :: 0 <= c < n ==> row[c] > 0) ==> |VRow(n, row, base, j)| == 2 * (j - 1)
  {
    if j > 1 {
      VRowCount(n, row, base, j - 1);
    }
  }

  /** The vertical arcs of rows `1..i-1`, the first row's pixels following `base0`: smaller ends below row `i`. */
  lemma {:induction false} VRowsShape(n: int, vw: seq<seq<int>>, i: int, base0: int, base: int)
    requires 1 <= n && 1 <= i <= |vw| + 1 && forall r :: 0 <= r < |vw| ==> |vw[r]| == n
    requires base == base0 + Times(i - 1, n)
    ensures DistinctPairs(VRows(n, vw, i, base)) == true && AllBetween(VRows(n, vw, i, base), n, base0 + 1, base + 1, base + n) == true
  {
    if i > 1 {
      var k, b' := i - 1, base - n;
      assert Times(k, n) == Times(k - 1, n) + n;
      VRowsShape(n, vw, k, base0, b');
      VRowsNext(n, vw, i, k, base0, b', base);
    }
  }

  /** Row `k = i - 1`'s vertical arcs, after those of the rows above it. */
  lemma VRowsNext(n: int, vw: seq<seq<int>>, i: int, k: int, base0: int, b': int, base: int)
    requires 1 <= n && 2 <= i <= |vw| + 1 && forall r :: 0 <= r < |vw| ==> |vw[r]| == n
    requires k == i - 1 && b' == base - n && base == base0 + Times(k, n) && b' == base0 + Times(k - 1, n)
    requires DistinctPairs(VRows(n, vw, k, b')) == true && AllBetween(VRows(n, vw, k, b'), n, base0 + 1, b' + 1, b' + n) == true
    ensures DistinctPairs(VRows(n, vw, i, base)) == true && AllBetween(VRows(n, vw, i, base), n, base0 + 1, base + 1, base + n) == true
  {
    var pre, row := VRows(n, vw, k, b'), VRow(n, vw[i - 2], b', n + 1);
    TimesMonotone(k - 1, n);
    assert DistinctPairs(pre) == true && AllBetween(pre, n, base0 + 1, b' + 1, base) == true by {
      Widen(pre, n, base0 + 1, b' + 1, b' + n, base0 + 1, b' + 1, base);
    }
    assert DistinctPairs(row) == true && AllBetween(row, n, b' + 1, base + 1, base + n) == true by {
      VRowShape(n, vw[i - 2], b', n + 1);
      Widen(row, n, b' + 1, b' + (n + 1), b' + 2 * n, b' + 1, base + 1, base + n);
    }
    BetweenConcat(pre, row, n, base0 + 1, b' + 1, b' + 1, base + 1, base, base + n);
    assert VRows(n, vw, i, base) == pre + row;
  }

  /** Each row but the last has `n` vertical pairs, each giving at most two arcs. */
  lemma {:induction false} VRowsCount(n: int, vw: seq<seq<int>>, i: int, base: int)
    requires 1 <= n && 1 <= i <= |vw| + 1 && forall r :: 0 <= r < |vw| ==> |vw[r]| == n
    ensures |VRows(n, vw, i, base)| <= 2 * Times(i - 1, n)
    ensures (forall r, c :: 0 <= r < |vw| && 0 <= c < n ==> vw[r][c] > 0) ==>
            |VRows(n, vw, i, base)| == 2 * Times(i - 1, n)
  {
    if i > 1 {
      var pre, row := VRows(n, vw, i - 1, base - n), VRow(n, vw[i - 2], base - n, n + 1);
      VRowsCount(n, vw, i - 1, base - n);
      VRowCount(n, vw[i - 2], base - n, n + 1);
      assert VRows(n, vw, i, base) == pre + row;
      assert Times(i - 1, n) == Times(i - 2, n) + n;
    }
  }

  /** Every arc of `InitArcs` is proper. */
  ghost predicate AllProper(arcs: seq<Arc>, t: int)
  {
    forall k :: 0 <= k < |arcs| ==> Proper(arcs[k], t)
  }

  /**
   * What `graph_init` creates: proper arcs with pairwise different endpoint
   * pairs, at most `MaxArcs(m, n)` of them, and exactly that many when every
   * pixel has `l != c` and every neighbour weight is positive.
   */
  lemma InitShape(m: int, n: int, ls: seq<int>, cs: seq<int>, hw: seq<seq<int>>, vw: seq<seq<int>>)
    requires Input(m, n, ls, cs, hw, vw)
    ensures DistinctPairs(InitArcs(m, n, ls, cs, hw, vw)) && AllProper(InitArcs(m, n, ls, cs, hw, vw), NumV(m, n))
    ensures |InitArcs(m, n, ls, cs, hw, vw)| <= MaxArcs(m, n)
    ensures (forall u :: 0 <= u < m * n ==> ls[u] != cs[u]) &&
            (forall r, c :: 0 <= r < m && 0 <= c < n - 1 ==> hw[r][c] > 0) &&
            (forall r, c :: 0 <= r < m - 1 && 0 <= c < n ==> vw[r][c] > 0) ==>
            |InitArcs(m, n, ls, cs, hw, vw)| == MaxArcs(m, n)
  {
    var t := m * n + 1;
    InitArcsSimple(m, n, t, ls, cs, hw, vw);
    InitCount(m, n, t, ls, cs, hw, vw);
  }

  /** At most one terminal arc per pixel and two arcs per neighbour pair; exactly that many when no weight rules an arc out. */
  lemma InitCount(m: int, n: int, t: int, ls: seq<int>, cs: seq<int>, hw: seq<seq<int>>, vw: seq<seq<int>>)
    requires Input(m, n, ls, cs, hw, vw) && t == m * n + 1
    ensures |InitArcs(m, n, ls, cs, hw, vw)| <= MaxArcs(m, n)
    ensures (forall u :: 0 <= u < m * n ==> ls[u] != cs[u]) &&
            (forall r, c :: 0 <= r < m && 0 <= c < n - 1 ==> hw[r][c] > 0) &&
            (forall r, c :: 0 <= r < m - 1 && 0 <= c < n ==> vw[r][c] > 0) ==>
            |InitArcs(m, n, ls, cs, hw, vw)| == MaxArcs(m, n)
  {
    InitBound(m, n, t, ls, cs, hw, vw);
    if (forall u :: 0 <= u < m * n ==> ls[u] != cs[u]) &&
       (forall r, c :: 0 <= r < m && 0 <= c < n - 1 ==> hw[r][c] > 0) &&
       (forall r, c :: 0 <= r < m - 1 && 0 <= c < n ==> vw[r][c] > 0)
    {
      InitExact(m, n, t, ls, cs, hw, vw);
    }
  }

  /** The bound half of `InitCount`. */
  lemma InitBound(m: int, n: int, t: int, ls: seq<int>, cs: seq<int>, hw: seq<seq<int>>, vw: seq<seq<int>>)
    requires Input(m, n, ls, cs, hw, vw) && t == m * n + 1
    ensures |InitArcs(m, n, ls, cs, hw, vw)| <= MaxArcs(m, n)
  {
    InitPasses(m, n, t, ls, cs, hw, vw);
    RowBases(m, n);
    TermCount(ls, cs, t, t - 1);
    HArcsAboveBound(n, hw, m);
    VArcsAboveBound(n, vw, m - 1, m);
  }

  /** The exact half of `InitCount`. */
  lemma InitExact(m: int, n: int, t: int, ls: seq<int>, cs: seq<int>, hw: seq<seq<int>>, vw: seq<seq<int>>)
    requires Input(m, n, ls, cs, hw, vw) && t == m * n + 1
    requires forall u :: 0 <= u < m * n ==> ls[u] != cs[u]
    requires forall r, c :: 0 <= r < m && 0 <= c < n - 1 ==> hw[r][c] > 0
    requires forall r, c :: 0 <= r < m - 1 && 0 <= c < n ==> vw[r][c] > 0
    ensures |InitArcs(m, n, ls, cs, hw, vw)| == MaxArcs(m, n)
  {
    InitPasses(m, n, t, ls, cs, hw, vw);
    RowBases(m, n);
    TermCount(ls, cs, t, t - 1);
    HArcsAboveCount(n, hw, m);
    VArcsAboveCount(n, vw, m - 1, m);
  }

  /** `InitArcs` with the pixel count as a plain number, and the bounds that number meets. */
  lemma {:induction false} InitSized(m: int, n: int, ls: seq<int>, cs: seq<int>, hw: seq<seq<int>>, vw: seq<seq<int>>)
    requires Input(m, n, ls, cs, hw, vw)
    ensures Sized(m, n, m * n, ls, cs, hw, vw)
  {
    RowBases(m, n);
  }

  /** The arc runs of `graph_init` with the pixel count `mn` as a plain number. */
  ghost predicate Sized(m: int, n: int, mn: int, ls: seq<int>, cs: seq<int>, hw: seq<seq<int>>, vw: seq<seq<int>>)
  {
    && 1 <= m && 1 <= n && n <= mn && mn == Times(m, n) && mn - n == Times(m - 1, n)
    && |ls| == mn && |cs| == mn
    && |hw| == m && (forall i :: 0 <= i < m ==> |hw[i]| == n - 1)
    && |vw| == m - 1 && (forall i :: 0 <= i < m - 1 ==> |vw[i]| == n)
  }

  /** The runs together are proper arcs with pairwise different endpoint pairs. */
  lemma {:induction false} InitRuns(m: int, n: int, mn: int, t: int, ls: seq<int>, cs: seq<int>, hw: seq<seq<int>>, vw: seq<seq<int>>)
    requires Sized(m, n, mn, ls, cs, hw, vw) && t == mn + 1
    ensures DistinctPairs(TermArcs(ls, cs, t, mn) + HRows(n, hw, m + 1, mn) + VRows(n, vw, m, mn - n))
    ensures AllProper(TermArcs(ls, cs, t, mn) + HRows(n, hw, m + 1, mn) + VRows(n, vw, m, mn - n), t)
  {
    var a, b, c := TermArcs(ls, cs, t, mn), HRows(n, hw, m + 1, mn), VRows(n, vw, m, mn - n);
    assert DistinctPairs(a) == true && AllTerm(a, t, 1, mn + 1) == true by {
      TermShape(ls, cs, t, mn);
    }
    assert DistinctPairs(b) == true && AllBetween(b, 1, 0 + 1, mn, mn) == true by {
      assert m + 1 - 1 == m;
      HRowsShape(n, hw, m + 1, 0, mn);
    }
    assert DistinctPairs(c) == true && AllBetween(c, n, 0 + 1, mn - n + 1, mn - n + n) == true by {
      VRowsShape(n, vw, m, 0, mn - n);
    }
    assert n == 1 ==> b == [] by {
      if n == 1 {
        HRowsEmpty(hw, m + 1, mn);
      }
    }
    InitParts(a, b, c, n, mn, t);
  }

  /** The row bases and pair counts of an `m` x `n` grid, by repeated addition. */
  lemma RowBases(m: int, n: int)
    requires 1 <= m && 1 <= n
    ensures Times(m, n) == m * n && Times(m - 1, n) == m * n - n
    ensures 2 * Times(m, n - 1) + 2 * Times(m - 1, n) == 2 * Pairs(m, n)
    ensures NumV(m, n) == m * n + 1 && MaxArcs(m, n) == m * n + 2 * Pairs(m, n) && n <= m * n
  {
    TimesMul(m, n);
    TimesMul(m - 1, n);
    TimesMul(m, n - 1);
    assert (m - 1) * n == m * n - n;
  }

  /** The three runs of arcs fit together: terminal arcs touch `s` or `t`, neighbour arcs are `1` or `n` apart. */
  lemma InitParts(a: seq<Arc>, b: seq<Arc>, c: seq<Arc>, n: int, mn: int, t: int)
    requires 1 <= n <= mn && t == mn + 1
    requires DistinctPairs(a) == true && DistinctPairs(b) == true && DistinctPairs(c) == true
    requires AllTerm(a, t, 1, mn + 1) == true && AllBetween(b, 1, 0 + 1, mn, mn) == true
    requires AllBetween(c, n, 0 + 1, mn - n + 1, mn - n + n) == true
    requires n == 1 ==> b == []
    ensures DistinctPairs(a + b + c) && AllProper(a + b + c, t)
  {
    Widen(b, 1, 0 + 1, mn, mn, 1, t - 1, t - 1);
    Widen(c, n, 0 + 1, mn - n + 1, mn - n + n, 1, t - n, t - 1);
    forall i, j | 0 <= i < |a| && 0 <= j < |b| ensures a[i].src != b[j].src || a[i].dst != b[j].dst {
      assert Between(b[j], 1, 1, t - 1, t - 1);
    }
    DistinctConcat(a, b);
    var ab := a + b;
    forall i, j | 0 <= i < |ab| && 0 <= j < |c| ensures ab[i].src != c[j].src || ab[i].dst != c[j].dst {
      assert Between(c[j], n, 1, t - n, t - 1);
      if i < |a| {
        assert ab[i] == a[i];
      } else {
        assert ab[i] == b[i - |a|] && Between(b[i - |a|], 1, 1, t - 1, t - 1);
      }
    }
    DistinctConcat(ab, c);
    var abc := ab + c;
    forall k | 0 <= k < |abc| ensures Proper(abc[k], t) {
      if k < |a| {
        assert abc[k] == a[k];
      } else if k < |ab| {
        assert abc[k] == b[k - |a|] && Between(b[k - |a|], 1, 1, t - 1, t - 1);
      } else {
        assert abc[k] == c[k - |ab|] && Between(c[k - |ab|], n, 1, t - n, t - 1);
      }
    }
  }

  /** A one-column image has no horizontal neighbours. */
  lemma {:induction false} HRowsEmpty(hw: seq<seq<int>>, i: int, base: int)
    requires 1 <= i <= |hw| + 1 && forall r :: 0 <= r < |hw| ==> |hw[r]| == 0
    ensures HRows(1, hw, i, base) == []
  {
    if i > 1 {
      HRowsEmpty(hw, i - 1, base - 1);
    }
  }
}
