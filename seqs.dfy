/**
 * Sequence facts shared by the marker sets and the graph algorithms:
 * distinctness, the pigeonhole bound that keeps id-indexed buffers in range,
 * and the two orders the repository sorts in (`cmp_vertex` ascending in the
 * 2017-2018 SCC project, `intcmp`/`cmp_vertex` descending elsewhere).
 * The library `qsort` is specified by its result: a sorted permutation.
 */
module Seqs {

  /** No value occurs twice in `s`. */
  ghost predicate Distinct(s: seq<int>)
  {
    forall i, j :: 0 <= i < j < |s| ==> s[i] != s[j]
  }

  /** Every value of `s` lies in `[lo, hi)`. */
  ghost predicate AllIn(s: seq<int>, lo: int, hi: int)
  {
    forall i :: 0 <= i < |s| ==> lo <= s[i] < hi
  }

  /** The set of the values held by `s`. */
  ghost function Elems(s: seq<int>): set<int>
  {
    set x | x in s
  }

  lemma {:induction false} DistinctElems(s: seq<int>)
    requires Distinct(s)
    ensures |Elems(s)| == |s|
  {
    if s != [] {
      var t := s[..|s| - 1];
      assert Distinct(t);
      DistinctElems(t);
      assert Elems(s) == Elems(t) + {s[|s| - 1]};
      assert s[|s| - 1] !in Elems(t);
    }
  }

  /** The integers of `[lo, hi)`. */
  ghost function Range(lo: int, hi: int): set<int>
    decreases hi - lo
  {
    if hi <= lo then {} else Range(lo, hi - 1) + {hi - 1}
  }

  lemma {:induction false} RangeSize(lo: int, hi: int)
    requires lo <= hi
    ensures |Range(lo, hi)| == hi - lo
    ensures forall x :: x in Range(lo, hi) <==> lo <= x < hi
    decreases hi - lo
  {
    if lo < hi {
      RangeSize(lo, hi - 1);
    }
  }

  /**
   * Pigeonhole: a duplicate-free sequence of values in `[lo, hi)` is no
   * longer than the range.  This is what keeps a marker-set buffer sized by
   * the largest id from overflowing.
   */
  lemma DistinctBounded(s: seq<int>, lo: int, hi: int)
    requires Distinct(s) && AllIn(s, lo, hi) && lo <= hi
    ensures |s| <= hi - lo
  {
    DistinctElems(s);
    RangeSize(lo, hi);
    var a, b := Elems(s), Range(lo, hi);
    assert a <= b;
    assert b == a + (b - a);
  }

  /**
   * A duplicate-free sequence of exactly `hi - lo` values in `[lo, hi)`
   * holds every value of the range.
   */
  lemma DistinctFull(s: seq<int>, lo: int, hi: int)
    requires Distinct(s) && AllIn(s, lo, hi) && |s| == hi - lo
    ensures Elems(s) == Range(lo, hi)
  {
    DistinctElems(s);
    RangeSize(lo, hi);
    var a, b := Elems(s), Range(lo, hi);
    assert a <= b;
    assert b == a + (b - a);
    assert |b - a| == 0;
  }

  ghost predicate SortedAsc(s: seq<int>)
  {
    forall i, j :: 0 <= i < j < |s| ==> s[i] <= s[j]
  }

  ghost predicate SortedDesc(s: seq<int>)
  {
    forall i, j :: 0 <= i < j < |s| ==> s[i] >= s[j]
  }

  /** Insertion of `x` into an ascending sequence. */
  function InsertAsc(x: int, s: seq<int>): (r: seq<int>)
    requires SortedAsc(s)
    ensures |r| == |s| + 1 && r[0] == (if s == [] || x <= s[0] then x else s[0])
    ensures SortedAsc(r) && multiset(r) == multiset(s) + multiset{x}
  {
    if s == [] then [x]
    else if x <= s[0] then [x] + s
    else
      var t := InsertAsc(x, s[1..]);
      assert s == [s[0]] + s[1..];
      assert multiset(s) == multiset{s[0]} + multiset(s[1..]);
      [s[0]] + t
  }

  /** The ascending order `qsort` with `cmp_vertex(a, b) = a - b` produces. */
  function SortAsc(s: seq<int>): (r: seq<int>)
    ensures SortedAsc(r) && multiset(r) == multiset(s) && |r| == |s|
  {
    if s == [] then []
    else
      assert s == [s[0]] + s[1..];
      InsertAsc(s[0], SortAsc(s[1..]))
  }

  /** Insertion of `x` into a descending sequence. */
  function InsertDesc(x: int, s: seq<int>): (r: seq<int>)
    requires SortedDesc(s)
    ensures |r| == |s| + 1 && r[0] == (if s == [] || x >= s[0] then x else s[0])
    ensures SortedDesc(r) && multiset(r) == multiset(s) + multiset{x}
  {
    if s == [] then [x]
    else if x >= s[0] then [x] + s
    else
      var t := InsertDesc(x, s[1..]);
      assert s == [s[0]] + s[1..];
      assert multiset(s) == multiset{s[0]} + multiset(s[1..]);
      [s[0]] + t
  }

  /** The descending order `qsort` with `intcmp(a, b) = b - a` produces. */
  function SortDesc(s: seq<int>): (r: seq<int>)
    ensures SortedDesc(r) && multiset(r) == multiset(s) && |r| == |s|
  {
    if s == [] then []
    else
      assert s == [s[0]] + s[1..];
      InsertDesc(s[0], SortDesc(s[1..]))
  }

  /** A permutation keeps distinctness, the value range and the value set. */
  lemma PermutationKeeps(s: seq<int>, t: seq<int>, lo: int, hi: int)
    requires multiset(s) == multiset(t)
    ensures Distinct(s) ==> Distinct(t)
    ensures AllIn(s, lo, hi) ==> AllIn(t, lo, hi)
    ensures Elems(s) == Elems(t)
  {
    forall x ensures x in s <==> x in t {
      assert x in s <==> x in multiset(s);
      assert x in t <==> x in multiset(t);
    }
    if Distinct(s) {
      forall i, j | 0 <= i < j < |t| ensures t[i] != t[j] {
        if t[i] == t[j] {
          var x := t[i];
          assert multiset(t)[x] >= 2 by {
            assert t == t[..i] + [x] + t[i + 1..j] + [x] + t[j + 1..];
          }
          DistinctCount(s, x);
        }
      }
    }
    if AllIn(s, lo, hi) {
      forall i | 0 <= i < |t| ensures lo <= t[i] < hi {
        assert t[i] in multiset(s);
      }
    }
  }

  lemma {:induction false} DistinctCount(s: seq<int>, x: int)
    requires Distinct(s)
    ensures multiset(s)[x] <= 1
  {
    if s != [] {
      var t := s[..|s| - 1];
      assert s == t + [s[|s| - 1]];
      assert Distinct(t);
      DistinctCount(t, x);
      if s[|s| - 1] == x {
        assert x !in t;
      }
    }
  }

  /** `marks[x]` holds exactly when `x` is one of the held ids. */
  ghost predicate MarksMatch(marks: seq<bool>, held: seq<int>)
  {
    forall x :: 0 <= x < |marks| ==> (marks[x] <==> x in held)
  }

  /** The marks left by clearing the first `n` entries of `marks` (a `memset` by count). */
  function ClearedByIndex(marks: seq<bool>, n: int): (r: seq<bool>)
    ensures |r| == |marks|
    ensures forall x :: 0 <= x < |marks| ==> r[x] == (if x < n then false else marks[x])
  {
    seq(|marks|, x requires 0 <= x < |marks| => if x < n then false else marks[x])
  }

  /** Reordering the held ids keeps the marker-set invariant over the same marks. */
  lemma MarksPermuted(marks: seq<bool>, s: seq<int>, t: seq<int>)
    requires multiset(s) == multiset(t) && Distinct(s) && AllIn(s, 0, |marks|) && MarksMatch(marks, s)
    ensures Distinct(t) && AllIn(t, 0, |marks|) && MarksMatch(marks, t)
  {
    PermutationKeeps(s, t, 0, |marks|);
    forall x | 0 <= x < |marks| ensures marks[x] <==> x in t {
      assert x in s <==> x in Elems(s);
      assert x in t <==> x in Elems(t);
    }
  }

  /** Extending a sequence keeps its prefixes. */
  lemma PrefixKept(s: seq<int>, t: seq<int>, k: int)
    requires s <= t && 0 <= k <= |s|
    ensures t[..k] == s[..k]
  {
  }
}
