/**
 * The marker stack of common/src/Stack.c (the same code is repeated in
 * proj/2020-2021/p1/src/proj.c): an integer stack kept 1-based in
 * `data[1..idx]`, plus a boolean array indexed by id that marks the ids held.
 * Push is idempotent, so an id is never held twice.
 *
 * The C functions take a `Stack *`; those that test it against NULL take a
 * `Stack?` here.
 */
module MarkerStack {
  import opened Seqs

  class Stack {
    var idx: nat
    const data: array<int>
    const inStack: array<bool>

    /** The held ids, bottom first: `data[1..idx]`. */
    ghost function Contents(): seq<int>
      reads this, data
      requires idx == 0 || idx < data.Length
    {
      if idx == 0 then [] else data[1..idx + 1]
    }

    /** The marker-set invariant: distinct ids in range, marked exactly while held. */
    ghost predicate Valid()
      reads this, data, inStack
    {
      && (idx == 0 || idx < data.Length)
      && Distinct(Contents())
      && AllIn(Contents(), 0, inStack.Length)
      && MarksMatch(inStack[..], Contents())
    }

    /** `Stack_New`: an empty stack for ids below `size`, marks cleared (calloc). */
    constructor New(size: nat)
      ensures Valid() && Contents() == []
      ensures data.Length == size && inStack.Length == size
      ensures fresh(data) && fresh(inStack)
    {
      idx := 0;
      data := new int[size];
      inStack := new bool[size](_ => false);
    }
  }

  /** What `Stack_Push(st, u)` needs: `u` is a valid id and, if not held, there is room. */
  ghost predicate CanPush(st: Stack, u: int)
    reads st, st.data, st.inStack
  {
    st.Valid() && 0 <= u < st.inStack.Length && (st.inStack[u] || st.idx + 1 < st.data.Length)
  }

  /** `Stack_Push`: a no-op on NULL or on an id already held; else stores `u` at `data[idx+1]`. */
  method Push(st: Stack?, u: int)
    requires st != null ==> CanPush(st, u)
    modifies if st != null then {st, st.data, st.inStack} else {}
    ensures st != null ==> st.Valid()
    ensures st != null ==> st.Contents() == if old(st.inStack[u]) then old(st.Contents()) else old(st.Contents()) + [u]
    ensures st != null && old(st.inStack[u]) ==> st.idx == old(st.idx) && st.data[..] == old(st.data[..])
  {
    if st == null { return; }
    if st.inStack[u] { return; }
    ghost var before := st.Contents();
    st.idx := st.idx + 1;
    st.data[st.idx] := u;
    st.inStack[u] := true;
    assert st.Contents() == before + [u];
  }

  /** `Stack_Pop`: 0 on NULL; else the top id, which is unmarked and removed. */
  method Pop(st: Stack?) returns (u: int)
    requires st != null ==> st.Valid() && st.idx > 0
    modifies if st != null then {st, st.inStack} else {}
    ensures st == null ==> u == 0
    ensures st != null ==> st.Valid()
    ensures st != null ==> var c := old(st.Contents()); u == c[|c| - 1] && st.Contents() == c[..|c| - 1]
    ensures st != null ==> st.idx == old(st.idx) - 1 && !st.inStack[u]
  {
    if st == null { return 0; }
    ghost var before := st.Contents();
    u := st.data[st.idx];
    st.idx := st.idx - 1;
    st.inStack[u] := false;
    assert st.Contents() == before[..|before| - 1];
  }

  /** `Stack_Contains`: false on NULL, else the mark of `u`, i.e. whether `u` is held. */
  function Contains(st: Stack?, u: int): (r: bool)
    reads st, if st != null then {st.data, st.inStack} else {}
    requires st != null ==> 0 <= u < st.inStack.Length
    ensures st == null ==> !r
    ensures st != null && st.Valid() ==> (r <==> u in st.Contents())
  {
    if st == null then false else st.inStack[u]
  }

  /** `Stack_Size`: the number of held ids. */
  function Size(st: Stack): (r: int)
    reads st, st.data, st.inStack
    ensures st.Valid() ==> r == |st.Contents()|
  {
    st.idx
  }

  /** `Stack_IsEmpty`: holds iff no id is held. */
  function IsEmpty(st: Stack): (r: bool)
    reads st, st.data, st.inStack
    ensures st.Valid() ==> (r <==> st.Contents() == [])
  {
    st.idx == 0
  }

  /** `Stack_Sort`: reorders the held ids in descending order (`qsort` with `intcmp`). */
  method Sort(st: Stack?)
    requires st != null ==> st.Valid()
    modifies if st != null then {st.data} else {}
    ensures st != null ==> st.Valid() && st.idx == old(st.idx)
    ensures st != null ==> SortedDesc(st.Contents()) && multiset(st.Contents()) == multiset(old(st.Contents()))
  {
    if st == null { return; }
    ghost var before := st.Contents();
    var sorted := SortDesc(if st.idx == 0 then [] else st.data[1..st.idx + 1]);
    CopyFrom(st.data, sorted);
    assert st.Contents() == sorted;
    MarksPermuted(st.inStack[..], before, sorted);
  }

  /** The write-back of the sorted ids into `data[1..]`. */
  method CopyFrom(data: array<int>, sorted: seq<int>)
    requires sorted == [] || |sorted| < data.Length
    modifies data
    ensures forall k :: 0 <= k < |sorted| ==> data[k + 1] == sorted[k]
  {
    var i := 0;
    while i < |sorted|
      invariant 0 <= i <= |sorted|
      invariant forall k :: 0 <= k < i ==> data[k + 1] == sorted[k]
    {
      data[i + 1] := sorted[i];
      i := i + 1;
    }
  }

  /**
   * `Stack_Reset` as written: empties the stack; `memset(in_stack, 0, idx)`
   * clears the marks of the ids 0..idx-1, whatever ids the stack holds.
   */
  method Reset(st: Stack)
    requires st.Valid()
    modifies st, st.inStack
    ensures st.idx == 0 && st.Contents() == []
    ensures st.inStack[..] == ClearedByIndex(old(st.inStack[..]), old(st.idx))
  {
    DistinctBounded(st.Contents(), 0, st.inStack.Length);
    ghost var marks := st.inStack[..];
    var i := 0;
    while i < st.idx
      invariant st.idx == old(st.idx) && 0 <= i <= st.idx <= st.inStack.Length
      invariant forall x :: 0 <= x < st.inStack.Length ==> st.inStack[x] == (if x < i then false else old(st.inStack[x]))
    {
      st.inStack[i] := false;
      i := i + 1;
    }
    assert st.inStack[..] == ClearedByIndex(marks, old(st.idx));
    st.idx := 0;
  }

  /**
   * `Stack_Reset` as written breaks the marker invariant: a stack holding the
   * single id 5 has `idx == 1`, so only the mark of id 0 is cleared and id 5
   * stays marked although nothing is held; a later `Stack_Push(st, 5)` is then
   * silently dropped.
   */
  lemma ResetLeavesStaleMark()
    ensures var marks := [false, false, false, false, false, true];
      && MarksMatch(marks, [5])
      && ClearedByIndex(marks, 1)[5]
      && !MarksMatch(ClearedByIndex(marks, 1), [])
  {
    var marks := [false, false, false, false, false, true];
    var after := ClearedByIndex(marks, 1);
    assert after[5];
  }

  /**
   * The evidently intended reset: clear the marks of the held ids (an
   * O(size) pass over `data[1..idx]`), then rewind.  It restores the
   * marker invariant on an empty stack.
   */
  method ResetHeld(st: Stack)
    requires st.Valid()
    modifies st, st.inStack
    ensures st.Valid() && st.Contents() == []
    ensures forall x :: 0 <= x < st.inStack.Length ==> !st.inStack[x]
  {
    ghost var held := st.Contents();
    var i := 1;
    while i <= st.idx
      invariant st.idx == old(st.idx) == |held| && (st.idx == 0 || st.idx < st.data.Length)
      invariant 1 <= i <= st.idx + 1
      invariant st.Contents() == held
      invariant forall x :: 0 <= x < st.inStack.Length ==> (st.inStack[x] <==> x in held[i - 1..])
    {
      var u := st.data[i];
      assert u == held[i - 1];
      st.inStack[u] := false;
      forall x | 0 <= x < st.inStack.Length ensures st.inStack[x] <==> x in held[i..] {
        assert held[i - 1..] == [u] + held[i..];
      }
      i := i + 1;
    }
    st.idx := 0;
  }
}
