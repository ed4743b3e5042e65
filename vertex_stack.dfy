/**
 * The vertex stack of the strongly-connected-components projects of
 * 2017-2018: a bounded array stack with a mark per vertex id.
 */
module VertexStacks {
  import opened Seqs

  /**
   * The vertex stack of proj/2017-2018/p1/src/proj.c (`stack_*`; the C++
   * `Stack` class behaves alike): ids kept 1-based in `data[1..idx]` and a
   * mark per id.  Push is NOT idempotent here, so the marks agree with the
   * contents only while no id is pushed twice.
   */
  class VertexStack {
    var idx: nat
    const data: array<int>
    const inStack: array<bool>
    /** The held ids, bottom first: `data[1..idx]`. */
    ghost var contents: seq<int>

    /** Bounds: the contents fit and are valid ids for the marks. */
    ghost predicate Ok()
      reads this, data, inStack
    {
      idx < data.Length && |contents| == idx &&
      (forall i :: 0 <= i < idx ==> data[i + 1] == contents[i]) &&
      AllIn(contents, 0, inStack.Length)
    }

    /** Bounds, no id held twice, and an id is marked exactly while held. */
    ghost predicate Valid()
      reads this, data, inStack
    {
      Ok() && Distinct(contents) && MarksMatch(inStack[..], contents)
    }

    /**
     * `stack_new(st, size)`: an empty stack with cleared marks.  The C code
     * allocates `size` cells of pointer width, which hold at least `size + 1`
     * ids; the C++ constructor is called with `size + 1`.
     */
    constructor New(size: nat)
      ensures Valid() && contents == []
      ensures data.Length == size + 1 && inStack.Length == size + 1
      ensures fresh(data) && fresh(inStack)
    {
      idx := 0;
      data := new int[size + 1];
      inStack := new bool[size + 1](_ => false);
      contents := [];
    }

    /** `stack_push`: stores `u` at `data[idx + 1]` and marks it. */
    method Push(u: int)
      requires Ok() && idx + 1 < data.Length && 0 <= u < inStack.Length
      modifies this, data, inStack
      ensures Ok() && idx == old(idx) + 1
      ensures contents == old(contents) + [u]
      ensures inStack[..] == old(inStack[..])[u := true]
      ensures old(Valid()) && u !in old(contents) ==> Valid()
    {
      idx := idx + 1;
      data[idx] := u;
      inStack[u] := true;
      contents := contents + [u];
    }

    /** `stack_pop`: returns the top id `data[idx]`, removes it and clears its mark. */
    method Pop() returns (u: int)
      requires Ok() && idx > 0
      modifies this, inStack
      ensures Ok() && idx == old(idx) - 1
      ensures u == old(contents)[|old(contents)| - 1]
      ensures contents == old(contents)[..|old(contents)| - 1]
      ensures inStack[..] == old(inStack[..])[u := false]
      ensures old(Valid()) ==> Valid()
    {
      ghost var before := contents;
      u := data[idx];
      assert u == before[idx - 1];
      idx := idx - 1;
      inStack[u] := false;
      contents := contents[..|contents| - 1];
      if old(Valid()) {
        assert before == contents + [u];
        forall x | 0 <= x < inStack.Length ensures inStack[x] <==> x in contents {
          assert x in before <==> x in contents || x == u;
        }
      }
    }

    /** `stack_contains`: the mark of `u`, i.e. whether `u` is held. */
    function Contains(u: int): (r: bool)
      reads this, data, inStack
      requires 0 <= u < inStack.Length
      ensures Valid() ==> (r <==> u in contents)
    {
      inStack[u]
    }

    /** `stack_is_empty`: holds iff nothing is held. */
    function IsEmpty(): (r: bool)
      reads this, data, inStack
      ensures Ok() ==> (r <==> contents == [])
    {
      idx == 0
    }
  }
}
