/**
 * The queue of common/Queue.c: integers in `data[front..back)`, and, when
 * created with `refcount`, a boolean array indexed by id marking the ids
 * queued, which makes Push idempotent.  Without `refcount` the mark array is
 * absent (NULL) and the queue is a plain FIFO.
 */
module MarkerQueue {
  import opened Seqs

  /** `d` with its window `[lo, hi)` sorted in descending order, the rest unchanged. */
  function SortWindow(d: seq<int>, lo: int, hi: int): (r: seq<int>)
    requires 0 <= lo <= hi <= |d|
    ensures |r| == |d| && r[..lo] == d[..lo] && r[hi..] == d[hi..]
    ensures forall k :: 0 <= k < |d| && !(lo <= k < hi) ==> r[k] == d[k]
    ensures SortedDesc(r[lo..hi]) && multiset(r[lo..hi]) == multiset(d[lo..hi])
  {
    Spliced(d, SortDesc(d[lo..hi]), lo, hi);
    d[..lo] + SortDesc(d[lo..hi]) + d[hi..]
  }

  /** Replacing the window `[lo, hi)` of `d` by `w` leaves the rest in place. */
  lemma Spliced(d: seq<int>, w: seq<int>, lo: int, hi: int)
    requires 0 <= lo <= hi <= |d| && |w| == hi - lo
    ensures var r := d[..lo] + w + d[hi..];
      |r| == |d| && r[..lo] == d[..lo] && r[lo..hi] == w && r[hi..] == d[hi..] &&
      forall k :: 0 <= k < |d| && !(lo <= k < hi) ==> r[k] == d[k]
  {
    var r := d[..lo] + w + d[hi..];
    assert r[..lo] == d[..lo] && r[lo..hi] == w && r[hi..] == d[hi..];
    forall k | 0 <= k < |d| && !(lo <= k < hi) ensures r[k] == d[k] {
      if k < lo {
        assert r[k] == r[..lo][k];
      } else {
        assert r[k] == r[hi..][k - hi];
      }
    }
  }

  /** Writes `t[lo..hi)` into `a`, which already agrees with `t` elsewhere. */
  method Overwrite(a: array<int>, t: seq<int>, lo: int, hi: int)
    requires 0 <= lo <= hi <= a.Length == |t|
    requires forall k :: 0 <= k < a.Length && !(lo <= k < hi) ==> a[k] == t[k]
    modifies a
    ensures a[..] == t
  {
    var i := lo;
    while i < hi
      invariant lo <= i <= hi
      invariant forall k :: 0 <= k < a.Length && !(i <= k < hi) ==> a[k] == t[k]
    {
      a[i] := t[i];
      i := i + 1;
    }
    assert a[..] == t;
  }

  class Queue {
    var front: nat
    var back: nat
    const data: array<int>
    const inQueue: array?<bool>

    /** The queued ids, oldest first. */
    ghost function Contents(): seq<int>
      reads this, data
      requires front <= back <= data.Length
    {
      data[front..back]
    }

    /** Bounds, and with marks: distinct ids in range, marked exactly while queued. */
    ghost predicate Valid()
      reads this, data, inQueue
    {
      && front <= back <= data.Length
      && (inQueue != null ==>
            && inQueue.Length == data.Length
            && Distinct(Contents())
            && AllIn(Contents(), 0, inQueue.Length)
            && MarksMatch(inQueue[..], Contents()))
    }

    /** `Queue_New`: room for `size + 1` ids, zeroed marks only when `refcount`. */
    constructor New(size: nat, refcount: bool)
      ensures Valid() && Contents() == []
      ensures data.Length == size + 1
      ensures (inQueue != null) == refcount
      ensures inQueue != null ==> inQueue.Length == size + 1 && forall x :: 0 <= x < inQueue.Length ==> !inQueue[x]
    {
      data := new int[size + 1];
      if refcount {
        inQueue := new bool[size + 1](_ => false);
      } else {
        inQueue := null;
      }
      front, back := 0, 0;
    }

    /** `Queue_InQueue`: false without marks, else whether `u` is queued. */
    function InQueue(u: int): (r: bool)
      reads this, data, inQueue
      requires inQueue != null ==> 0 <= u < inQueue.Length
      ensures inQueue == null ==> !r
      ensures inQueue != null && Valid() ==> (r <==> u in Contents())
    {
      if inQueue != null then inQueue[u] else false
    }

    /** `Queue_Push`: a no-op on a marked id; else stores `u` at `back` and marks it. */
    method Push(u: int)
      requires Valid()
      requires inQueue != null ==> 0 <= u < inQueue.Length
      requires InQueue(u) || back < data.Length
      modifies this, data, inQueue
      ensures Valid() && front == old(front)
      ensures Contents() == if old(InQueue(u)) then old(Contents()) else old(Contents()) + [u]
    {
      if InQueue(u) { return; }
      ghost var before := Contents();
      data[back] := u;
      back := back + 1;
      if inQueue != null {
        inQueue[u] := true;
      }
      assert Contents() == before + [u];
    }

    /** `Queue_Pop`: removes and returns the oldest id, clearing its mark. */
    method Pop() returns (u: int)
      requires Valid() && front < back
      modifies this, inQueue
      ensures Valid() && back == old(back)
      ensures u == old(Contents())[0] && Contents() == old(Contents())[1..]
      ensures inQueue != null ==> !inQueue[u]
    {
      ghost var before := Contents();
      u := data[front];
      front := front + 1;
      if inQueue != null {
        inQueue[u] := false;
        assert Contents() == before[1..];
        forall x | 0 <= x < inQueue.Length ensures inQueue[x] <==> x in Contents() {
          if x != u {
            assert x in before <==> x in before[1..] by {
              assert before == [u] + before[1..];
            }
          } else {
            assert u !in before[1..] by {
              forall k | 0 <= k < |before| - 1 ensures before[1..][k] != u {
                assert before[k + 1] != before[0];
              }
            }
          }
        }
      }
    }

    /** `Queue_Size`: the number of queued ids. */
    function Size(): (r: int)
      reads this, data, inQueue
      ensures Valid() ==> r == |Contents()|
    {
      back - front
    }

    /** `Queue_IsEmpty`: holds iff nothing is queued. */
    function IsEmpty(): (r: bool)
      reads this, data, inQueue
      ensures Valid() ==> (r <==> Contents() == [])
    {
      front == back
    }

    /**
     * `Queue_Reset` as written: rewinds both ends to 0; with marks,
     * `memset(in_queue, false, back)` clears the marks of the ids 0..back-1,
     * whatever ids are queued.
     */
    method Reset()
      requires Valid()
      modifies this, inQueue
      ensures front == 0 && back == 0 && Contents() == []
      ensures inQueue != null ==> inQueue[..] == ClearedByIndex(old(inQueue[..]), old(back))
    {
      if inQueue != null {
        ghost var marks := inQueue[..];
        var i := 0;
        while i < back
          invariant back == old(back) && 0 <= i <= back <= inQueue.Length
          invariant forall x :: 0 <= x < inQueue.Length ==> inQueue[x] == (if x < i then false else marks[x])
        {
          inQueue[i] := false;
          i := i + 1;
        }
        assert inQueue[..] == ClearedByIndex(marks, back);
      }
      front, back := 0, 0;
    }

    /**
     * The evidently intended reset: clear the marks of the queued ids, then
     * rewind.  It restores the marker invariant on an empty queue.
     */
    method ResetHeld()
      requires Valid()
      modifies this, inQueue
      ensures Valid() && Contents() == []
      ensures inQueue != null ==> forall x :: 0 <= x < inQueue.Length ==> !inQueue[x]
    {
      if inQueue != null {
        ghost var held := Contents();
        var i := front;
        while i < back
          invariant front == old(front) && back == old(back) && front <= i <= back <= data.Length
          invariant held == Contents()
          invariant forall x :: 0 <= x < inQueue.Length ==> (inQueue[x] <==> x in held[i - front..])
        {
          var u := data[i];
          assert u == held[i - front];
          inQueue[u] := false;
          forall x | 0 <= x < inQueue.Length ensures inQueue[x] <==> x in held[i + 1 - front..] {
            assert held[i - front..] == [u] + held[i + 1 - front..];
          }
          i := i + 1;
        }
      }
      front, back := 0, 0;
    }

    /** Sorts `data[lo..hi)` in descending order (`qsort` with `intcmp`). */
    method SortRange(lo: nat, hi: nat)
      requires lo <= hi <= data.Length
      modifies data
      ensures data[..] == SortWindow(old(data[..]), lo, hi)
    {
      var target := SortWindow(data[..], lo, hi);
      Overwrite(data, target, lo, hi);
    }

    /**
     * `Queue_Sort` as written (its call to the undeclared `Queue_size` read as
     * `Queue_Size`): sorts the first `back - front` slots of `data`, which are
     * the queued ids only when `front == 0`.
     */
    method Sort()
      requires Valid()
      modifies data
      ensures data[..] == SortWindow(old(data[..]), 0, back - front)
    {
      SortRange(0, back - front);
    }

    /** The evidently intended sort: the queued ids, `data[front..back)`, in descending order. */
    method SortLive()
      requires Valid()
      modifies data
      ensures Valid() && data[..] == SortWindow(old(data[..]), front, back)
      ensures SortedDesc(Contents()) && multiset(Contents()) == multiset(old(Contents()))
    {
      SortRange(front, back);
      SortedKeepsValid(old(Contents()));
    }

    /**
     * With nothing popped, the window `Sort` sorts is the queue itself: the
     * queued ids come out descending and the marker invariant holds.
     */
    lemma SortedAtFront(d: seq<int>, before: seq<int>)
      requires front == 0 && back <= data.Length == |d| && before == d[0..back]
      requires data[..] == SortWindow(d, 0, back)
      requires inQueue != null ==>
        && inQueue.Length == data.Length && Distinct(before) && AllIn(before, 0, inQueue.Length)
        && MarksMatch(inQueue[..], before)
      ensures Valid() && SortedDesc(Contents()) && multiset(Contents()) == multiset(before)
    {
      assert Contents() == data[..][0..back];
      SortedKeepsValid(before);
    }

    /** A reordering of the queued ids keeps the marker invariant. */
    lemma SortedKeepsValid(before: seq<int>)
      requires front <= back <= data.Length
      requires multiset(Contents()) == multiset(before)
      requires inQueue != null ==>
        && inQueue.Length == data.Length && Distinct(before) && AllIn(before, 0, inQueue.Length)
        && MarksMatch(inQueue[..], before)
      ensures Valid()
    {
      if inQueue != null {
        var now := Contents();
        PermutationKeeps(before, now, 0, inQueue.Length);
        forall x ensures x in now <==> x in before {
          assert x in now <==> x in Elems(now);
          assert x in before <==> x in Elems(before);
        }
      }
    }
  }

  /**
   * `Queue_Sort` as written sorts the wrong window once ids were popped: with
   * `data == d == [3, 7, 5]`, `front == 1` and `back == 3` it sorts `data[0..2)`,
   * leaving the queued ids as `[3, 5]`, which is not descending.
   */
  lemma SortWrongWindow(d: seq<int>)
    requires |d| == 3 && d[0] == 3 && d[1] == 7 && d[2] == 5
    ensures SortWindow(d, 0, 2)[1..3] == [3, 5]
    ensures !SortedDesc(SortWindow(d, 0, 2)[1..3])
  {
    var r := SortWindow(d, 0, 2);
    SortedPair(r[0..2], d[0..2]);
    assert r[1] == r[0..2][1] && r[2] == r[2..][0];
    assert r[1..3] == [3, 5];
  }

  /** The only descending arrangement of an ascending pair `q`. */
  lemma SortedPair(p: seq<int>, q: seq<int>)
    requires |q| == 2 && q[0] < q[1] && SortedDesc(p) && multiset(p) == multiset(q)
    ensures p == [q[1], q[0]]
  {
    assert |p| == |multiset(p)| == 2;
    assert q == [q[0], q[1]] && p == [p[0], p[1]];
    assert p[0] in multiset(q) && p[1] in multiset(q);
  }

  /**
   * `Queue_Reset` as written leaves a stale mark once ids were popped: after
   * pushing 3 and 5 and popping 3 (`front == 1`, `back == 2`), it clears the
   * marks of ids 0 and 1 only, so id 5 stays marked although the queue is
   * empty, and a later `Queue_Push(q, 5)` is silently dropped.
   */
  lemma ResetAfterPopLeavesStaleMark()
    ensures var marks := [false, false, false, false, false, true];
      && MarksMatch(marks, [3, 5][1..2])
      && ClearedByIndex(marks, 2)[5]
      && !MarksMatch(ClearedByIndex(marks, 2), [])
  {
    var marks := [false, false, false, false, false, true];
    assert [3, 5][1..2] == [5];
    assert ClearedByIndex(marks, 2)[5];
  }
}
