/**
 * The queue of proj/2017-2018/p2/src/proj.c: pixel ids in
 * `data[front..rear)` and, when created with `refcount`, a boolean array
 * indexed by id that a push sets and a pop clears.  Unlike the queue of
 * common/Queue.c a push always stores its id, so the same id may be queued
 * twice.  Without `refcount` the mark array is absent (NULL).
 */
module PixelQueue {

  class Queue {
    var front: int
    var rear: int
    const data: array<int>
    const inQueue: array?<bool>

    /** The bounds of the live window; the marks, when present, cover as many ids as `data` has slots. */
    ghost predicate Valid()
      reads this
    {
      0 <= front <= rear <= data.Length && (inQueue != null ==> inQueue.Length == data.Length)
    }

    /** The queued ids, oldest first. */
    ghost function Contents(): seq<int>
      reads this, data
      requires Valid()
    {
      data[front..rear]
    }

    /** Lines 45-49, `queue_new`: room for `size` ids, zeroed marks only with `refcount`. */
    constructor (size: nat, refcount: bool)
      ensures Valid() && Contents() == [] && front == 0 && rear == 0
      ensures data.Length == size && fresh(data)
      ensures (inQueue != null) == refcount
      ensures inQueue != null ==> fresh(inQueue) && forall x :: 0 <= x < inQueue.Length ==> !inQueue[x]
    {
      data := new int[size];
      if refcount {
        inQueue := new bool[size](_ => false);
      } else {
        inQueue := null;
      }
      front, rear := 0, 0;
    }

    /** Lines 55-58, `queue_push`: `u` is stored at `rear`, which moves on, and marked. */
    method Push(u: int)
      requires Valid() && rear < data.Length
      requires inQueue != null ==> 0 <= u < inQueue.Length
      modifies this, data, inQueue
      ensures Valid() && front == old(front) && rear == old(rear) + 1
      ensures data[..rear] == old(data[..rear]) + [u]
      ensures Contents() == old(Contents()) + [u]
      ensures inQueue != null ==> inQueue[..] == old(inQueue[..])[u := true]
    {
      data[rear] := u;
      rear := rear + 1;
      if inQueue != null {
        inQueue[u] := true;
      }
    }

    /** Lines 59-63, `queue_pop`: the oldest id is returned and unmarked, and `front` moves on. */
    method Pop() returns (u: int)
      requires Valid() && front < rear
      requires inQueue != null ==> 0 <= data[front] < inQueue.Length
      modifies this, inQueue
      ensures Valid() && front == old(front) + 1 && rear == old(rear)
      ensures u == old(Contents())[0] && Contents() == old(Contents())[1..]
      ensures inQueue != null ==> inQueue[..] == old(inQueue[..])[u := false]
    {
      u := data[front];
      front := front + 1;
      if inQueue != null {
        inQueue[u] := false;
      }
    }

    /** Line 65, `queue_size`: the number of ids queued. */
    function Size(): (r: int)
      reads this, data
      requires Valid()
      ensures r == |Contents()|
    {
      rear - front
    }

    /** Line 66, `queue_in_queue`: always false without marks, else the mark of `u`. */
    function InQueue(u: int): (r: bool)
      reads this, inQueue
      requires inQueue != null ==> 0 <= u < inQueue.Length
      ensures inQueue == null ==> !r
      ensures inQueue != null ==> (r <==> inQueue[u])
    {
      inQueue != null && inQueue[u]
    }

    /** Line 67, `queue_is_empty`: whether no id is queued. */
    function IsEmpty(): (r: bool)
      reads this, data
      requires Valid()
      ensures r <==> Contents() == []
    {
      front == rear
    }

    /**
     * Lines 68-71, `queue_reset`: the marks of slots `0..rear-1` (by id
     * number, not by the ids queued) are cleared and the queue emptied.
     */
    method Reset()
      requires Valid()
      modifies this, inQueue
      ensures Valid() && front == 0 && rear == 0 && Contents() == []
      ensures inQueue != null ==> forall x :: 0 <= x < inQueue.Length ==>
                inQueue[x] == (if x < old(rear) then false else old(inQueue[x]))
    {
      if inQueue != null {
        var i := 0;
        while i < rear
          modifies inQueue
          invariant 0 <= i <= rear <= inQueue.Length
          invariant forall x :: 0 <= x < inQueue.Length ==> inQueue[x] == (if x < i then false else old(inQueue[x]))
        {
          inQueue[i] := false;
          i := i + 1;
        }
      }
      front, rear := 0, 0;
    }
  }
}
