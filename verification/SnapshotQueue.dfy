/** The ring buffer of token snapshots: thirteen slots, of which the one at the front is never filled
  * by an enqueue. */
module SnapshotQueue {
  import opened Options

  const CNSQSIZE: nat := 13

  /** The slot n places after i. */
  function Slot(i: nat, n: nat): (s: nat)
    ensures s < CNSQSIZE
  {
    (i + n) % CNSQSIZE
  }

  /** How many places rear is after front. */
  function Gap(front: nat, rear: nat): (n: nat)
    requires front < CNSQSIZE && rear < CNSQSIZE
    ensures n < CNSQSIZE && Slot(front, n) == rear
  {
    (rear - front + CNSQSIZE) % CNSQSIZE
  }

  /** Places fewer than a full turn apart are different slots. */
  lemma SlotsDiffer(i: nat, m: nat, n: nat)
    requires m < n < m + CNSQSIZE
    ensures Slot(i, m) != Slot(i, n)
  {
  }

  lemma SlotAgain(i: nat, n: nat)
    ensures Slot((i + 1) % CNSQSIZE, n) == Slot(i, n + 1)
  {
  }

  lemma GapFull(front: nat, rear: nat)
    requires front < CNSQSIZE && rear < CNSQSIZE
    ensures (rear + 1) % CNSQSIZE < CNSQSIZE
    ensures (rear + 1) % CNSQSIZE == front <==> Gap(front, rear) == CNSQSIZE - 1
  {
  }

  lemma GapMore(front: nat, rear: nat)
    requires front < CNSQSIZE && rear < CNSQSIZE && (rear + 1) % CNSQSIZE != front
    ensures Gap(front, (rear + 1) % CNSQSIZE) == Gap(front, rear) + 1
    ensures Slot(front, Gap(front, rear) + 1) == (rear + 1) % CNSQSIZE
  {
  }

  lemma GapEmpty(front: nat, rear: nat)
    requires front < CNSQSIZE && rear < CNSQSIZE
    ensures (front + 1) % CNSQSIZE < CNSQSIZE
    ensures front == rear <==> Gap(front, rear) == 0
  {
  }

  lemma GapLess(front: nat, rear: nat)
    requires front < CNSQSIZE && rear < CNSQSIZE && front != rear
    ensures Gap((front + 1) % CNSQSIZE, rear) == Gap(front, rear) - 1
    ensures Slot(front, 1) == (front + 1) % CNSQSIZE
  {
  }

  class Queue<T(0)> {
    const data: array<T>
    var front: nat
    var rear: nat

    ghost predicate Valid()
      reads this
    {
      data.Length == CNSQSIZE && front < CNSQSIZE && rear < CNSQSIZE
    }

    /** The queued elements, oldest first. */
    ghost function Contents(): (s: seq<T>)
      reads this, data
      requires Valid()
      ensures |s| == Gap(front, rear)
    {
      seq(Gap(front, rear), k requires 0 <= k reads this, data requires Valid() => data[Slot(front, k + 1)])
    }

    /** clearQueue. */
    constructor ()
      ensures Valid() && Contents() == [] && fresh(data)
    {
      data := new T[CNSQSIZE];
      front, rear := 0, 0;
    }

    /** isEmptyQueue. */
    predicate IsEmpty()
      reads this, data
      requires Valid()
      ensures IsEmpty() <==> Contents() == []
    {
      front == rear
    }

    /** isFullQueue: twelve elements. */
    predicate IsFull()
      reads this, data
      requires Valid()
      ensures IsFull() <==> |Contents()| == CNSQSIZE - 1
    {
      (rear + 1) % CNSQSIZE == front
    }

    /** sizeQueue. */
    function Size(): (n: nat)
      reads this, data
      requires Valid()
      ensures n == |Contents()|
    {
      (rear - front + CNSQSIZE) % CNSQSIZE
    }

    /** enQueue. The slot at the front keeps its element. */
    method EnQueue(e: T) returns (ok: bool)
      requires Valid()
      modifies this, data
      ensures Valid() && front == old(front) && data[front] == old(data[front])
      ensures ok <==> |old(Contents())| < CNSQSIZE - 1
      ensures Contents() == if ok then old(Contents()) + [e] else old(Contents())
    {
      hide Slot, Gap;
      ghost var was := Contents();
      GapFull(front, rear);
      if (rear + 1) % CNSQSIZE == front { return false; }
      GapMore(front, rear);
      ghost var last := rear;
      rear := (rear + 1) % CNSQSIZE;
      data[rear] := e;
      ok := true;
      forall k | 0 <= k < |was| ensures Contents()[k] == was[k] {
        SlotsDiffer(front, k + 1, |was| + 1);
      }
      assert Contents() == was + [e];
    }

    /** deQueue: the new front slot, or None. */
    method DeQueue() returns (e: Option<T>)
      requires Valid()
      modifies this
      ensures Valid() && (e.None? <==> old(Contents()) == [])
      ensures e.Some? ==> old(Contents()) == [e.value] + Contents() && data[front] == e.value
      ensures e.None? ==> Contents() == old(Contents()) && front == old(front)
    {
      hide Slot, Gap;
      ghost var was, f := Contents(), front;
      GapEmpty(front, rear);
      if front == rear { return None; }
      GapLess(front, rear);
      front := (front + 1) % CNSQSIZE;
      e := Some(data[front]);
      forall k | 0 <= k < |Contents()| ensures Contents()[k] == was[k + 1] {
        SlotAgain(f, k + 1);
      }
      assert was == [e.value] + Contents();
    }

    /** enQueueWithDrop: a full queue loses its oldest element first. */
    method EnQueueWithDrop(e: T)
      requires Valid()
      modifies this, data
      ensures Valid()
      ensures Contents() == (if |old(Contents())| < CNSQSIZE - 1 then old(Contents()) else old(Contents())[1..]) + [e]
    {
      if IsFull() {
        var dropped := DeQueue();
      }
      var ok := EnQueue(e);
    }

    /** nextNElem: the n-th element from the front, counted from 1. */
    method NextNElem(n: int) returns (e: Option<T>)
      requires Valid()
      ensures e == if 1 <= n <= |Contents()| then Some(Contents()[n - 1]) else None
    {
      if n > Size() || n < 1 { return None; }
      e := Some(data[(front + n) % CNSQSIZE]);
    }

    /** pastNElem: the n-th element from the rear, counted from 1. */
    method PastNElem(n: int) returns (e: Option<T>)
      requires Valid()
      ensures e == if 1 <= n <= |Contents()| then Some(Contents()[|Contents()| - n]) else None
    {
      if n > Size() || n < 1 { return None; }
      e := Some(data[(rear + CNSQSIZE - n + 1) % CNSQSIZE]);
      PastSlot(front, rear, n);
    }
  }

  lemma PastSlot(front: nat, rear: nat, n: nat)
    requires front < CNSQSIZE && rear < CNSQSIZE && 1 <= n <= Gap(front, rear)
    ensures (rear + CNSQSIZE - n + 1) % CNSQSIZE == Slot(front, Gap(front, rear) - n + 1)
  {
    if front <= rear {
      assert Gap(front, rear) == rear - front;
    } else {
      assert Gap(front, rear) == rear - front + CNSQSIZE;
    }
  }
}
