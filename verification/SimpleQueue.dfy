/** `SimpleQueue` of include/cmo_queue.h: a bounded FIFO in a ring, length and front index packed in one word. */
module SimpleQueues {
  import opened Arithmetic
  import opened PackedLists

  /** (idx + k) % capacity for a position k of the queue. */
  function Slot(capacity: int, idx: int, k: int): (s: int)
    requires 0 <= idx < capacity && 0 <= k <= capacity
    ensures 0 <= s < capacity
  {
    if idx + k < capacity then idx + k else idx + k - capacity
  }

  lemma SlotIsModulo(capacity: int, idx: int, k: int)
    requires 0 <= idx < capacity && 0 <= k <= capacity
    ensures Slot(capacity, idx, k) == (idx + k) % capacity
  {
    Remainder(idx + k, capacity, if idx + k < capacity then 0 else if idx + k < 2 * capacity then 1 else 2);
  }

  class SimpleQueue<T(0)> {
    const header: array<int>  // data length, capacity and element size, length and front index
    const slots: array<T>     // the elements

    ghost predicate Valid()
      reads header, slots
    {
      && header.Length == 3 && header as object != slots as object
      && 1 <= slots.Length <= MAX_ADDR && Hi(header[1]) == slots.Length
      && 0 <= Hi(header[2]) <= slots.Length && Lo(header[2]) < slots.Length
    }

    /** The elements, front first. */
    ghost function Contents(): (s: seq<T>)
      requires Valid()
      reads header, slots
    {
      seq(Hi(header[2]), k requires 0 <= k < Hi(header[2]) && Valid() reads header, slots => slots[Slot(slots.Length, Lo(header[2]), k)])
    }

    constructor (capacity: nat, elementBlockSize: nat)
      requires 1 <= capacity <= 0xffff && elementBlockSize < HALF
      ensures slots.Length == capacity
      ensures Valid() <==> capacity <= MAX_ADDR
      ensures Valid() ==> Contents() == []
      ensures fresh(header) && fresh(slots)
    {
      header := new int[3];
      slots := new T[capacity];
      new;
      header[0] := 3 + capacity * elementBlockSize;
      header[1] := Pack(capacity, elementBlockSize);
      HiOfPack(capacity, elementBlockSize);
      header[2] := Pack(0, 0);
    }

    method Capacity() returns (capacity: int)
      requires Valid()
      ensures capacity == slots.Length
    {
      capacity := Hi(header[1]);
    }

    method Size() returns (size: int)
      requires Valid()
      ensures size == |Contents()|
    {
      size := Hi(header[2]);
    }

    method Full() returns (full: bool)
      requires Valid()
      ensures full <==> |Contents()| == slots.Length
    {
      var size := Size();
      var capacity := Capacity();
      full := size == capacity;
    }

    method Enqueue(e: T)
      requires Valid() && |Contents()| < slots.Length
      modifies header, slots
      ensures Valid() && Contents() == old(Contents()) + [e]
    {
      var idx, len := Lo(header[2]), Hi(header[2]);
      SlotIsModulo(slots.Length, idx, len);
      slots[(idx + len) % Hi(header[1])] := e;
      header[2] := Pack(len + 1, idx);
    }

    method Front() returns (e: T)
      requires Valid() && Contents() != []
      ensures e == Contents()[0]
    {
      e := slots[Lo(header[2])];
    }

    method Dequeue()
      requires Valid() && Contents() != []
      modifies header
      ensures Valid() && Contents() == old(Contents())[1..]
    {
      var idx, len := Lo(header[2]), Hi(header[2]);
      SlotIsModulo(slots.Length, idx, 1);
      header[2] := Pack(len - 1, (idx + 1) % Hi(header[1]));
    }
  }
}
