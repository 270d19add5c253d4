/** `MultiQueue` of include/cmo_queue.h: n double-ended queues and a free list in one word array. */
module MultiQueues {
  import opened PackedLists

  /** The words a new queue starts with: its length, the header of the free list, empty queues, and the
      chained blocks s. */
  method FillWords(capacity: nat, numQueues: nat, elementBlockSize: nat) returns (d: array<int>, ghost s: seq<int>)
    requires 1 <= capacity <= 0xffff && 1 <= elementBlockSize && numQueues <= 0xffff
    requires 3 + numQueues + capacity * (1 + elementBlockSize) <= 0xffff
    ensures fresh(d) && 0 < d.Length == 3 + numQueues + capacity * (1 + elementBlockSize) && d[0] == d.Length
    ensures |s| == |Elements(s)| == capacity
    ensures forall a :: a in Elements(s) ==> 2 + numQueues < a <= d.Length - (1 + elementBlockSize)
    ensures LowBlocks(Elements(s)) <==> d.Length - (1 + elementBlockSize) <= MAX_ADDR
    ensures 2 <= capacity && d.Length - 2 * (1 + elementBlockSize) <= MAX_ADDR ==>
      Stored(d[..], 2, [s] + NoBlocks(numQueues), Elements(s))
    ensures 2 <= capacity && d.Length - 2 * (1 + elementBlockSize) <= MAX_ADDR <==> exists t :: IsList(d[..], 2, t)
  {
    hide Stored, LowBlocks, Chained, IsList, Pack;
    var step := 1 + elementBlockSize;
    var base := 3 + numQueues;
    BlockOrder(base, step, capacity - 1, capacity);
    d := FillHeader(numQueues, capacity, step);
    label filled:
    hide BlockAddress;
    s := ChainBlocks(d, base, step, capacity);
    assert forall x :: 0 <= x < base ==> d[x] == d[..base][x] == old@filled(d[x]);
    ChainedStore(d[..], 2, s, base, step, numQueues);
  }

  method FillHeader(numQueues: nat, capacity: nat, step: nat) returns (d: array<int>)
    requires numQueues <= 0xffff && 1 <= capacity <= 0xffff && 1 <= step <= BlockAddress(3 + numQueues, step, capacity) <= 0xffff
    ensures fresh(d) && d.Length == BlockAddress(3 + numQueues, step, capacity) == d[0]
    ensures 3 + numQueues <= d.Length && d[2] == Pack(3 + numQueues, d.Length - step)
    ensures forall x :: 3 <= x < 3 + numQueues ==> d[x] == 0
  {
    hide Pack;
    BlockOrder(3 + numQueues, step, 0, capacity);
    d := new int[BlockAddress(3 + numQueues, step, capacity)];
    hide BlockAddress;
    d[0] := d.Length;
    d[1] := Pack(numQueues, capacity);
    d[2] := Pack(3 + numQueues, d.Length - step);
    for i := 0 to numQueues
      invariant d[0] == d.Length && d[2] == Pack(3 + numQueues, d.Length - step)
      invariant forall x :: 3 <= x < 3 + i ==> d[x] == 0
    {
      d[3 + i] := 0;
    }
  }

  class MultiQueue<T(0)> {
    const data: array<int>     // header and link words
    const blocks: array<T>     // the payload of the block at each address
    const capacity: nat
    const numQueues: nat
    ghost const addresses: set<int>
    ghost var lists: seq<seq<int>>  // the free list, then the queues

    /** Word 0 keeps the number of words, which `reset_nob` registers. */
    ghost predicate Shape()
      reads this, data
    {
      && 0 < data.Length == blocks.Length && data[0] == data.Length
      && data as object != blocks as object
      && |lists| == numQueues + 1
      && |addresses| == capacity
      && forall a :: a in addresses ==> 3 + numQueues <= a < data.Length && a <= MAX_ADDR
    }

    /** The free list and the queues are well-formed lists that share out all blocks. */
    ghost predicate Valid()
      reads this, data
    {
      Shape() && Store(data[..], 2, lists, addresses)
    }

    /** The elements of a queue, front first. */
    ghost function Queue(q: nat): (s: seq<T>)
      requires Valid() && q < numQueues
      reads this, data, blocks
      ensures |s| == |lists[q + 1]|
      ensures forall i :: 0 <= i < |s| ==> lists[q + 1][i] in addresses && s[i] == blocks[lists[q + 1][i]]
    {
      var list := lists[q + 1];
      assert forall i :: 0 <= i < |list| ==> list[i] in list;
      seq(|list|, i requires 0 <= i < |list| reads blocks => blocks[list[i]])
    }

    /** How many more elements fit. */
    ghost function Free(): nat
      requires |lists| > 0
      reads this
    {
      |lists[0]|
    }

    constructor (capacity: nat, numQueues: nat, elementBlockSize: nat)
      requires 1 <= capacity && 1 <= elementBlockSize
      requires capacity <= 0xffff && numQueues <= 0xffff
      requires 3 + numQueues + capacity * (1 + elementBlockSize) <= 0xffff
      ensures fresh(data) && fresh(blocks)
      ensures this.capacity == capacity && this.numQueues == numQueues
      ensures data.Length == 3 + numQueues + capacity * (1 + elementBlockSize)
      ensures 2 <= capacity && data.Length - 2 * (1 + elementBlockSize) <= MAX_ADDR <==> exists s :: IsList(data[..], 2, s)
      ensures 2 <= capacity && data.Length - 2 * (1 + elementBlockSize) <= MAX_ADDR ==>
        Stored(data[..], 2, lists, addresses) && |lists| == numQueues + 1
      ensures 1 <= numQueues && 2 <= capacity && data.Length - 2 * (1 + elementBlockSize) <= MAX_ADDR ==>
        (AlwaysWorks(data[..], 2, lists, addresses) <==> data.Length - (1 + elementBlockSize) <= MAX_ADDR)
      ensures 2 <= capacity && data.Length - (1 + elementBlockSize) <= MAX_ADDR ==>
        Valid() && Free() == capacity && forall q :: 0 <= q < numQueues ==> Queue(q) == []
    {
      hide Stored, LowBlocks, IsList, Queue, AlwaysWorks;
      var d;
      ghost var s;
      d, s := FillWords(capacity, numQueues, elementBlockSize);
      ghost var w := d[..];
      assert 2 <= capacity && d.Length - 2 * (1 + elementBlockSize) <= MAX_ADDR <==> exists t :: IsList(w, 2, t);
      if 1 <= numQueues && Stored(w, 2, [s] + NoBlocks(numQueues), Elements(s)) {
        EverySequenceWorks(w, 2, [s] + NoBlocks(numQueues), Elements(s));
      }
      this.capacity := capacity;
      this.numQueues := numQueues;
      data := d;
      blocks := new T[d.Length];
      lists := [s] + NoBlocks(numQueues);
      addresses := Elements(s);
      new;
      assert data[..] == w;
    }

    /** What `reset_nob` registers is the whole array. */
    lemma RegisteredLength()
      requires Valid()
      ensures data.Length > 0 && data[0] == data.Length
    {}

    /** The number of elements in the first k queues. */
    ghost function Waiting(k: nat): nat
      requires Valid() && k <= numQueues
      reads this, data, blocks
    {
      if k == 0 then 0 else Waiting(k - 1) + |Queue(k - 1)|
    }

    lemma {:induction false} WaitingBlocks(k: nat)
      requires Valid() && k <= numQueues
      ensures Waiting(k) == TotalLength(lists[1..k + 1])
    {
      if k > 0 {
        WaitingBlocks(k - 1);
        TotalLengthStep(lists[1..k], lists[k]);
        assert lists[1..k + 1] == lists[1..k] + [lists[k]];
      }
    }

    /** The queues share one capacity: no block is ever lost or used twice. */
    lemma SharedCapacity()
      requires Valid()
      ensures Free() + Waiting(numQueues) == capacity
    {
      StoreCount(data[..], 2, lists, addresses);
      WaitingBlocks(numQueues);
      assert lists[1..numQueues + 1] == lists[1..];
    }

    /** Number of elements of a queue, counted by walking it. */
    method Size(q: nat) returns (size: nat)
      requires Valid() && q < numQueues
      ensures size == |Queue(q)|
    {
      ghost var s := lists[q + 1];
      assert IsList(data[..], 3 + q, s);
      ListReads(data[..], 3 + q, s);
      var addr := Hi(data[3 + q]);
      size := 0;
      while addr != 0
        invariant size <= |s|
        invariant addr == if size == |s| then 0 else s[size]
        decreases |s| - size
      {
        assert Lo(data[..][s[size]]) == Next(s, size);
        size := size + 1;
        addr := Lo(data[addr]);
      }
    }

    method Empty(q: nat) returns (empty: bool)
      requires Valid() && q < numQueues
      ensures empty <==> Queue(q) == []
    {
      ListReads(data[..], 3 + q, lists[q + 1]);
      empty := Hi(data[3 + q]) == 0;
    }

    method Full() returns (full: bool)
      requires Valid()
      ensures full <==> Free() == 0
    {
      ListReads(data[..], 2, lists[0]);
      full := Hi(data[2]) == 0;
    }

    method Front(q: nat) returns (e: T)
      requires Valid() && q < numQueues && Queue(q) != []
      ensures e == Queue(q)[0]
    {
      ListReads(data[..], 3 + q, lists[q + 1]);
      e := blocks[Hi(data[3 + q])];
    }

    method Back(q: nat) returns (e: T)
      requires Valid() && q < numQueues && Queue(q) != []
      ensures e == Queue(q)[|Queue(q)| - 1]
    {
      ListReads(data[..], 3 + q, lists[q + 1]);
      e := blocks[Lo(data[3 + q])];
    }

    // ----- list k, under the header word 2 + k -----

    method LinkFront(k: nat, addr: nat)
      requires Shape() && k <= numQueues && addr in addresses && Store(data[..], 2, lists, addresses - {addr})
      modifies this`lists, data
      ensures Valid() && lists == old(lists[k := [addr] + lists[k]])
      ensures AllAddresses(|old(data[..])|, 2, old(lists)) && data[..] == old(Prepend(data[..], 2 + k, lists[k], addr))
    {
      hide Stored, LowBlocks, IsList, AllAddresses;
      StoredAddresses(data[..], 2, lists, addresses - {addr});
      ghost var w, s := data[..], lists[k];
      StoreList(w, 2, lists, addresses - {addr}, k);
      LinkFirst(data, 2 + k, addr, s);
      StoreStep(w, data[..], 2, lists, addresses - {addr}, k, [addr] + s, addr, true);
      lists := lists[k := [addr] + s];
      assert addresses - {addr} + {addr} == addresses;
    }

    method LinkBack(k: nat, addr: nat)
      requires Shape() && k <= numQueues && addr in addresses && Store(data[..], 2, lists, addresses - {addr})
      modifies this`lists, data
      ensures Valid() && lists == old(lists[k := lists[k] + [addr]])
      ensures AllAddresses(|old(data[..])|, 2, old(lists)) && data[..] == old(Append(data[..], 2 + k, lists[k], addr))
    {
      hide Stored, LowBlocks, IsList, AllAddresses;
      StoredAddresses(data[..], 2, lists, addresses - {addr});
      ghost var w, s := data[..], lists[k];
      StoreList(w, 2, lists, addresses - {addr}, k);
      LinkLast(data, 2 + k, addr, s);
      StoreStep(w, data[..], 2, lists, addresses - {addr}, k, s + [addr], addr, true);
      lists := lists[k := s + [addr]];
      assert addresses - {addr} + {addr} == addresses;
    }

    method UnlinkFront(k: nat) returns (addr: nat)
      requires Valid() && k <= numQueues && lists[k] != []
      modifies this`lists, data
      ensures Shape() && addr == old(lists[k][0]) && addr in addresses
      ensures lists == old(lists[k := lists[k][1..]])
      ensures Store(data[..], 2, lists, addresses - {addr})
      ensures AllAddresses(|old(data[..])|, 2, old(lists)) && data[..] == old(DropFirst(data[..], 2 + k, lists[k]))
    {
      hide Stored, LowBlocks, IsList, AllAddresses;
      StoredAddresses(data[..], 2, lists, addresses);
      ghost var w, s := data[..], lists[k];
      StoreList(w, 2, lists, addresses, k);
      addr := UnlinkFirst(data, 2 + k, s);
      StoreStep(w, data[..], 2, lists, addresses, k, s[1..], addr, false);
      lists := lists[k := s[1..]];
    }

    method UnlinkBack(k: nat) returns (addr: nat)
      requires Valid() && k <= numQueues && lists[k] != []
      modifies this`lists, data
      ensures Shape() && addr == old(Last(lists[k])) && addr in addresses
      ensures lists == old(lists[k := lists[k][..|lists[k]| - 1]])
      ensures Store(data[..], 2, lists, addresses - {addr})
      ensures AllAddresses(|old(data[..])|, 2, old(lists)) && data[..] == old(DropLast(data[..], 2 + k, lists[k]))
    {
      hide Stored, LowBlocks, IsList, AllAddresses;
      StoredAddresses(data[..], 2, lists, addresses);
      ghost var w, s := data[..], lists[k];
      StoreList(w, 2, lists, addresses, k);
      addr := UnlinkLast(data, 2 + k, s);
      StoreStep(w, data[..], 2, lists, addresses, k, s[..|s| - 1], addr, false);
      lists := lists[k := s[..|s| - 1]];
    }

    /** Takes the first free block; it is in no list until it is linked again. */
    method AllocBlock() returns (addr: nat)
      requires Valid() && Free() > 0
      modifies this`lists, data
      ensures Shape() && addr == old(lists[0][0]) && addr in addresses
      ensures lists == old(lists[0 := lists[0][1..]])
      ensures Store(data[..], 2, lists, addresses - {addr})
      ensures AllAddresses(|old(data[..])|, 2, old(lists)) && data[..] == old(DropFirst(data[..], 2, lists[0]))
    {
      addr := UnlinkFront(0);
    }

    method FreeBlock(addr: nat)
      requires Shape() && addr in addresses && Store(data[..], 2, lists, addresses - {addr})
      modifies this`lists, data
      ensures Valid() && lists == old(lists[0 := [addr] + lists[0]])
      ensures AllAddresses(|old(data[..])|, 2, old(lists)) && data[..] == old(Prepend(data[..], 2, lists[0], addr))
    {
      LinkFront(0, addr);
    }

    // ----- the deque operations -----

    method PushFront(q: nat, e: T)
      requires Valid() && q < numQueues && Free() > 0
      modifies this`lists, data, blocks
      ensures Valid() && Free() == old(Free()) - 1
      ensures Queue(q) == [e] + old(Queue(q))
      ensures forall p :: 0 <= p < numQueues && p != q ==> Queue(p) == old(Queue(p))
      ensures IsMove(old(data[..]), data[..], 2, old(lists), lists, Move(0, 0, q + 1, true))
    {
      hide Store, Queue, AllAddresses, DropFirst, DropLast, Append, Prepend, IsMove, TakenWords, Taken, Moved;
      ghost var w, before := data[..], lists;
      ghost var m := Move(0, 0, q + 1, true);
      assert LegalMove(before, m);
      StoreAddresses(w, 2, before, addresses);
      TakenFront(w, 2, before, m);
      var addr := AllocBlock();
      ghost var w1 := data[..];
      StoreAddresses(w1, 2, lists, addresses - {addr});
      blocks[addr] := e;
      StoreMembers(data[..], 2, lists, addresses - {addr});
      LinkFront(q + 1, addr);
      MoveOf(w, w1, data[..], 2, before, lists, m);
    }

    method PushBack(q: nat, e: T)
      requires Valid() && q < numQueues && Free() > 0
      modifies this`lists, data, blocks
      ensures Valid() && Free() == old(Free()) - 1
      ensures Queue(q) == old(Queue(q)) + [e]
      ensures forall p :: 0 <= p < numQueues && p != q ==> Queue(p) == old(Queue(p))
      ensures IsMove(old(data[..]), data[..], 2, old(lists), lists, Move(0, 0, q + 1, false))
    {
      hide Store, Queue, AllAddresses, DropFirst, DropLast, Append, Prepend, IsMove, TakenWords, Taken, Moved;
      ghost var w, before := data[..], lists;
      ghost var m := Move(0, 0, q + 1, false);
      assert LegalMove(before, m);
      StoreAddresses(w, 2, before, addresses);
      TakenFront(w, 2, before, m);
      var addr := AllocBlock();
      ghost var w1 := data[..];
      StoreAddresses(w1, 2, lists, addresses - {addr});
      blocks[addr] := e;
      StoreMembers(data[..], 2, lists, addresses - {addr});
      LinkBack(q + 1, addr);
      MoveOf(w, w1, data[..], 2, before, lists, m);
    }

    method PopFront(q: nat)
      requires Valid() && q < numQueues && Queue(q) != []
      modifies this`lists, data
      ensures Valid() && Free() == old(Free()) + 1
      ensures Queue(q) == old(Queue(q))[1..]
      ensures forall p :: 0 <= p < numQueues && p != q ==> Queue(p) == old(Queue(p))
      ensures IsMove(old(data[..]), data[..], 2, old(lists), lists, Move(q + 1, 0, 0, true))
    {
      hide Store, Queue, AllAddresses, DropFirst, DropLast, Append, Prepend, IsMove, TakenWords, Taken, Moved;
      ghost var w, before := data[..], lists;
      ghost var m := Move(q + 1, 0, 0, true);
      assert LegalMove(before, m);
      StoreAddresses(w, 2, before, addresses);
      TakenFront(w, 2, before, m);
      var addr := UnlinkFront(q + 1);
      ghost var w1 := data[..];
      StoreAddresses(w1, 2, lists, addresses - {addr});
      FreeBlock(addr);
      MoveOf(w, w1, data[..], 2, before, lists, m);
    }

    method PopBack(q: nat)
      requires Valid() && q < numQueues && Queue(q) != []
      modifies this`lists, data
      ensures Valid() && Free() == old(Free()) + 1
      ensures Queue(q) == old(Queue(q))[..|old(Queue(q))| - 1]
      ensures forall p :: 0 <= p < numQueues && p != q ==> Queue(p) == old(Queue(p))
      ensures IsMove(old(data[..]), data[..], 2, old(lists), lists, Move(q + 1, |old(lists)[q + 1]| - 1, 0, true))
    {
      hide Store, Queue, AllAddresses, DropFirst, DropLast, Append, Prepend, IsMove, TakenWords, Taken, Moved;
      ghost var w, before := data[..], lists;
      ghost var m := Move(q + 1, |lists[q + 1]| - 1, 0, true);
      assert LegalMove(before, m);
      StoreAddresses(w, 2, before, addresses);
      TakenBack(w, 2, before, m);
      var addr := UnlinkBack(q + 1);
      ghost var w1 := data[..];
      StoreAddresses(w1, 2, lists, addresses - {addr});
      FreeBlock(addr);
      MoveOf(w, w1, data[..], 2, before, lists, m);
    }
  }
}
