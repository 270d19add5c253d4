/** `MemoryPool` of include/cmo_mempool.h: a list of used and a list of free blocks in one word array. */
module MemoryPools {
  import opened PackedLists

  const FREE_BLOCK_META_ADDR: nat := 1
  const USED_BLOCK_META_ADDR: nat := 2

  /** Word 0 after `free_block` on block i of the used list: the update of a neighbour that does not
      exist goes to address 0. */
  function HeaderAfterFree(header: int, used: seq<int>, i: int): int
    requires 0 <= i < |used| && 0 <= Hi(header) <= MAX_ADDR && forall k :: 0 <= k < |used| ==> 0 < used[k] < HALF
  {
    if |used| == 1 then header
    else if i == 0 then Pack(Hi(header), used[1])
    else if i == |used| - 1 then Pack(used[i - 1], Lo(header))
    else header
  }

  /** With one neighbour or two: the write for a neighbour that does not exist goes to address 0. */
  method JoinNeighbours(d: array<int>, meta: nat, prevAddr: int, nextAddr: int, ghost s: seq<int>, ghost i: nat)
    requires IsList(d[..], meta, s) && i < |s| && 2 <= |s| && 0 < meta && 0 <= Hi(d[0]) <= MAX_ADDR
    requires prevAddr == Prev(s, i) && nextAddr == Next(s, i)
    modifies d
    ensures Addresses(d.Length, meta, s) && d[0] == HeaderAfterFree(old(d[0]), s, i)
    ensures d[..] == Unlink(old(d[..])[0 := d[0]], meta, s, i)
  {
    hide IsList, Pack, Hi, Lo;
    ghost var w := d[..];
    ListReads(w, meta, s);
    assert i > 0 ==> w[s[i - 1]] == d[s[i - 1]];
    assert i < |s| - 1 ==> w[s[i + 1]] == d[s[i + 1]];
    if prevAddr == 0 {
      d[meta] := Pack(nextAddr, Lo(d[meta]));
      d[nextAddr] := Pack(0, Lo(d[nextAddr]));
    } else {
      d[nextAddr] := Pack(prevAddr, Lo(d[nextAddr]));
    }
    if nextAddr == 0 {
      d[meta] := Pack(Hi(d[meta]), prevAddr);
      d[prevAddr] := Pack(Hi(d[prevAddr]), 0);
    } else {
      d[prevAddr] := Pack(Hi(d[prevAddr]), nextAddr);
    }
  }

  /** The branches of `free_block` that take block s[i] at addr out of the used list. */
  method UnlinkBlock(d: array<int>, meta: nat, addr: nat, ghost s: seq<int>, ghost i: nat)
    requires IsList(d[..], meta, s) && i < |s| && s[i] == addr && 0 < meta && 0 <= Hi(d[0]) <= MAX_ADDR
    modifies d
    ensures forall x :: x in Without(s, i) <==> x in s && x != addr
    ensures d[0] == HeaderAfterFree(old(d[0]), s, i)
    ensures IsList(d[..], meta, if |s| == 1 then [] else Without(s, i)) <==> |s| == 2 && i == 0 ==> s[1] <= MAX_ADDR
    ensures Outside(old(d[..])[0 := d[0]], d[..], meta, s, addr)
    ensures Addresses(d.Length, meta, s)
    ensures var w := old(d[..])[0 := d[0]]; d[..] == if |s| == 1 then DropFirst(w, meta, s) else Unlink(w, meta, s, i)
  {
    hide IsList, Pack, Hi, Lo, Outside, Unlink;
    ghost var w := d[..];
    ListReads(w, meta, s);
    assert w[s[i]] == d[addr];
    var prevAddr := Hi(d[addr]);
    var nextAddr := Lo(d[addr]);
    if prevAddr == 0 && nextAddr == 0 {
      d[meta] := Pack(0, 0);
      DropFirstList(w, meta, s);
      assert d[..] == DropFirst(w, meta, s);
      assert w[0 := d[0]] == w;
      assert s[1..] == [];
    } else {
      JoinNeighbours(d, meta, prevAddr, nextAddr, s, i);
      ghost var w' := w[0 := d[0]];
      ListFrame(w, w', meta, s);
      UnlinkList(w', meta, s, i);
    }
  }

  lemma StoreWordZero(w: seq<int>, w': seq<int>, base: nat, lists: seq<seq<int>>, blocks: set<int>)
    requires Store(w, base, lists, blocks) && |w'| == |w| && w' == w[0 := w'[0]]
    ensures Store(w', base, lists, blocks)
  {
    hide Partition;
    forall k | 0 <= k < |lists| ensures IsList(w', base + k, lists[k]) {
      ListFrame(w, w', base + k, lists[k]);
    }
  }

  /** The header words and the chain of free blocks that the constructor writes. */
  method FillWords(capacity: nat, elementBlockSize: nat) returns (d: array<int>, ghost s: seq<int>)
    requires 1 <= capacity <= 0xffff && 1 <= elementBlockSize
    requires 3 + capacity * (1 + elementBlockSize) <= 0xffff
    ensures fresh(d) && 0 < d.Length == 3 + capacity * (1 + elementBlockSize) && d[0] == Pack(d.Length, capacity)
    ensures |s| == |Elements(s)| == capacity
    ensures forall a :: a in Elements(s) ==> 2 < a <= d.Length - (1 + elementBlockSize)
    ensures LowBlocks(Elements(s)) <==> d.Length - (1 + elementBlockSize) <= MAX_ADDR
    ensures 2 <= capacity && d.Length - 2 * (1 + elementBlockSize) <= MAX_ADDR ==> Stored(d[..], 1, [s, []], Elements(s))
    ensures 2 <= capacity && d.Length - 2 * (1 + elementBlockSize) <= MAX_ADDR <==> exists t :: IsList(d[..], FREE_BLOCK_META_ADDR, t)
  {
    hide Stored, LowBlocks, Chained, IsList, Pack;
    var step := 1 + elementBlockSize;
    var dataLen := 3 + capacity * step;
    BlockOrder(3, step, capacity - 1, capacity);
    d := new int[dataLen];
    d[0] := Pack(dataLen, capacity);
    d[1] := Pack(3, dataLen - 1 - elementBlockSize);
    d[2] := 0;
    label filled:
    hide BlockAddress;
    s := ChainBlocks(d, 3, step, capacity);
    assert forall x :: 0 <= x < 3 ==> d[x] == d[..3][x] == old@filled(d[x]);
    ChainedStore(d[..], 1, s, 3, step, 1);
    assert [s] + NoBlocks(1) == [s, []];
  }

  /** Halfway through `free_block` the block is on neither list, and the words are those of the lists without it. */
  lemma BlockUnlinked(w: seq<int>, w': seq<int>, free: seq<int>, used: seq<int>, i: nat, blocks: set<int>, lists: seq<seq<int>>)
    requires Store(w, 1, lists, blocks) && lists == [free, used] && i < |used| && IsList(w', 2, Without(used, i))
    requires Outside(w, w', 2, used, used[i]) && Addresses(|w|, 2, used)
    requires forall x :: x in Without(used, i) <==> x in used && x != used[i]
    requires w' == if |used| == 1 then DropFirst(w, 2, used) else Unlink(w, 2, used, i)
    ensures Store(w', 1, [free, Without(used, i)], blocks - {used[i]}) && IsList(w', 1, free)
    ensures used[i] !in free && used[i] in blocks
    ensures AllAddresses(|w|, 1, lists) && AllAddresses(|w'|, 1, Taken(lists, Move(1, i, 0, true)))
    ensures Taken(lists, Move(1, i, 0, true)) == [free, Without(used, i)]
    ensures w' == TakenWords(w, 1, lists, Move(1, i, 0, true))
  {
    hide Stored, LowBlocks, IsList, AllAddresses, DropFirst, Unlink, Outside;
    StoreList(w, 1, lists, blocks, 1);
    assert used[i] in lists[1];
    StoreStep(w, w', 1, lists, blocks, 1, Without(used, i), used[i], false);
    assert lists[1 := Without(used, i)] == [free, Without(used, i)];
    StoreAddresses(w, 1, lists, blocks);
    StoreAddresses(w', 1, [free, Without(used, i)], blocks - {used[i]});
    StoreList(w', 1, [free, Without(used, i)], blocks - {used[i]}, 0);
    assert [free, Without(used, i)][0] == free;
  }

  /** Then the block is put in front of the free list. */
  lemma BlockFreed(w0: seq<int>, w: seq<int>, w': seq<int>, free: seq<int>, used: seq<int>, i: nat, blocks: set<int>)
    requires i < |used| && used[i] in blocks && 3 <= used[i] < |w| && used[i] <= MAX_ADDR
    requires Store(w, 1, [free, Without(used, i)], blocks - {used[i]})
    requires IsList(w', 1, [used[i]] + free) && Outside(w, w', 1, free, used[i])
    requires AllAddresses(|w0|, 1, [free, used]) && AllAddresses(|w|, 1, Taken([free, used], Move(1, i, 0, true)))
    requires Taken([free, used], Move(1, i, 0, true)) == [free, Without(used, i)]
    requires w == TakenWords(w0, 1, [free, used], Move(1, i, 0, true)) && Addresses(|w|, 1, free) && used[i] !in free
    requires w' == Prepend(w, 1, free, used[i])
    ensures Store(w', 1, [[used[i]] + free, Without(used, i)], blocks)
    ensures IsMove(w0, w', 1, [free, used], [[used[i]] + free, Without(used, i)], Move(1, i, 0, true))
  {
    hide Stored, LowBlocks, IsList, AllAddresses, Prepend, Unlink, Outside, IsMove, TakenWords;
    StoreStep(w, w', 1, [free, Without(used, i)], blocks - {used[i]}, 0, [used[i]] + free, used[i], true);
    assert [free, Without(used, i)][0 := [used[i]] + free] == [[used[i]] + free, Without(used, i)];
    assert blocks - {used[i]} + {used[i]} == blocks;
    MoveOf(w0, w, w', 1, [free, used], [[used[i]] + free, Without(used, i)], Move(1, i, 0, true));
  }

  class MemoryPool<T(0)> {
    const data: array<int>     // header and link words
    const blocks: array<T>     // the payload of the block at each address
    const capacity: nat
    ghost const addresses: set<int>
    ghost var free: seq<int>
    ghost var used: seq<int>

    ghost predicate Shape()
      reads this, data
    {
      && 3 <= data.Length == blocks.Length <= MAX_ADDR
      && data as object != blocks as object
      && |addresses| == capacity
      && (forall a :: a in addresses ==> 3 <= a < data.Length && a <= MAX_ADDR)
      && 0 <= Hi(data[0]) <= MAX_ADDR
    }

    /** The used and the free list are well-formed and share out all blocks. */
    ghost predicate Valid()
      reads this, data
    {
      Shape() && Store(data[..], 1, [free, used], addresses)
    }

    constructor (capacity: nat, elementBlockSize: nat)
      requires 1 <= capacity <= 0xffff && 1 <= elementBlockSize
      requires 3 + capacity * (1 + elementBlockSize) <= 0xffff
      ensures fresh(data) && fresh(blocks) && this.capacity == capacity
      ensures data.Length == 3 + capacity * (1 + elementBlockSize)
      ensures Hi(data[0]) == data.Length <==> data.Length <= MAX_ADDR
      ensures 2 <= capacity && data.Length - 2 * (1 + elementBlockSize) <= MAX_ADDR
        <==> exists s :: IsList(data[..], FREE_BLOCK_META_ADDR, s)
      ensures 2 <= capacity && data.Length - 2 * (1 + elementBlockSize) <= MAX_ADDR ==>
        && Stored(data[..], 1, [free, used], addresses)
        && (AlwaysWorks(data[..], 1, [free, used], addresses) <==> data.Length - (1 + elementBlockSize) <= MAX_ADDR)
      ensures 2 <= capacity && data.Length <= MAX_ADDR ==> Valid() && |free| == capacity && used == []
    {
      hide Stored, LowBlocks, IsList, AlwaysWorks, Pack;
      var d: array<int>;
      ghost var s: seq<int>;
      d, s := FillWords(capacity, elementBlockSize);
      HiOfPack(d.Length, capacity);
      ghost var w := d[..];
      assert 2 <= capacity && d.Length - 2 * (1 + elementBlockSize) <= MAX_ADDR <==> exists t :: IsList(w, FREE_BLOCK_META_ADDR, t);
      if Stored(w, 1, [s, []], Elements(s)) {
        EverySequenceWorks(w, 1, [s, []], Elements(s));
      }
      this.capacity := capacity;
      data := d;
      blocks := new T[d.Length];
      free, used := s, [];
      addresses := Elements(s);
      new;
      assert data[..] == w;
    }

    /** Conservation: no block is lost or handed out twice. */
    lemma BlocksConserved()
      requires Valid()
      ensures |free| + |used| == capacity
      ensures |Elements(used)| == |used|
      ensures forall a :: a in addresses <==> (a in free) != (a in used)
    {
      StoreCount(data[..], 1, [free, used], addresses);
      assert TotalLength([free, used]) == |free| + TotalLength([used]);
      assert [free, used][1..] == [used] && [used][1..] == [];
      StoreList(data[..], 1, [free, used], addresses, 1);
      DistinctCount(used);
      assert [free, used][0] == free && [free, used][1] == used;
      assert forall a :: a in free ==> a !in [free, used][1];
    }

    method Empty() returns (empty: bool)
      requires Valid()
      ensures empty <==> used == []
    {
      StoreList(data[..], 1, [free, used], addresses, 1);
      ListReads(data[..], 2, used);
      empty := Hi(data[USED_BLOCK_META_ADDR]) == 0;
    }

    method Full() returns (full: bool)
      requires Valid()
      ensures full <==> free == []
    {
      StoreList(data[..], 1, [free, used], addresses, 0);
      ListReads(data[..], 1, free);
      full := Hi(data[FREE_BLOCK_META_ADDR]) == 0;
    }

    /** Hands out the first free block and links it behind the used ones. */
    method AllocBlock() returns (addr: nat)
      requires Valid() && free != []
      modifies this`free, this`used, data
      ensures Valid() && data[0] == old(data[0])
      ensures addr == old(free)[0] && free == old(free)[1..] && used == old(used) + [addr]
      ensures addr in addresses && addr !in old(used)
      ensures IsMove(old(data[..]), data[..], 1, old([free, used]), [free, used], Move(0, 0, 1, false))
    {
      hide Stored, LowBlocks, IsList, Pack, AllAddresses, DropFirst, Append, Prepend, IsMove, TakenWords, Taken, Moved;
      ghost var w0, lists, m := data[..], [free, used], Move(0, 0, 1, false);
      StoreAddresses(w0, 1, lists, addresses);
      TakenFront(w0, 1, lists, m);
      StoreList(w0, 1, lists, addresses, 0);
      addr := UnlinkFirst(data, FREE_BLOCK_META_ADDR, free);
      ghost var w1, lists' := data[..], [free[1..], used];
      StoreStep(w0, w1, 1, lists, addresses, 0, free[1..], addr, false);
      assert lists[0 := free[1..]] == lists';
      StoreAddresses(w1, 1, lists', addresses - {addr});
      StoreList(w1, 1, lists', addresses - {addr}, 1);
      LinkLast(data, USED_BLOCK_META_ADDR, addr, used);
      StoreStep(w1, data[..], 1, lists', addresses - {addr}, 1, used + [addr], addr, true);
      assert lists'[1 := used + [addr]] == [free[1..], used + [addr]];
      assert addresses - {addr} + {addr} == addresses;
      free, used := free[1..], used + [addr];
      MoveOf(w0, w1, data[..], 1, lists, [free, used], m);
    }

    /** Takes a block out of the used list, wherever it is, and links it in front of the free ones. */
    method FreeBlock(addr: nat, ghost i: nat)
      requires Valid() && i < |used| && used[i] == addr
      modifies this`free, this`used, data
      ensures Valid() && free == [addr] + old(free) && used == Without(old(used), i)
      ensures (forall k :: 0 <= k < |old(used)| ==> 0 < old(used)[k] <= MAX_ADDR)
              && data[0] == HeaderAfterFree(old(data[0]), old(used), i)
      ensures IsMove(old(data[..])[0 := data[0]], data[..], 1, old([free, used]), [free, used], Move(1, i, 0, true))
    {
      hide Store, IsList, Pack, Hi, Lo, AllAddresses, DropFirst, Append, Prepend, Unlink, IsMove, TakenWords, Taken, Without;
      ghost var w0, lists, rest := data[..], [free, used], Without(used, i);
      StoreList(w0, 1, lists, addresses, 1);
      UsedInRange(i);
      UnlinkBlock(data, USED_BLOCK_META_ADDR, addr, used, i);
      ghost var w0', w1 := w0[0 := data[0]], data[..];
      StoreWordZero(w0, w0', 1, lists, addresses);
      BlockUnlinked(w0', w1, free, used, i, addresses, lists);
      LinkFirst(data, FREE_BLOCK_META_ADDR, addr, free);
      BlockFreed(w0', w1, data[..], free, used, i, addresses);
      free, used := [addr] + free, rest;
    }

    lemma UsedDistinct()
      requires Valid()
      ensures forall i, j :: 0 <= i < j < |used| ==> used[i] != used[j]
    {
      StoreList(data[..], 1, [free, used], addresses, 1);
    }

    lemma UsedInRange(i: nat)
      requires Valid() && i < |used|
      ensures forall k :: 0 <= k < |used| ==> used[k] in addresses && 0 < used[k] <= MAX_ADDR
    {
      assert [free, used][1] == used;
      forall k | 0 <= k < |used| ensures used[k] in addresses {
        assert used[k] in used;
      }
    }

    /** First address of the enumeration, 0 if there is none. */
    method BeginAddress() returns (addr: int)
      requires Valid()
      ensures addr == First(used)
    {
      StoreList(data[..], 1, [free, used], addresses, 1);
      ListReads(data[..], 2, used);
      addr := Hi(data[USED_BLOCK_META_ADDR]);
    }

    /** The address that follows in the enumeration, 0 after the last. */
    method NextAddress(addr: int, ghost i: nat) returns (next: int)
      requires Valid() && i < |used| && used[i] == addr
      ensures next == Next(used, i)
    {
      StoreList(data[..], 1, [free, used], addresses, 1);
      ListReads(data[..], 2, used);
      assert Lo(data[..][used[i]]) == Next(used, i);
      next := Lo(data[addr]);
    }
  }

  /** After a `free_block` the length that `reset_nob` registers is still right exactly when the freed
      block was not the last of several used ones. */
  lemma HeaderIntact(header: int, used: seq<int>, i: int, length: int)
    requires 0 <= i < |used| && 0 <= Hi(header) == length <= MAX_ADDR
    requires forall k :: 0 <= k < |used| ==> 0 < used[k] < length
    ensures Hi(HeaderAfterFree(header, used, i)) == length <==> i < |used| - 1 || |used| == 1
  {
    hide Hi;
  }
}
