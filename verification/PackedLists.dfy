/** Doubly linked lists whose nodes are cells of one word array, as `MemoryPool` (include/cmo_mempool.h)
    and `MultiQueue` (include/cmo_queue.h) lay them out: a header word packs the addresses of the first
    and the last block, the word at a block's address packs its predecessor and its successor, and
    address 0 stands for "none".
 */
module PackedLists {
  import opened Arithmetic

  // ----- 16 + 16 bits in an int32_t -----

  const HALF: int := 0x1_0000
  const MAX_ADDR: int := 0x7fff

  predicate Int32(w: int) { -0x8000_0000 <= w < 0x8000_0000 }

  /** (hi << 16) | lo, as a signed 32-bit word. */
  function Pack(hi: int, lo: int): (w: int)
    requires 0 <= hi < HALF && 0 <= lo < HALF
    ensures Int32(w) && Lo(w) == lo
    ensures hi <= MAX_ADDR ==> Hi(w) == hi
  {
    if hi * HALF + lo < 0x8000_0000 then hi * HALF + lo else hi * HALF + lo - 0x1_0000_0000
  }

  /** w >> 16: an arithmetic shift, so the result is negative for a word with its top bit set. */
  function Hi(w: int): int {
    w / HALF
  }

  /** w & 0xffff */
  function Lo(w: int): (lo: int)
    ensures 0 <= lo < HALF
  {
    w % HALF
  }

  /** The two halves of a word of 32 bits: the upper one with its sign, the lower one without. */
  lemma HalvesOf(w: int)
    ensures w == Hi(w) * 0x1_0000 + Lo(w) && 0 <= Lo(w) < 0x1_0000
    ensures Int32(w) <==> -0x8000 <= Hi(w) <= 0x7fff
  {}

  /** A packed upper half is read back exactly when it fits in 15 bits. */
  lemma HiOfPack(hi: int, lo: int)
    requires 0 <= hi < HALF && 0 <= lo < HALF
    ensures Hi(Pack(hi, lo)) == hi <==> hi <= 0x7fff
    ensures hi > 0x7fff ==> Hi(Pack(hi, lo)) == hi - 0x1_0000 < 0
  {
    if hi > MAX_ADDR {
      assert Pack(hi, lo) < 0;
    }
  }

  // ----- one list -----

  function First(s: seq<int>): int { if s == [] then 0 else s[0] }
  function Last(s: seq<int>): int { if s == [] then 0 else s[|s| - 1] }
  function Prev(s: seq<int>, i: int): int requires 0 <= i < |s| { if i == 0 then 0 else s[i - 1] }
  function Next(s: seq<int>, i: int): int requires 0 <= i < |s| { if i == |s| - 1 then 0 else s[i + 1] }

  ghost predicate Addresses(n: nat, meta: nat, s: seq<int>) {
    && (forall i :: 0 <= i < |s| ==> 0 < s[i] < n && s[i] < HALF && s[i] != meta)
    && (forall i, j :: 0 <= i < j < |s| ==> s[i] != s[j])
  }

  /** The list s can be read from the words w under the header word at meta. */
  ghost predicate IsList(w: seq<int>, meta: nat, s: seq<int>) {
    && meta < |w| && Addresses(|w|, meta, s)
    && Int32(w[meta]) && Hi(w[meta]) == First(s) && Lo(w[meta]) == Last(s)
    && forall i {:trigger w[s[i]]} :: 0 <= i < |s| ==>
         Int32(w[s[i]]) && Hi(w[s[i]]) == Prev(s, i) && Lo(w[s[i]]) == Next(s, i)
  }

  /** The words are those the code writes for the list s, whether or not they can be read back. */
  ghost predicate Written(w: seq<int>, meta: nat, s: seq<int>) {
    && meta < |w| && Addresses(|w|, meta, s)
    && w[meta] == Pack(First(s), Last(s))
    && forall i {:trigger w[s[i]]} :: 0 <= i < |s| ==> w[s[i]] == Pack(Prev(s, i), Next(s, i))
  }

  /** Every address that is stored in an upper half survives packing: the first, and all but the last. */
  ghost predicate Readable(s: seq<int>) {
    First(s) <= MAX_ADDR && forall i :: 0 <= i < |s| - 1 ==> s[i] <= MAX_ADDR
  }

  ghost predicate Low(s: seq<int>) {
    forall i :: 0 <= i < |s| ==> s[i] <= MAX_ADDR
  }

  lemma ReadBack(word: int, hi: int, lo: int)
    requires 0 <= hi < HALF && 0 <= lo < HALF
    ensures Int32(word) && Hi(word) == hi && Lo(word) == lo <==> word == Pack(hi, lo) && hi <= MAX_ADDR
  {
    HiOfPack(hi, lo);
    assert word == Hi(word) * HALF + Lo(word);
  }

  /** What has been written can be read exactly when it is readable. */
  lemma ReadableList(w: seq<int>, meta: nat, s: seq<int>)
    ensures IsList(w, meta, s) <==> Written(w, meta, s) && Readable(s)
    ensures Written(w, meta, s) ==> meta < |w| && Addresses(|w|, meta, s)
  {
    hide Hi, Lo, Pack, Int32;
    if meta < |w| && Addresses(|w|, meta, s) {
      assert s != [] ==> 0 < First(s) < HALF && 0 < Last(s) < HALF;
      ReadBack(w[meta], First(s), Last(s));
      forall i | 0 <= i < |s|
        ensures Int32(w[s[i]]) && Hi(w[s[i]]) == Prev(s, i) && Lo(w[s[i]]) == Next(s, i)
          <==> w[s[i]] == Pack(Prev(s, i), Next(s, i)) && Prev(s, i) <= MAX_ADDR
      {
        ReadBack(w[s[i]], Prev(s, i), Next(s, i));
      }
      if IsList(w, meta, s) {
        forall i | 0 <= i < |s| - 1 ensures s[i] <= MAX_ADDR {
          assert Hi(w[s[i + 1]]) == Prev(s, i + 1);
        }
      }
    }
  }

  /** The words determine the list: there is one order to visit. */
  lemma {:induction false} ListPrefixUnique(w: seq<int>, meta: nat, s: seq<int>, t: seq<int>, n: nat)
    requires IsList(w, meta, s) && IsList(w, meta, t) && n <= |s|
    ensures n <= |t| && s[..n] == t[..n]
  {
    if n > 0 {
      ListPrefixUnique(w, meta, s, t, n - 1);
      if n == 1 {
        assert Hi(w[meta]) == First(s) == First(t);
      } else {
        assert s[n - 2] == s[..n - 1][n - 2] == t[..n - 1][n - 2] == t[n - 2];
        assert Lo(w[s[n - 2]]) == Next(s, n - 2) == Next(t, n - 2);
      }
      assert s[n - 1] == t[n - 1];
    }
  }

  lemma ListUnique(w: seq<int>, meta: nat, s: seq<int>, t: seq<int>)
    requires IsList(w, meta, s) && IsList(w, meta, t)
    ensures s == t
  {
    ListPrefixUnique(w, meta, s, t, |s|);
    ListPrefixUnique(w, meta, t, s, |t|);
  }

  lemma WrittenIntro(w: seq<int>, meta: nat, s: seq<int>)
    requires meta < |w| && Addresses(|w|, meta, s) && w[meta] == Pack(First(s), Last(s))
    requires forall i {:trigger w[s[i]]} :: 0 <= i < |s| ==> w[s[i]] == Pack(Prev(s, i), Next(s, i))
    ensures Written(w, meta, s) && (IsList(w, meta, s) <==> Readable(s))
  {
    ReadableList(w, meta, s);
  }

  /** What the accessors read from a list. */
  lemma ListReads(w: seq<int>, meta: nat, s: seq<int>)
    requires IsList(w, meta, s)
    ensures meta < |w| && Hi(w[meta]) == First(s) && Lo(w[meta]) == Last(s)
    ensures Addresses(|w|, meta, s) && Readable(s)
    ensures forall i {:trigger w[s[i]]} :: 0 <= i < |s| ==> Hi(w[s[i]]) == Prev(s, i) && Lo(w[s[i]]) == Next(s, i)
  {
    ReadableList(w, meta, s);
  }

  lemma ListFrame(w: seq<int>, w': seq<int>, meta: nat, s: seq<int>)
    requires IsList(w, meta, s) && |w'| == |w|
    requires w'[meta] == w[meta] && forall i {:trigger w'[s[i]]} :: 0 <= i < |s| ==> w'[s[i]] == w[s[i]]
    ensures IsList(w', meta, s)
  {}

  /** The words after linking the new block a behind the last block of s. */
  function Append(w: seq<int>, meta: nat, s: seq<int>, a: int): (w': seq<int>)
    requires meta < |w| && Addresses(|w|, meta, s) && 0 < a < |w| && a < HALF
    ensures |w'| == |w|
  {
    if s == [] then w[a := Pack(0, 0)][meta := Pack(a, a)]
    else w[Last(s) := Pack(Prev(s, |s| - 1), a)][a := Pack(Last(s), 0)][meta := Pack(First(s), a)]
  }

  /** The words after linking the new block a before the first block of s. */
  function Prepend(w: seq<int>, meta: nat, s: seq<int>, a: int): (w': seq<int>)
    requires meta < |w| && Addresses(|w|, meta, s) && 0 < a < |w| && a < HALF
    ensures |w'| == |w|
  {
    if s == [] then w[a := Pack(0, 0)][meta := Pack(a, a)]
    else w[First(s) := Pack(a, Next(s, 0))][a := Pack(0, First(s))][meta := Pack(a, Last(s))]
  }

  /** The words after unlinking the first block of s. */
  function DropFirst(w: seq<int>, meta: nat, s: seq<int>): (w': seq<int>)
    requires meta < |w| && Addresses(|w|, meta, s) && s != []
    ensures |w'| == |w|
  {
    if |s| == 1 then w[meta := Pack(0, 0)]
    else w[s[1] := Pack(0, Next(s, 1))][meta := Pack(s[1], Last(s))]
  }

  /** The words after unlinking the last block of s. */
  function DropLast(w: seq<int>, meta: nat, s: seq<int>): (w': seq<int>)
    requires meta < |w| && Addresses(|w|, meta, s) && s != []
    ensures |w'| == |w|
  {
    if |s| == 1 then w[meta := Pack(0, 0)]
    else w[s[|s| - 2] := Pack(Prev(s, |s| - 2), 0)][meta := Pack(First(s), s[|s| - 2])]
  }

  /** Nothing but the header, a and the blocks of s differs. */
  ghost predicate Outside(w: seq<int>, w': seq<int>, meta: nat, s: seq<int>, a: int) {
    && |w'| == |w|
    && forall x :: 0 <= x < |w| && x != meta && x != a && x !in s ==> w'[x] == w[x]
  }

  lemma AppendAddresses(n: nat, meta: nat, s: seq<int>, a: int)
    requires Addresses(n, meta, s) && 0 < a < n && a < HALF && a != meta && a !in s
    ensures Addresses(n, meta, s + [a]) && Addresses(n, meta, [a] + s)
  {}

  /** One word of an appended list. */
  lemma AppendWord(w: seq<int>, meta: nat, s: seq<int>, a: int, i: int)
    requires Written(w, meta, s) && 0 < a < |w| && a < HALF && a != meta && a !in s
    requires 0 <= i <= |s|
    ensures Append(w, meta, s, a)[(s + [a])[i]] == Pack(Prev(s + [a], i), Next(s + [a], i))
  {
    hide Pack;
    if i < |s| {
      assert s[i] != a && s[i] != meta;
      assert w[s[i]] == Pack(Prev(s, i), Next(s, i));
    }
  }

  lemma AppendWritten(w: seq<int>, meta: nat, s: seq<int>, a: int)
    requires Written(w, meta, s) && 0 < a < |w| && a < HALF && a != meta && a !in s
    ensures Written(Append(w, meta, s, a), meta, s + [a])
    ensures Outside(w, Append(w, meta, s, a), meta, s, a)
  {
    AppendAddresses(|w|, meta, s, a);
    var w', t := Append(w, meta, s, a), s + [a];
    assert w'[meta] == Pack(First(t), Last(t));
    forall i | 0 <= i < |t| ensures w'[t[i]] == Pack(Prev(t, i), Next(t, i)) {
      AppendWord(w, meta, s, a, i);
    }
  }

  lemma AppendReadable(s: seq<int>, a: int)
    requires Readable(s)
    ensures Readable(s + [a]) <==> (if s == [] then a else Last(s)) <= MAX_ADDR
  {
    if s != [] {
      assert (s + [a])[|s| - 1] == Last(s);
    }
  }

  lemma AppendList(w: seq<int>, meta: nat, s: seq<int>, a: int)
    requires IsList(w, meta, s) && 0 < a < |w| && a < HALF && a != meta && a !in s
    ensures Written(Append(w, meta, s, a), meta, s + [a])
    ensures IsList(Append(w, meta, s, a), meta, s + [a]) <==> (if s == [] then a else Last(s)) <= MAX_ADDR
    ensures Outside(w, Append(w, meta, s, a), meta, s, a)
  {
    hide Written, IsList, Outside, Append;
    ReadableList(w, meta, s);
    AppendReadable(s, a);
    AppendWritten(w, meta, s, a);
    ReadableList(Append(w, meta, s, a), meta, s + [a]);
  }

  lemma PrependWord(w: seq<int>, meta: nat, s: seq<int>, a: int, i: int)
    requires Written(w, meta, s) && 0 < a < |w| && a < HALF && a != meta && a !in s
    requires 0 <= i <= |s|
    ensures Prepend(w, meta, s, a)[([a] + s)[i]] == Pack(Prev([a] + s, i), Next([a] + s, i))
  {
    hide Pack;
    if i > 0 {
      assert s[i - 1] != a && s[i - 1] != meta;
      assert w[s[i - 1]] == Pack(Prev(s, i - 1), Next(s, i - 1));
    }
  }

  lemma PrependOutside(w: seq<int>, meta: nat, s: seq<int>, a: int)
    requires meta < |w| && Addresses(|w|, meta, s) && 0 < a < |w| && a < HALF
    ensures Outside(w, Prepend(w, meta, s, a), meta, s, a)
  {
    hide Pack;
  }

  lemma PrependWritten(w: seq<int>, meta: nat, s: seq<int>, a: int)
    requires Written(w, meta, s) && 0 < a < |w| && a < HALF && a != meta && a !in s
    ensures Written(Prepend(w, meta, s, a), meta, [a] + s)
    ensures Outside(w, Prepend(w, meta, s, a), meta, s, a)
  {
    AppendAddresses(|w|, meta, s, a);
    PrependOutside(w, meta, s, a);
    var w', t := Prepend(w, meta, s, a), [a] + s;
    assert w'[meta] == Pack(First(t), Last(t));
    forall i | 0 <= i < |t| ensures w'[t[i]] == Pack(Prev(t, i), Next(t, i)) {
      PrependWord(w, meta, s, a, i);
    }
  }

  lemma PrependList(w: seq<int>, meta: nat, s: seq<int>, a: int)
    requires IsList(w, meta, s) && 0 < a < |w| && a < HALF && a != meta && a !in s
    ensures Written(Prepend(w, meta, s, a), meta, [a] + s)
    ensures IsList(Prepend(w, meta, s, a), meta, [a] + s) <==> a <= MAX_ADDR
    ensures Outside(w, Prepend(w, meta, s, a), meta, s, a)
  {
    hide Written, IsList, Outside, Prepend;
    ReadableList(w, meta, s);
    PrependWritten(w, meta, s, a);
    ReadableList(Prepend(w, meta, s, a), meta, [a] + s);
  }

  lemma DropFirstWord(w: seq<int>, meta: nat, s: seq<int>, i: int)
    requires Written(w, meta, s) && 0 <= i < |s| - 1
    ensures DropFirst(w, meta, s)[s[1..][i]] == Pack(Prev(s[1..], i), Next(s[1..], i))
  {
    hide Pack;
    assert s[1..][i] == s[i + 1] != meta;
    assert w[s[i + 1]] == Pack(Prev(s, i + 1), Next(s, i + 1));
  }

  lemma DropFirstWritten(w: seq<int>, meta: nat, s: seq<int>)
    requires Written(w, meta, s) && s != []
    ensures Written(DropFirst(w, meta, s), meta, s[1..])
    ensures Outside(w, DropFirst(w, meta, s), meta, s, s[0])
  {
    hide Pack;
    var w', t := DropFirst(w, meta, s), s[1..];
    assert Addresses(|w|, meta, t);
    assert w'[meta] == Pack(First(t), Last(t));
    assert Outside(w, w', meta, s, s[0]);
    forall i | 0 <= i < |t| ensures w'[t[i]] == Pack(Prev(t, i), Next(t, i)) {
      DropFirstWord(w, meta, s, i);
    }
  }

  lemma DropFirstList(w: seq<int>, meta: nat, s: seq<int>)
    requires IsList(w, meta, s) && s != []
    ensures Written(DropFirst(w, meta, s), meta, s[1..])
    ensures IsList(DropFirst(w, meta, s), meta, s[1..]) <==> |s| == 2 ==> s[1] <= MAX_ADDR
    ensures Outside(w, DropFirst(w, meta, s), meta, s, s[0])
  {
    hide Written, IsList, Outside, DropFirst;
    ReadableList(w, meta, s);
    DropFirstWritten(w, meta, s);
    ReadableList(DropFirst(w, meta, s), meta, s[1..]);
  }

  lemma DropLastWord(w: seq<int>, meta: nat, s: seq<int>, i: int)
    requires Written(w, meta, s) && 0 <= i < |s| - 1
    ensures DropLast(w, meta, s)[s[..|s| - 1][i]] == Pack(Prev(s[..|s| - 1], i), Next(s[..|s| - 1], i))
  {
    hide Pack;
    assert s[..|s| - 1][i] == s[i] != meta;
    assert w[s[i]] == Pack(Prev(s, i), Next(s, i));
  }

  lemma DropLastWritten(w: seq<int>, meta: nat, s: seq<int>)
    requires Written(w, meta, s) && s != []
    ensures Written(DropLast(w, meta, s), meta, s[..|s| - 1])
    ensures Outside(w, DropLast(w, meta, s), meta, s, s[|s| - 1])
  {
    hide Pack;
    var w', t := DropLast(w, meta, s), s[..|s| - 1];
    assert Addresses(|w|, meta, t);
    assert w'[meta] == Pack(First(t), Last(t));
    assert Outside(w, w', meta, s, s[|s| - 1]);
    forall i | 0 <= i < |t| ensures w'[t[i]] == Pack(Prev(t, i), Next(t, i)) {
      DropLastWord(w, meta, s, i);
    }
  }

  lemma DropLastList(w: seq<int>, meta: nat, s: seq<int>)
    requires IsList(w, meta, s) && s != []
    ensures Written(DropLast(w, meta, s), meta, s[..|s| - 1])
    ensures IsList(DropLast(w, meta, s), meta, s[..|s| - 1])
    ensures Outside(w, DropLast(w, meta, s), meta, s, s[|s| - 1])
  {
    hide Written, IsList, Outside, DropLast;
    ReadableList(w, meta, s);
    DropLastWritten(w, meta, s);
    ReadableList(DropLast(w, meta, s), meta, s[..|s| - 1]);
  }

  // ----- unlinking in the middle -----

  function Without(s: seq<int>, i: int): (t: seq<int>)
    requires 0 <= i < |s|
    ensures |t| == |s| - 1
    ensures forall j :: 0 <= j < |t| ==> t[j] == if j < i then s[j] else s[j + 1]
  {
    s[..i] + s[i + 1..]
  }

  /** The words after unlinking block s[i] from a list it shares with others. */
  function Unlink(w: seq<int>, meta: nat, s: seq<int>, i: int): (w': seq<int>)
    requires meta < |w| && Addresses(|w|, meta, s) && 0 <= i < |s| && 2 <= |s|
    ensures |w'| == |w|
  {
    if i == 0 then DropFirst(w, meta, s)
    else if i == |s| - 1 then DropLast(w, meta, s)
    else w[s[i - 1] := Pack(Prev(s, i - 1), s[i + 1])][s[i + 1] := Pack(s[i - 1], Next(s, i + 1))]
  }

  lemma WithoutAddresses(n: nat, meta: nat, s: seq<int>, i: int)
    requires Addresses(n, meta, s) && 0 <= i < |s|
    ensures Addresses(n, meta, Without(s, i))
  {}

  lemma UnlinkWord(w: seq<int>, meta: nat, s: seq<int>, i: int, j: int)
    requires Written(w, meta, s) && 0 < i < |s| - 1 && 0 <= j < |s| - 1
    ensures var t := Without(s, i); Unlink(w, meta, s, i)[t[j]] == Pack(Prev(t, j), Next(t, j))
  {
    hide Pack;
    var k := if j < i then j else j + 1;
    var t := Without(s, i);
    assert t[j] == s[k] != meta;
    assert w[s[k]] == Pack(Prev(s, k), Next(s, k));
    assert k != i - 1 ==> s[k] != s[i - 1];
    assert k != i + 1 ==> s[k] != s[i + 1];
  }

  lemma UnlinkWritten(w: seq<int>, meta: nat, s: seq<int>, i: int)
    requires Written(w, meta, s) && 0 <= i < |s| && 2 <= |s|
    ensures Written(Unlink(w, meta, s, i), meta, Without(s, i))
    ensures Outside(w, Unlink(w, meta, s, i), meta, s, s[i])
  {
    hide Pack;
    var t := Without(s, i);
    if i == 0 {
      DropFirstWritten(w, meta, s);
      assert t == s[1..];
    } else if i == |s| - 1 {
      DropLastWritten(w, meta, s);
      assert t == s[..i];
    } else {
      UnlinkMiddle(w, meta, s, i);
    }
  }

  lemma UnlinkList(w: seq<int>, meta: nat, s: seq<int>, i: int)
    requires IsList(w, meta, s) && 0 <= i < |s| && 2 <= |s|
    ensures Written(Unlink(w, meta, s, i), meta, Without(s, i))
    ensures IsList(Unlink(w, meta, s, i), meta, Without(s, i)) <==> |s| == 2 && i == 0 ==> s[1] <= MAX_ADDR
    ensures Outside(w, Unlink(w, meta, s, i), meta, s, s[i])
  {
    hide Written, IsList, Outside, Unlink;
    ReadableList(w, meta, s);
    assert 2 <= |s| ==> s[0] == First(s);
    UnlinkWritten(w, meta, s, i);
    ReadableList(Unlink(w, meta, s, i), meta, Without(s, i));
  }

  lemma UnlinkMiddle(w: seq<int>, meta: nat, s: seq<int>, i: int)
    requires Written(w, meta, s) && 0 < i < |s| - 1
    ensures Written(Unlink(w, meta, s, i), meta, Without(s, i))
    ensures Outside(w, Unlink(w, meta, s, i), meta, s, s[i])
  {
    hide Pack;
    WithoutAddresses(|w|, meta, s, i);
    var w', t := Unlink(w, meta, s, i), Without(s, i);
    assert w'[meta] == w[meta] == Pack(First(t), Last(t));
    assert Outside(w, w', meta, s, s[i]);
    forall j | 0 <= j < |t| ensures w'[t[j]] == Pack(Prev(t, j), Next(t, j)) {
      UnlinkWord(w, meta, s, i, j);
    }
  }

  // ----- the code that rewrites the link words -----

  /** An address above 0x7fff in an upper half is read as a negative number, which is no index. */
  lemma ReadsNegative(w: seq<int>, meta: nat, s: seq<int>, i: nat)
    requires Written(w, meta, s)
    ensures meta < |w| && (First(s) > MAX_ADDR ==> Hi(w[meta]) < 0)
    ensures i < |s| ==> 0 <= s[i] < |w| && (Prev(s, i) > MAX_ADDR ==> Hi(w[s[i]]) < 0)
  {
    hide Hi, Lo, Pack;
    assert s != [] ==> 0 < First(s) < HALF && 0 < Last(s) < HALF;
    HiOfPack(First(s), Last(s));
    if i < |s| {
      assert w[s[i]] == Pack(Prev(s, i), Next(s, i));
      HiOfPack(Prev(s, i), Next(s, i));
    }
  }

  /** Links a block that is in no list in front of s. */
  method LinkFirst(d: array<int>, meta: nat, addr: nat, ghost s: seq<int>)
    requires IsList(d[..], meta, s) && 0 < addr < d.Length && addr < HALF && addr != meta && addr !in s
    modifies d
    ensures Addresses(|old(d[..])|, meta, s) && d[..] == old(Prepend(d[..], meta, s, addr))
    ensures IsList(d[..], meta, [addr] + s) <==> addr <= MAX_ADDR
    ensures Outside(old(d[..]), d[..], meta, s, addr)
  {
    hide IsList, Pack, Hi, Lo, Outside;
    ghost var w := d[..];
    ListReads(w, meta, s);
    PrependList(w, meta, s, addr);
    assert s != [] ==> w[s[0]] == d[s[0]];
    var beginAddr := Hi(d[meta]);
    if beginAddr == 0 {
      d[addr] := Pack(0, 0);
      d[meta] := Pack(addr, addr);
    } else {
      d[beginAddr] := Pack(addr, Lo(d[beginAddr]));
      d[addr] := Pack(0, beginAddr);
      d[meta] := Pack(addr, Lo(d[meta]));
    }
    assert d[..] == Prepend(w, meta, s, addr);
  }

  /** Links a block that is in no list behind s. */
  method LinkLast(d: array<int>, meta: nat, addr: nat, ghost s: seq<int>)
    requires IsList(d[..], meta, s) && 0 < addr < d.Length && addr < HALF && addr != meta && addr !in s
    modifies d
    ensures Addresses(|old(d[..])|, meta, s) && d[..] == old(Append(d[..], meta, s, addr))
    ensures IsList(d[..], meta, s + [addr]) <==> (if s == [] then addr else Last(s)) <= MAX_ADDR
    ensures s != [] && Last(s) > MAX_ADDR ==> Hi(d[addr]) < 0
    ensures Outside(old(d[..]), d[..], meta, s, addr)
  {
    hide IsList, Pack, Hi, Lo, Outside;
    ghost var w := d[..];
    ListReads(w, meta, s);
    AppendList(w, meta, s, addr);
    assert s != [] ==> w[Last(s)] == d[Last(s)];
    var endAddr := Lo(d[meta]);
    if endAddr == 0 {
      d[addr] := Pack(0, 0);
      d[meta] := Pack(addr, addr);
    } else {
      d[endAddr] := Pack(Hi(d[endAddr]), addr);
      d[addr] := Pack(endAddr, 0);
      d[meta] := Pack(Hi(d[meta]), addr);
    }
    assert d[..] == Append(w, meta, s, addr);
    ReadsNegative(d[..], meta, s + [addr], |s|);
  }

  /** Unlinks the first block of s. */
  method UnlinkFirst(d: array<int>, meta: nat, ghost s: seq<int>) returns (addr: nat)
    requires IsList(d[..], meta, s) && s != []
    modifies d
    ensures addr == s[0] && forall x :: x in s[1..] <==> x in s && x != addr
    ensures Addresses(|old(d[..])|, meta, s) && d[..] == old(DropFirst(d[..], meta, s))
    ensures IsList(d[..], meta, s[1..]) <==> |s| == 2 ==> s[1] <= MAX_ADDR
    ensures |s| == 2 && s[1] > MAX_ADDR ==> Hi(d[meta]) < 0
    ensures Outside(old(d[..]), d[..], meta, s, addr)
  {
    hide IsList, Pack, Hi, Lo, Outside;
    ghost var w := d[..];
    ListReads(w, meta, s);
    DropFirstList(w, meta, s);
    assert w[s[0]] == d[s[0]];
    assert |s| > 1 ==> w[s[1]] == d[s[1]];
    addr := Hi(d[meta]);
    var nextAddr := Lo(d[addr]);
    if nextAddr == 0 {
      d[meta] := Pack(0, 0);
    } else {
      d[nextAddr] := Pack(0, Lo(d[nextAddr]));
      d[meta] := Pack(nextAddr, Lo(d[meta]));
    }
    assert d[..] == DropFirst(w, meta, s);
    ReadsNegative(d[..], meta, s[1..], 0);
  }

  /** Unlinks the last block of s. */
  method UnlinkLast(d: array<int>, meta: nat, ghost s: seq<int>) returns (addr: nat)
    requires IsList(d[..], meta, s) && s != []
    modifies d
    ensures addr == Last(s) && forall x :: x in s[..|s| - 1] <==> x in s && x != addr
    ensures Addresses(|old(d[..])|, meta, s) && d[..] == old(DropLast(d[..], meta, s))
    ensures IsList(d[..], meta, s[..|s| - 1]) && Outside(old(d[..]), d[..], meta, s, addr)
  {
    hide IsList, Pack, Hi, Lo, Outside;
    ghost var w := d[..];
    ListReads(w, meta, s);
    DropLastList(w, meta, s);
    assert w[Last(s)] == d[Last(s)];
    assert |s| > 1 ==> w[s[|s| - 2]] == d[s[|s| - 2]];
    addr := Lo(d[meta]);
    var prevAddr := Hi(d[addr]);
    if prevAddr == 0 {
      d[meta] := Pack(0, 0);
    } else {
      d[prevAddr] := Pack(Hi(d[prevAddr]), 0);
      d[meta] := Pack(Hi(d[meta]), prevAddr);
    }
    assert d[..] == DropLast(w, meta, s);
  }

  // ----- several lists over one set of blocks -----

  /** The lists share out the blocks: each block is in exactly one of them. */
  ghost predicate Partition(lists: seq<seq<int>>, blocks: set<int>) {
    && (forall k, a :: 0 <= k < |lists| && a in lists[k] ==> a in blocks)
    && (forall j, k, a :: 0 <= j < k < |lists| && a in lists[j] ==> a !in lists[k])
    && (forall a :: a in blocks ==> exists k :: 0 <= k < |lists| && a in lists[k])
  }

  /** The given lists can be read under the header words base, base + 1, ..., all of their blocks behind
      the headers. */
  ghost predicate Stored(w: seq<int>, base: nat, lists: seq<seq<int>>, blocks: set<int>) {
    && 0 < base && base + |lists| <= |w|
    && (forall a :: a in blocks ==> base + |lists| <= a < |w| && a < HALF)
    && (forall k :: 0 <= k < |lists| ==> IsList(w, base + k, lists[k]))
    && Partition(lists, blocks)
  }

  ghost predicate LowBlocks(blocks: set<int>) {
    forall a :: a in blocks ==> a <= MAX_ADDR
  }

  /** Besides, every address survives packing wherever it is put. */
  ghost predicate Store(w: seq<int>, base: nat, lists: seq<seq<int>>, blocks: set<int>) {
    Stored(w, base, lists, blocks) && LowBlocks(blocks)
  }

  lemma StoreMembers(w: seq<int>, base: nat, lists: seq<seq<int>>, blocks: set<int>)
    requires Store(w, base, lists, blocks)
    ensures forall k, i :: 0 <= k < |lists| && 0 <= i < |lists[k]| ==> lists[k][i] in blocks
  {
    forall k, i | 0 <= k < |lists| && 0 <= i < |lists[k]| ensures lists[k][i] in blocks {
      assert lists[k][i] in lists[k];
    }
  }

  lemma StoreList(w: seq<int>, base: nat, lists: seq<seq<int>>, blocks: set<int>, k: nat)
    requires Store(w, base, lists, blocks) && k < |lists|
    ensures IsList(w, base + k, lists[k])
    ensures forall x :: x in lists[k] ==> x in blocks
    ensures Low(lists[k])
  {
    forall i | 0 <= i < |lists[k]| ensures lists[k][i] <= MAX_ADDR {
      assert lists[k][i] in lists[k] && lists[k][i] in blocks;
    }
  }

  /** A list that shares no cell with what changed is still there. */
  lemma OtherList(w: seq<int>, w': seq<int>, changed: nat, s: seq<int>, a: int, meta: nat, t: seq<int>)
    requires IsList(w, meta, t) && Outside(w, w', changed, s, a)
    requires meta != changed && meta != a && meta !in s
    requires forall x :: x in t ==> x != changed && x != a && x !in s
    ensures IsList(w', meta, t)
  {
    forall i | 0 <= i < |t| ensures w'[t[i]] == w[t[i]] {
      assert t[i] in t;
    }
  }

  /** Linking the block a into list k, or unlinking it, leaves the other lists as they were. */
  lemma StoredStep(w: seq<int>, w': seq<int>, base: nat, lists: seq<seq<int>>, blocks: set<int>, k: nat, t: seq<int>,
                   a: int, linked: bool)
    requires Stored(w, base, lists, blocks) && k < |lists|
    requires IsList(w', base + k, t) && Outside(w, w', base + k, lists[k], a)
    requires linked ==> a !in blocks && base + |lists| <= a < |w| && a < HALF
    requires !linked ==> a in lists[k]
    requires forall x :: x in t <==> (x in lists[k] && x != a) || (linked && x == a)
    ensures Stored(w', base, lists[k := t], if linked then blocks + {a} else blocks - {a})
  {
    hide IsList;
    assert |w'| == |w|;
    assert a in lists[k] ==> a in blocks;
    forall j | 0 <= j < |lists| && j != k ensures IsList(w', base + j, lists[j]) {
      assert forall x :: x in lists[k] ==> x in blocks;
      assert forall x :: x in lists[j] ==> x in blocks;
      OtherList(w, w', base + k, lists[k], a, base + j, lists[j]);
    }
    PartitionStep(lists, blocks, k, t, a, linked);
  }

  lemma StoreStep(w: seq<int>, w': seq<int>, base: nat, lists: seq<seq<int>>, blocks: set<int>, k: nat, t: seq<int>,
                  a: int, linked: bool)
    requires Store(w, base, lists, blocks) && k < |lists|
    requires IsList(w', base + k, t) && Outside(w, w', base + k, lists[k], a)
    requires linked ==> a !in blocks && base + |lists| <= a < |w| && a <= MAX_ADDR
    requires !linked ==> a in lists[k]
    requires forall x :: x in t <==> (x in lists[k] && x != a) || (linked && x == a)
    ensures Store(w', base, lists[k := t], if linked then blocks + {a} else blocks - {a})
  {
    hide Stored, IsList, Outside;
    StoredStep(w, w', base, lists, blocks, k, t, a, linked);
  }

  // ----- sequences of operations -----

  /** A block is taken out of one list and linked into another, in front or behind: `push_back` of queue k is
      Move(0, 0, k + 1, false) and its `pop_front` Move(k + 1, 0, 0, true); `alloc_block` is
      Move(0, 0, 1, false) and `free_block` Move(1, i, 0, true). */
  datatype Move = Move(from: nat, i: nat, to: nat, front: bool)

  predicate LegalMove(lists: seq<seq<int>>, m: Move) {
    m.from < |lists| && m.to < |lists| && m.i < |lists[m.from]|
  }

  function Taken(lists: seq<seq<int>>, m: Move): (r: seq<seq<int>>)
    requires LegalMove(lists, m)
    ensures |r| == |lists|
  {
    lists[m.from := Without(lists[m.from], m.i)]
  }

  function Moved(lists: seq<seq<int>>, m: Move): (r: seq<seq<int>>)
    requires LegalMove(lists, m)
    ensures |r| == |lists|
  {
    var a, t := lists[m.from][m.i], Taken(lists, m)[m.to];
    Taken(lists, m)[m.to := if m.front then [a] + t else t + [a]]
  }

  predicate Legal(lists: seq<seq<int>>, moves: seq<Move>)
    decreases |moves|
  {
    moves == [] || (LegalMove(lists, moves[0]) && Legal(Moved(lists, moves[0]), moves[1..]))
  }

  ghost predicate AllAddresses(n: nat, base: nat, lists: seq<seq<int>>) {
    base + |lists| <= n && forall k :: 0 <= k < |lists| ==> Addresses(n, base + k, lists[k])
  }

  /** The words between unlinking and linking. */
  function TakenWords(w: seq<int>, base: nat, lists: seq<seq<int>>, m: Move): (w': seq<int>)
    requires AllAddresses(|w|, base, lists) && LegalMove(lists, m)
    ensures |w'| == |w|
  {
    var meta, s := base + m.from, lists[m.from];
    if |s| == 1 then DropFirst(w, meta, s) else Unlink(w, meta, s, m.i)
  }

  function MovedWords(w: seq<int>, base: nat, lists: seq<seq<int>>, m: Move): (w': seq<int>)
    requires AllAddresses(|w|, base, lists) && LegalMove(lists, m)
    ensures |w'| == |w|
  {
    WithoutAddresses(|w|, base + m.from, lists[m.from], m.i);
    var a, t := lists[m.from][m.i], Taken(lists, m)[m.to];
    if m.front then Prepend(TakenWords(w, base, lists, m), base + m.to, t, a)
    else Append(TakenWords(w, base, lists, m), base + m.to, t, a)
  }

  lemma StoreAddresses(w: seq<int>, base: nat, lists: seq<seq<int>>, blocks: set<int>)
    requires Store(w, base, lists, blocks)
    ensures AllAddresses(|w|, base, lists)
  {
    StoredAddresses(w, base, lists, blocks);
  }

  lemma TakenFront(w: seq<int>, base: nat, lists: seq<seq<int>>, m: Move)
    requires AllAddresses(|w|, base, lists) && LegalMove(lists, m) && m.i == 0
    ensures TakenWords(w, base, lists, m) == DropFirst(w, base + m.from, lists[m.from])
    ensures Taken(lists, m) == lists[m.from := lists[m.from][1..]]
    ensures var a, t := lists[m.from][m.i], Taken(lists, m)[m.to];
      Moved(lists, m) == Taken(lists, m)[m.to := if m.front then [a] + t else t + [a]]
  {
    assert Without(lists[m.from], 0) == lists[m.from][1..];
  }

  lemma TakenBack(w: seq<int>, base: nat, lists: seq<seq<int>>, m: Move)
    requires AllAddresses(|w|, base, lists) && LegalMove(lists, m) && m.i == |lists[m.from]| - 1
    ensures TakenWords(w, base, lists, m) == DropLast(w, base + m.from, lists[m.from])
    ensures Taken(lists, m) == lists[m.from := lists[m.from][..m.i]]
    ensures var a, t := lists[m.from][m.i], Taken(lists, m)[m.to];
      Moved(lists, m) == Taken(lists, m)[m.to := if m.front then [a] + t else t + [a]]
  {
    assert Without(lists[m.from], m.i) == lists[m.from][..m.i];
  }

  /** Words and lists are those after the move m. */
  ghost predicate IsMove(w: seq<int>, w': seq<int>, base: nat, lists: seq<seq<int>>, lists': seq<seq<int>>, m: Move) {
    && AllAddresses(|w|, base, lists) && LegalMove(lists, m)
    && w' == MovedWords(w, base, lists, m) && lists' == Moved(lists, m)
  }

  lemma MoveOf(w: seq<int>, w1: seq<int>, w2: seq<int>, base: nat, lists: seq<seq<int>>, lists': seq<seq<int>>, m: Move)
    requires AllAddresses(|w|, base, lists) && LegalMove(lists, m) && w1 == TakenWords(w, base, lists, m)
    requires AllAddresses(|w1|, base, Taken(lists, m)) && lists' == Moved(lists, m)
    requires var a, t := lists[m.from][m.i], Taken(lists, m)[m.to];
      w2 == if m.front then Prepend(w1, base + m.to, t, a) else Append(w1, base + m.to, t, a)
    ensures IsMove(w, w2, base, lists, lists', m)
  {
    hide Append, Prepend, TakenWords;
  }

  /** All operations go through: before each one and halfway every list can be read as it should be. */
  ghost predicate Works(w: seq<int>, base: nat, lists: seq<seq<int>>, blocks: set<int>, moves: seq<Move>)
    decreases |moves|
  {
    && Stored(w, base, lists, blocks)
    && (moves == [] || (
          && LegalMove(lists, moves[0])
          && (StoredAddresses(w, base, lists, blocks);
              Stored(TakenWords(w, base, lists, moves[0]), base, Taken(lists, moves[0]), blocks - {lists[moves[0].from][moves[0].i]}))
          && Works(MovedWords(w, base, lists, moves[0]), base, Moved(lists, moves[0]), blocks, moves[1..])))
  }

  lemma StoredAddresses(w: seq<int>, base: nat, lists: seq<seq<int>>, blocks: set<int>)
    requires Stored(w, base, lists, blocks)
    ensures AllAddresses(|w|, base, lists)
  {
    hide IsList;
    forall k | 0 <= k < |lists| ensures Addresses(|w|, base + k, lists[k]) {
      ReadableList(w, base + k, lists[k]);
    }
  }

  lemma TakenStore(w: seq<int>, base: nat, lists: seq<seq<int>>, blocks: set<int>, m: Move)
    requires Store(w, base, lists, blocks) && LegalMove(lists, m) && AllAddresses(|w|, base, lists)
    ensures var a := lists[m.from][m.i]; a in blocks && Store(TakenWords(w, base, lists, m), base, Taken(lists, m), blocks - {a})
  {
    hide Store, IsList, Unlink, Outside;
    var meta, s := base + m.from, lists[m.from];
    StoreList(w, base, lists, blocks, m.from);
    WithoutMembers(s, m.i);
    if |s| == 1 {
      DropFirstList(w, meta, s);
      assert Without(s, m.i) == s[1..];
    } else {
      UnlinkList(w, meta, s, m.i);
    }
    StoreStep(w, TakenWords(w, base, lists, m), base, lists, blocks, m.from, Without(s, m.i), s[m.i], false);
  }

  lemma WithoutMembers(s: seq<int>, i: int)
    requires 0 <= i < |s| && forall j, k :: 0 <= j < k < |s| ==> s[j] != s[k]
    ensures s[i] in s && forall x :: x in Without(s, i) <==> x in s && x != s[i]
  {
    WithoutElements(s, i);
    assert forall x :: x in Elements(Without(s, i)) <==> x in Elements(s) - {s[i]};
  }

  lemma LinkedStore(w: seq<int>, base: nat, lists: seq<seq<int>>, blocks: set<int>, k: nat, a: int, front: bool)
    requires Store(w, base, lists, blocks) && k < |lists| && AllAddresses(|w|, base, lists)
    requires a !in blocks && base + |lists| <= a < |w| && a <= MAX_ADDR
    ensures var t := lists[k];
      Store(if front then Prepend(w, base + k, t, a) else Append(w, base + k, t, a), base,
            lists[k := if front then [a] + t else t + [a]], blocks + {a})
  {
    hide IsList, Outside, Append, Prepend, AllAddresses;
    var t := lists[k];
    StoreList(w, base, lists, blocks, k);
    if front {
      PrependList(w, base + k, t, a);
      StoreStep(w, Prepend(w, base + k, t, a), base, lists, blocks, k, [a] + t, a, true);
    } else {
      AppendList(w, base + k, t, a);
      StoreStep(w, Append(w, base + k, t, a), base, lists, blocks, k, t + [a], a, true);
    }
  }

  lemma BlockRange(w: seq<int>, base: nat, lists: seq<seq<int>>, blocks: set<int>, a: int)
    requires Store(w, base, lists, blocks) && a in blocks
    ensures base + |lists| <= a < |w| && a <= MAX_ADDR
  {}

  lemma MovedStore(w: seq<int>, base: nat, lists: seq<seq<int>>, blocks: set<int>, m: Move)
    requires Store(w, base, lists, blocks) && LegalMove(lists, m) && AllAddresses(|w|, base, lists)
    ensures Store(MovedWords(w, base, lists, m), base, Moved(lists, m), blocks)
  {
    hide Stored, LowBlocks, TakenWords, Append, Prepend, AllAddresses;
    TakenStore(w, base, lists, blocks, m);
    var a, w1, l1 := lists[m.from][m.i], TakenWords(w, base, lists, m), Taken(lists, m);
    StoredAddresses(w1, base, l1, blocks - {a});
    BlockRange(w, base, lists, blocks, a);
    LinkedStore(w1, base, l1, blocks - {a}, m.to, a, m.front);
    assert blocks - {a} + {a} == blocks;
  }

  lemma {:induction false} LowWorks(w: seq<int>, base: nat, lists: seq<seq<int>>, blocks: set<int>, moves: seq<Move>)
    requires Store(w, base, lists, blocks) && Legal(lists, moves)
    ensures Works(w, base, lists, blocks, moves)
    decreases |moves|
  {
    hide Stored, LowBlocks, TakenWords, MovedWords, Taken, Moved;
    if moves != [] {
      StoredAddresses(w, base, lists, blocks);
      TakenStore(w, base, lists, blocks, moves[0]);
      MovedStore(w, base, lists, blocks, moves[0]);
      LowWorks(MovedWords(w, base, lists, moves[0]), base, Moved(lists, moves[0]), blocks, moves[1..]);
    }
  }

  /** The first n blocks of list k go to another one, one after the other. */
  function Taking(k: nat, to: nat, n: nat): (moves: seq<Move>)
    ensures |moves| == n
  {
    if n == 0 then [] else [Move(k, 0, to, false)] + Taking(k, to, n - 1)
  }

  lemma {:induction false} TakingLegal(lists: seq<seq<int>>, k: nat, to: nat, n: nat)
    requires k < |lists| && to < |lists| && k != to && n <= |lists[k]|
    ensures Legal(lists, Taking(k, to, n))
    decreases n
  {
    if n > 0 {
      var m := Move(k, 0, to, false);
      assert Taking(k, to, n)[0] == m && Taking(k, to, n)[1..] == Taking(k, to, n - 1);
      TakingLegal(Moved(lists, m), k, to, n - 1);
    }
  }

  lemma WorksOn(w: seq<int>, base: nat, lists: seq<seq<int>>, blocks: set<int>, m: Move, moves: seq<Move>)
    requires Works(w, base, lists, blocks, [m] + moves)
    ensures Stored(w, base, lists, blocks) && LegalMove(lists, m) && AllAddresses(|w|, base, lists)
    ensures Works(MovedWords(w, base, lists, m), base, Moved(lists, m), blocks, moves)
  {
    hide Stored, TakenWords, MovedWords, Moved, Taken;
    StoredAddresses(w, base, lists, blocks);
    assert ([m] + moves)[0] == m && ([m] + moves)[1..] == moves;
  }

  /** A block that is left alone in its list is read from an upper half. */
  lemma {:induction false} LeftAlone(w: seq<int>, base: nat, lists: seq<seq<int>>, blocks: set<int>, k: nat, to: nat)
    requires k < |lists| && to < |lists| && k != to && lists[k] != []
    requires Works(w, base, lists, blocks, Taking(k, to, |lists[k]| - 1))
    ensures Last(lists[k]) <= MAX_ADDR
    decreases |lists[k]|
  {
    hide TakenWords, MovedWords, IsList, Works, AllAddresses;
    var s := lists[k];
    if |s| == 1 {
      WorksNow(w, base, lists, blocks, Taking(k, to, 0));
      ReadableList(w, base + k, s);
    } else {
      var m := Move(k, 0, to, false);
      WorksOn(w, base, lists, blocks, m, Taking(k, to, |s| - 2));
      assert Moved(lists, m)[k] == s[1..] && Last(s[1..]) == Last(s);
      LeftAlone(MovedWords(w, base, lists, m), base, Moved(lists, m), blocks, k, to);
    }
  }

  lemma WorksNow(w: seq<int>, base: nat, lists: seq<seq<int>>, blocks: set<int>, moves: seq<Move>)
    requires Works(w, base, lists, blocks, moves)
    ensures Stored(w, base, lists, blocks)
  {}

  /** Every sequence of operations goes through. */
  ghost predicate AlwaysWorks(w: seq<int>, base: nat, lists: seq<seq<int>>, blocks: set<int>) {
    forall moves {:trigger Legal(lists, moves)} :: Legal(lists, moves) ==> Works(w, base, lists, blocks, moves)
  }

  /** This is so if and only if all addresses survive packing.  Otherwise taking all other blocks of a list
      away, for the free list by allocating them, leaves a header that cannot be read. */
  lemma EverySequenceWorks(w: seq<int>, base: nat, lists: seq<seq<int>>, blocks: set<int>)
    requires Stored(w, base, lists, blocks) && 2 <= |lists|
    ensures AlwaysWorks(w, base, lists, blocks) <==> LowBlocks(blocks)
  {
    hide Stored, Works, Legal;
    if LowBlocks(blocks) {
      forall moves | Legal(lists, moves) ensures Works(w, base, lists, blocks, moves) {
        LowWorks(w, base, lists, blocks, moves);
      }
    } else {
      var k := HighBlock(w, base, lists, blocks);
      var to := if k == 0 then 1 else 0;
      TakingBreaks(w, base, lists, blocks, k, to);
    }
  }

  /** A block above 0x7fff is the last of several. */
  lemma HighBlock(w: seq<int>, base: nat, lists: seq<seq<int>>, blocks: set<int>) returns (k: nat)
    requires Stored(w, base, lists, blocks) && !LowBlocks(blocks)
    ensures k < |lists| && 2 <= |lists[k]| && Last(lists[k]) > MAX_ADDR
  {
    hide IsList;
    var a :| a in blocks && a > MAX_ADDR;
    k :| k < |lists| && a in lists[k];
    ReadableList(w, base + k, lists[k]);
    var i :| 0 <= i < |lists[k]| && lists[k][i] == a;
  }

  lemma TakingBreaks(w: seq<int>, base: nat, lists: seq<seq<int>>, blocks: set<int>, k: nat, to: nat)
    requires k < |lists| && to < |lists| && k != to && lists[k] != [] && Last(lists[k]) > MAX_ADDR
    ensures var moves := Taking(k, to, |lists[k]| - 1); Legal(lists, moves) && !Works(w, base, lists, blocks, moves)
  {
    hide Works, Legal;
    TakingLegal(lists, k, to, |lists[k]| - 1);
    if Works(w, base, lists, blocks, Taking(k, to, |lists[k]| - 1)) {
      LeftAlone(w, base, lists, blocks, k, to);
    }
  }

  lemma PartitionStep(lists: seq<seq<int>>, blocks: set<int>, k: nat, t: seq<int>, a: int, linked: bool)
    requires Partition(lists, blocks) && k < |lists|
    requires linked ==> a !in blocks
    requires !linked ==> a in lists[k]
    requires forall x :: x in t <==> (x in lists[k] && x != a) || (linked && x == a)
    ensures Partition(lists[k := t], if linked then blocks + {a} else blocks - {a})
  {
    var lists' := lists[k := t];
    var blocks' := if linked then blocks + {a} else blocks - {a};
    forall x | x in blocks' ensures exists j :: 0 <= j < |lists'| && x in lists'[j] {
      if linked && x == a {
        assert x in lists'[k];
      } else {
        var j :| 0 <= j < |lists| && x in lists[j];
        assert x in lists'[j];
      }
    }
  }

  function TotalLength(lists: seq<seq<int>>): nat {
    if lists == [] then 0 else |lists[0]| + TotalLength(lists[1..])
  }

  lemma {:induction false} TotalLengthStep(lists: seq<seq<int>>, x: seq<int>)
    ensures TotalLength(lists + [x]) == TotalLength(lists) + |x|
  {
    if lists == [] {
      assert lists + [x] == [x] && [x][1..] == [];
    } else {
      TotalLengthStep(lists[1..], x);
      assert (lists + [x])[1..] == lists[1..] + [x];
    }
  }

  function Elements(s: seq<int>): (e: set<int>)
    ensures forall x :: x in e <==> x in s
  {
    set x | x in s
  }

  lemma WithoutElements(s: seq<int>, i: int)
    requires 0 <= i < |s| && forall j, k :: 0 <= j < k < |s| ==> s[j] != s[k]
    ensures Elements(Without(s, i)) == Elements(s) - {s[i]}
  {
    var t := Without(s, i);
    forall x | x in s && x != s[i] ensures x in t {
      var k :| 0 <= k < |s| && s[k] == x;
      assert t[if k < i then k else k - 1] == x;
    }
  }

  lemma {:induction false} DistinctCount(s: seq<int>)
    requires forall i, j :: 0 <= i < j < |s| ==> s[i] != s[j]
    ensures |Elements(s)| == |s|
  {
    if s != [] {
      DistinctCount(s[1..]);
      assert s[0] !in s[1..];
      assert Elements(s) == Elements(s[1..]) + {s[0]};
    }
  }

  lemma PartitionTail(lists: seq<seq<int>>, blocks: set<int>)
    requires Partition(lists, blocks) && lists != []
    ensures Partition(lists[1..], blocks - Elements(lists[0])) && Elements(lists[0]) <= blocks
  {
    var rest := blocks - Elements(lists[0]);
    forall x | x in rest ensures exists k :: 0 <= k < |lists[1..]| && x in lists[1..][k] {
      var k :| 0 <= k < |lists| && x in lists[k];
      assert x in lists[1..][k - 1];
    }
    forall k, x | 0 <= k < |lists[1..]| && x in lists[1..][k] ensures x in rest {
      assert x in lists[k + 1];
    }
    assert forall x :: x in lists[0] ==> x in blocks;
  }

  /** No block is lost: the lengths of the lists add up to the number of blocks. */
  lemma {:induction false} PartitionCount(lists: seq<seq<int>>, blocks: set<int>)
    requires Partition(lists, blocks)
    requires forall k, i, j :: 0 <= k < |lists| && 0 <= i < j < |lists[k]| ==> lists[k][i] != lists[k][j]
    ensures TotalLength(lists) == |blocks|
  {
    if lists == [] {
      assert forall a :: a !in blocks;
    } else {
      var e := Elements(lists[0]);
      DistinctCount(lists[0]);
      PartitionTail(lists, blocks);
      PartitionCount(lists[1..], blocks - e);
      assert blocks == (blocks - e) + e;
    }
  }

  lemma StoreCount(w: seq<int>, base: nat, lists: seq<seq<int>>, blocks: set<int>)
    requires Store(w, base, lists, blocks)
    ensures TotalLength(lists) == |blocks|
  {
    forall k, i, j | 0 <= k < |lists| && 0 <= i < j < |lists[k]| ensures lists[k][i] != lists[k][j] {
      assert IsList(w, base + k, lists[k]);
    }
    PartitionCount(lists, blocks);
  }

  // ----- the initial free list -----

  /** The words the constructors write for the blocks s, `step` words apart: the successor of the
      last block is cleared only on the branch where the block is not also the first. */
  ghost predicate InitialWords(w: seq<int>, meta: nat, s: seq<int>, step: nat) {
    && s != [] && meta < |w| < HALF && 0 < step
    && (forall i :: 0 <= i < |s| ==> meta < s[i] && s[i] + step <= |w|)
    && (forall i, j :: 0 <= i < j < |s| ==> s[i] < s[j])
    && (forall i :: 0 <= i < |s| - 1 ==> s[i + 1] == s[i] + step)
    && w[meta] == Pack(First(s), Last(s))
    && forall i {:trigger w[s[i]]} :: 0 <= i < |s| ==>
         w[s[i]] == Pack(Prev(s, i), if i != 0 && i == |s| - 1 then 0 else s[i] + step)
  }

  /** The constructors leave a list that can be read exactly when there are two blocks or more and the
      address of the last but one, and with it that of every earlier block, survives packing. */
  lemma InitialList(w: seq<int>, meta: nat, s: seq<int>, step: nat)
    requires InitialWords(w, meta, s, step)
    ensures 2 <= |s| && s[|s| - 2] <= MAX_ADDR ==> IsList(w, meta, s)
    ensures 2 <= |s| && s[|s| - 2] <= MAX_ADDR <==> exists t :: IsList(w, meta, t)
  {
    hide Pack, Hi, Lo, Int32;
    if |s| < 2 {
      forall t ensures !IsList(w, meta, t) {
        SingleBlock(w, meta, s, step, t);
      }
    } else if s[|s| - 2] > MAX_ADDR {
      forall t ensures !IsList(w, meta, t) {
        FarBlock(w, meta, s, step, t);
      }
    } else {
      forall i | 0 <= i < |s| ensures w[s[i]] == Pack(Prev(s, i), Next(s, i)) {
        assert i < |s| - 1 ==> s[i + 1] == s[i] + step;
      }
      WrittenIntro(w, meta, s);
    }
  }

  /** The link word of the last block points back to a negative address. */
  lemma FarBlock(w: seq<int>, meta: nat, s: seq<int>, step: nat, t: seq<int>)
    requires InitialWords(w, meta, s, step) && 2 <= |s| && s[|s| - 2] > MAX_ADDR
    ensures !IsList(w, meta, t)
  {
    hide Pack;
    var i := |s| - 1;
    assert w[s[i]] == Pack(s[i - 1], 0) && 0 < s[i - 1] < HALF && 0 < s[i] < HALF;
    HiOfPack(s[i - 1], 0);
    assert Lo(w[meta]) == Last(s) == s[i] && Hi(w[s[i]]) < 0;
  }

  /** The link word of a lone block points behind it, at no block. */
  lemma SingleBlock(w: seq<int>, meta: nat, s: seq<int>, step: nat, t: seq<int>)
    requires InitialWords(w, meta, s, step) && |s| == 1
    ensures !IsList(w, meta, t)
  {
    hide Pack;
    assert w[meta] == Pack(s[0], s[0]) && w[s[0]] == Pack(0, s[0] + step);
    HiOfPack(s[0], s[0]);
    assert Lo(w[meta]) == s[0] && Lo(w[s[0]]) == s[0] + step;
  }

  /** Address of block i when the first block is at `base` and blocks are `step` words apart. */
  function BlockAddress(base: nat, step: nat, i: nat): nat {
    base + i * step
  }

  lemma BlockOrder(base: nat, step: nat, i: nat, j: nat)
    requires i < j
    ensures BlockAddress(base, step, i + 1) == BlockAddress(base, step, i) + step <= BlockAddress(base, step, j)
  {
    Distributes(step, i, 1);
    Mul(step, i + 1, j);
  }

  /** The link word the constructors store for block i of `capacity`, which is at address a. */
  function InitialLink(s: seq<int>, i: int, capacity: nat, step: nat): int
    requires 0 <= i < |s| && 0 < s[i] && 0 < step && s[i] + step < HALF
    requires i > 0 ==> 0 < s[i - 1] < HALF
  {
    Pack(Prev(s, i), if i != 0 && i == capacity - 1 then 0 else s[i] + step)
  }

  ghost predicate Ascending(s: seq<int>, base: nat, step: nat, next: int) {
    && (if s == [] then next == base else s[0] == base && s[|s| - 1] + step == next)
    && (forall k :: 0 <= k < |s| ==> base <= s[k] && s[k] + step <= next)
    && (forall j, k :: 0 <= j < k < |s| ==> s[j] < s[k])
    && (forall k :: 0 <= k < |s| - 1 ==> s[k + 1] == s[k] + step)
  }

  /** The blocks s are chained up; the next one is at address `next`. */
  ghost predicate Chained(w: seq<int>, s: seq<int>, base: nat, step: nat, capacity: nat, next: int) {
    && 0 < base && 0 < step && |w| < HALF && next <= |w|
    && Ascending(s, base, step, next)
    && (forall k {:trigger w[s[k]]} :: 0 <= k < |s| ==> w[s[k]] == InitialLink(s, k, capacity, step))
  }

  lemma ChainStart(w: seq<int>, base: nat, step: nat, capacity: nat)
    requires 0 < base && BlockAddress(base, step, 0) <= |w| < HALF && 0 < step
    ensures Chained(w, [], base, step, capacity, BlockAddress(base, step, 0)) && BlockAddress(base, step, 0) == base
  {}

  /** The address before the next one is that of the last block. */
  lemma ChainEnd(w: seq<int>, s: seq<int>, base: nat, step: nat, capacity: nat, next: int)
    requires Chained(w, s, base, step, capacity, next)
    ensures s == [] ==> next == base
    ensures s != [] ==> s[|s| - 1] == next - step && base <= next - step
    ensures base <= next
  {}

  lemma ChainLink(w: seq<int>, w': seq<int>, s: seq<int>, base: nat, step: nat, capacity: nat, next: int, k: int)
    requires Chained(w, s, base, step, capacity, next) && base <= next && next + step <= |w|
    requires w' == w[next := InitialLink(s + [next], |s|, capacity, step)]
    requires 0 <= k <= |s|
    ensures w'[(s + [next])[k]] == InitialLink(s + [next], k, capacity, step)
  {
    hide Pack;
    if k < |s| {
      assert w[s[k]] == InitialLink(s, k, capacity, step);
    }
  }

  lemma ChainStep(w: seq<int>, w': seq<int>, s: seq<int>, base: nat, step: nat, capacity: nat, next: int)
    requires Chained(w, s, base, step, capacity, next) && base <= next && next + step <= |w|
    requires w' == w[next := InitialLink(s + [next], |s|, capacity, step)]
    ensures Chained(w', s + [next], base, step, capacity, next + step)
  {
    hide InitialLink;
    var t := s + [next];
    assert forall k :: 0 <= k < |t| ==> 0 < t[k] < |w|;
    forall k | 0 <= k < |t| ensures w'[t[k]] == InitialLink(t, k, capacity, step) {
      ChainLink(w, w', s, base, step, capacity, next, k);
    }
  }

  /** The loop of both constructors that chains the blocks up. */
  method ChainBlocks(d: array<int>, base: nat, step: nat, capacity: nat) returns (ghost s: seq<int>)
    requires 1 <= base && 1 <= step && 1 <= capacity && d.Length == BlockAddress(base, step, capacity) < HALF
    modifies d
    ensures d[..base] == old(d[..base])
    ensures |s| == capacity && Chained(d[..], s, base, step, capacity, d.Length)
  {
    hide Chained, BlockAddress, Pack;
    s := [];
    var blockAddr := base;
    BlockOrder(base, step, 0, capacity);
    ChainStart(d[..], base, step, capacity);
    for i := 0 to capacity
      invariant |s| == i && d[..base] == old(d[..base])
      invariant i < capacity ==> blockAddr == BlockAddress(base, step, i)
      invariant Chained(d[..], s, base, step, capacity, BlockAddress(base, step, i))
    {
      BlockOrder(base, step, i, capacity);
      ChainEnd(d[..], s, base, step, capacity, blockAddr);
      var prevAddr := blockAddr - step;
      var nextAddr := blockAddr + step;
      if i == 0 {
        prevAddr := 0;
      } else if i == capacity - 1 {
        nextAddr := 0;
      }
      ghost var w := d[..];
      d[blockAddr] := Pack(prevAddr, nextAddr);
      ChainStep(w, d[..], s, base, step, capacity, blockAddr);
      s := s + [blockAddr];
      blockAddr := nextAddr;
    }
  }

  function NoBlocks(n: nat): (lists: seq<seq<int>>)
    ensures |lists| == n && forall k :: 0 <= k < n ==> lists[k] == []
  {
    seq(n, _ => [])
  }

  lemma EmptyList(w: seq<int>, meta: nat)
    requires meta < |w| && w[meta] == 0
    ensures IsList(w, meta, [])
  {}

  /** A free list of all blocks in front of n empty lists. */
  lemma InitialStore(w: seq<int>, base: nat, s: seq<int>, n: nat)
    requires 0 < base && base + n < |w| && IsList(w, base, s)
    requires forall x :: base < x <= base + n ==> w[x] == 0
    requires forall k :: 0 <= k < |s| ==> base + n < s[k]
    ensures Stored(w, base, [s] + NoBlocks(n), Elements(s))
  {
    hide IsList;
    var lists := [s] + NoBlocks(n);
    assert Addresses(|w|, base, s) by { ReadableList(w, base, s); }
    forall k | 0 <= k <= n ensures IsList(w, base + k, lists[k]) {
      if k > 0 {
        EmptyList(w, base + k);
      }
    }
    forall a | a in Elements(s) ensures exists k :: 0 <= k <= n && a in lists[k] {
      assert a in lists[0];
    }
  }

  /** What both constructors have written: a store that can be read exactly when there are two blocks and
      the address of the last but one survives packing. */
  lemma ChainedStore(w: seq<int>, base: nat, s: seq<int>, first: nat, step: nat, n: nat)
    requires Chained(w, s, first, step, |s|, |w|) && s != []
    requires 0 < step <= |w| && 0 < base && base + n < first && w[base] == Pack(first, |w| - step)
    requires forall x :: base < x <= base + n ==> w[x] == 0
    ensures |Elements(s)| == |s| && forall a :: a in Elements(s) ==> base + n < a <= |w| - step
    ensures 2 <= |s| && |w| - 2 * step <= MAX_ADDR ==> Stored(w, base, [s] + NoBlocks(n), Elements(s))
    ensures 2 <= |s| && |w| - step <= MAX_ADDR ==> Store(w, base, [s] + NoBlocks(n), Elements(s))
    ensures 2 <= |s| && |w| - 2 * step <= MAX_ADDR <==> exists t :: IsList(w, base, t)
    ensures LowBlocks(Elements(s)) <==> |w| - step <= MAX_ADDR
  {
    hide Pack;
    DistinctCount(s);
    assert InitialWords(w, base, s, step);
    InitialList(w, base, s, step);
    assert Last(s) == |w| - step && Last(s) in s;
    if 2 <= |s| && |w| - 2 * step <= MAX_ADDR {
      InitialStore(w, base, s, n);
    }
  }
}
