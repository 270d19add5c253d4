/** The address arithmetic of src/lib/cmo.cpp: one shadow memory of 2048 rows of 64 cache lines, striped
    by cache set among the four kinds of objects. */
module ShadowLayouts {
  import opened Arithmetic

  const SHADOW_SIZE: nat := 2 * 1024 * 1024
  const LLC_SIZE: nat := 1048576
  const MAX_OBJECTS: nat := 6

  datatype Kind = ReadOb | WriteOb | Nob | ReadNob

  /** How many cache sets each kind of object gets. */
  datatype Alloc = Alloc(meta: nat, obR: nat, obW: nat, nobR: nat, nobW: nat)

  function CalOb(offset: nat, a: Alloc): int
    requires a.obR > 0
  {
    (offset / (a.obR * 16)) * 1024 + offset % (a.obR * 16) + a.meta * 16
  }

  function CalObRw(offset: nat, a: Alloc): int
    requires a.obW > 0
  {
    (offset / (a.obW * 16)) * 1024 + offset % (a.obW * 16) + (a.meta + a.obR) * 16
  }

  function CalNob(offset: nat, a: Alloc): int
    requires a.nobW > 0
  {
    (offset / (a.nobW * 16)) * 1024 + offset % (a.nobW * 16) + (a.meta + a.obR + a.obW) * 16
  }

  function CalReadNob(offset: nat, a: Alloc): int
    requires a.nobR > 0
  {
    (offset / (a.nobR * 16)) * 1024 + offset % (a.nobR * 16) + (a.meta + a.obR + a.obW + a.nobW) * 16
  }

  function Sets(kind: Kind, a: Alloc): nat {
    match kind
    case ReadOb => a.obR
    case WriteOb => a.obW
    case Nob => a.nobW
    case ReadNob => a.nobR
  }

  /** Where offset `offset` of a kind of object lives. */
  function Address(kind: Kind, offset: nat, a: Alloc): int
    requires Sets(kind, a) > 0
  {
    match kind
    case ReadOb => CalOb(offset, a)
    case WriteOb => CalObRw(offset, a)
    case Nob => CalNob(offset, a)
    case ReadNob => CalReadNob(offset, a)
  }

  // ----- the stripes -----

  /** First cache set of a kind of object. */
  function FirstSet(kind: Kind, a: Alloc): nat {
    match kind
    case ReadOb => a.meta
    case WriteOb => a.meta + a.obR
    case Nob => a.meta + a.obR + a.obW
    case ReadNob => a.meta + a.obR + a.obW + a.nobW
  }

  /** One set is kept for the headers, and all sets fit in the L1 cache. */
  predicate Packed(a: Alloc) {
    a.meta == 1 && a.meta + a.obR + a.obW + a.nobW + a.nobR <= 64
  }

  function CacheSet(address: int): int { address % 1024 / 16 }

  function Row(address: int): int { address / 1024 }

  lemma StripeBounds(kind: Kind, a: Alloc)
    requires Packed(a)
    ensures 1 <= FirstSet(kind, a) && FirstSet(kind, a) + Sets(kind, a) <= 64
    ensures forall k: Kind :: k != kind ==>
      FirstSet(k, a) + Sets(k, a) <= FirstSet(kind, a) || FirstSet(kind, a) + Sets(kind, a) <= FirstSet(k, a)
  {}

  /** Row and column of an address. */
  lemma RowAndColumn(kind: Kind, offset: nat, a: Alloc)
    requires Packed(a) && Sets(kind, a) > 0
    ensures var w := Sets(kind, a) * 16;
      && 0 <= Address(kind, offset, a) && Row(Address(kind, offset, a)) == offset / w
      && Address(kind, offset, a) % 1024 == FirstSet(kind, a) * 16 + offset % w
  {
    StripeBounds(kind, a);
    var w := Sets(kind, a) * 16;
    var row, column := offset / w, FirstSet(kind, a) * 16 + offset % w;
    DivMod(offset, w);
    assert Address(kind, offset, a) == row * 1024 + column;
  }

  /** The column tells the stripe: an address lies in the sets of its kind. */
  lemma InStripe(kind: Kind, offset: nat, a: Alloc)
    requires Packed(a) && Sets(kind, a) > 0
    ensures FirstSet(kind, a) <= CacheSet(Address(kind, offset, a)) < FirstSet(kind, a) + Sets(kind, a)
  {
    hide Address;
    RowAndColumn(kind, offset, a);
    DivMod(offset, Sets(kind, a) * 16);
  }

  /** Different offsets, and different kinds, have different addresses. */
  lemma AddressesDiffer(k1: Kind, o1: nat, k2: Kind, o2: nat, a: Alloc)
    requires Packed(a) && Sets(k1, a) > 0 && Sets(k2, a) > 0
    ensures Address(k1, o1, a) == Address(k2, o2, a) <==> k1 == k2 && o1 == o2
  {
    hide Address, FirstSet, Sets, Packed, Row;
    if Address(k1, o1, a) == Address(k2, o2, a) {
      InStripe(k1, o1, a);
      InStripe(k2, o2, a);
      StripeBounds(k1, a);
      assert k1 == k2;
      RowAndColumn(k1, o1, a);
      RowAndColumn(k2, o2, a);
      DivMod(o1, Sets(k1, a) * 16);
      DivMod(o2, Sets(k1, a) * 16);
    }
  }

  /** No address is that of an object header (set 0 of rows 0 to 5) or of the allocation record (set 0 of row 6). */
  lemma HeadersUntouched(kind: Kind, offset: nat, a: Alloc, row: nat, column: nat)
    requires Packed(a) && Sets(kind, a) > 0 && column < 16
    ensures Address(kind, offset, a) != row * 1024 + column
  {
    hide Address, FirstSet, Sets, Packed;
    InStripe(kind, offset, a);
    StripeBounds(kind, a);
    Remainder(row * 1024 + column, 1024, row);
  }

  // ----- the allocation -----

  /** Summed lengths of the objects of each kind. */
  datatype Lengths = Lengths(nob: nat, readNob: nat, readOb: nat, writeOb: nat)

  function NobSets(l: Lengths): nat { l.nob / 80 + 1 }

  function ReadNobSets(l: Lengths): nat { l.readNob / (1024 * 24) + 1 }

  /** `begin_leaky_sec` does not abort. */
  predicate Accepted(l: Lengths) {
    && l.nob <= LLC_SIZE && NobSets(l) <= 63
    && l.readNob <= LLC_SIZE - l.nob && ReadNobSets(l) <= 63 - NobSets(l)
  }

  /** The sets left for the iterators. */
  function AvailableSets(l: Lengths): nat
    requires Accepted(l)
  {
    63 - NobSets(l) - ReadNobSets(l)
  }

  function AllocOf(l: Lengths): Alloc
    requires Accepted(l)
  {
    var sum := l.writeOb + l.readOb;
    if sum == 0 then Alloc(1, 0, 0, ReadNobSets(l), NobSets(l))
    else
      ShareOfSets(AvailableSets(l), l.writeOb, l.readOb);
      var obW := AvailableSets(l) * l.writeOb / sum;
      Alloc(1, AvailableSets(l) - obW, obW, ReadNobSets(l), NobSets(l))
  }

  /** A rounded-down share of the sets. */
  lemma ShareArithmetic(sets: nat, w: nat, r: nat, sum: nat, q: nat)
    requires sum == w + r && sum > 0 && q * sum <= sets * w < q * sum + sum
    ensures q <= sets && (q >= 1 <==> sets * w >= sum) && (q < sets <==> sets > 0 && r > 0)
  {
    Distributes(sets, w, r);
    Distributes(sum, sets, 1);
    Distributes(sum, q, 1);
    Mul(sum, sets + 1, q);
    Mul(sum, q + 1, sets);
    Mul(sum, sets, q);
    Mul(sum, 1, q);
    Mul(r, 1, sets);
    Mul(sets, 1, r);
  }

  lemma ShareOfSets(sets: nat, writeOb: nat, readOb: nat)
    requires writeOb + readOb > 0
    ensures var obW := sets * writeOb / (writeOb + readOb);
      && 0 <= obW <= sets
      && (obW >= 1 <==> sets * writeOb >= writeOb + readOb)
      && (obW < sets <==> sets > 0 && readOb > 0)
  {
    DivMod(sets * writeOb, writeOb + readOb);
    ShareArithmetic(sets, writeOb, readOb, writeOb + readOb, sets * writeOb / (writeOb + readOb));
  }

  /** The offsets in use: nob arrays and read-only nob arrays are numbered through; the iterators of a
      kind share 80 words for every set. */
  function OffsetLimit(kind: Kind, l: Lengths): nat
    requires Accepted(l)
  {
    match kind
    case ReadOb => AllocOf(l).obR * 80
    case WriteOb => AllocOf(l).obW * 80
    case Nob => l.nob
    case ReadNob => l.nob + l.readNob
  }

  lemma AllocPacked(l: Lengths)
    requires Accepted(l)
    ensures Packed(AllocOf(l)) && AllocOf(l).nobW > 0 && AllocOf(l).nobR > 0
  {}

  /** When the allocation is accepted: 80 words for a set of the nob arrays, 24 K words for one of the read-only nob arrays,
      one more set for each, and one for the headers. */
  lemma AcceptedIff(l: Lengths)
    ensures Accepted(l) <==> l.nob < 5040 && l.nob + l.readNob <= 0x10_0000 && l.nob / 80 + l.readNob / 0x6000 <= 61
  {}

  /** The shares: the writers get theirs of what is left, by words and rounded down, the readers the rest. */
  lemma AllocationIs(l: Lengths)
    requires Accepted(l)
    ensures var a, left := AllocOf(l), 61 - l.nob / 80 - l.readNob / 0x6000;
      && a.meta == 1 && a.nobW == l.nob / 80 + 1 && a.nobR == l.readNob / 0x6000 + 1
      && (l.writeOb + l.readOb == 0 ==> a.obW == a.obR == 0)
      && (l.writeOb + l.readOb > 0 ==>
            && a.obW + a.obR == left
            && a.obW * (l.writeOb + l.readOb) <= left * l.writeOb < a.obW * (l.writeOb + l.readOb) + (l.writeOb + l.readOb))
  {
    if l.writeOb + l.readOb > 0 {
      RoundedShare(AvailableSets(l), l.writeOb, l.writeOb + l.readOb);
    }
  }

  lemma RoundedShare(sets: nat, words: nat, sum: nat)
    requires 0 < sum
    ensures var q := sets * words / sum; q * sum <= sets * words < q * sum + sum
  {
    DivMod(sets * words, sum);
  }

  lemma RowLimit(offset: nat, sets: nat, rows: nat)
    requires sets > 0 && offset < sets * 16 * rows
    ensures offset / (sets * 16) < rows
  {
    DivMod(offset, sets * 16);
    Mul(sets * 16, rows, offset / (sets * 16));
  }

  /** Everything in use lies in the shadow memory, and what can be written takes at most five lines of
      any cache set; the L1 cache has eight ways. */
  lemma InShadow(kind: Kind, offset: nat, l: Lengths)
    requires Accepted(l) && offset < OffsetLimit(kind, l)
    ensures Sets(kind, AllocOf(l)) > 0 && Address(kind, offset, AllocOf(l)) < SHADOW_SIZE
    ensures kind != ReadNob ==> Row(Address(kind, offset, AllocOf(l))) < 5
  {
    hide Address, AllocOf;
    AllocPacked(l);
    AllocSets(l);
    var a := AllocOf(l);
    RowAndColumn(kind, offset, a);
    if kind == ReadNob {
      assert offset < a.nobR * 16 * 2048;
      RowLimit(offset, a.nobR, 2048);
    } else {
      RowLimit(offset, Sets(kind, a), 5);
    }
  }

  lemma AllocSets(l: Lengths)
    requires Accepted(l)
    ensures AllocOf(l).nobW == NobSets(l) && AllocOf(l).nobR == ReadNobSets(l)
  {}

  /** An iterator that has anything to do needs a window of at least one word. */
  predicate WindowsOpen(l: Lengths)
    requires Accepted(l)
  {
    && (l.readOb > 0 ==> AllocOf(l).obR > 0)
    && (l.writeOb > 0 ==> AllocOf(l).obW > 0)
  }

  /** The allocation rounds the writers' share down and leaves the rest to the readers.  The writers get a
      set exactly when the sets that are left, times their words, are no less than all words; the
      readers get one as soon as any set is left. */
  lemma WindowsOpenIff(l: Lengths)
    requires Accepted(l)
    ensures WindowsOpen(l) <==>
      && (l.readOb > 0 ==> AvailableSets(l) > 0)
      && (l.writeOb > 0 ==> AvailableSets(l) * l.writeOb >= l.writeOb + l.readOb)
  {
    if l.writeOb + l.readOb > 0 {
      ShareOfSets(AvailableSets(l), l.writeOb, l.readOb);
    }
  }

  /** A section can be used: `begin_leaky_sec` does not abort, and no iterator that has words is without
      a window.  The first access through an iterator without one divides by its number of sets, 0. */
  predicate Opens(l: Lengths) {
    Accepted(l) && WindowsOpen(l)
  }

  /** Without read-only nob arrays this bounds the words of the nob arrays, by 80 for every set that is left. */
  lemma OpensIff(nob: nat, readOb: nat, writeOb: nat)
    ensures Opens(Lengths(nob, 0, readOb, writeOb)) <==>
      && nob < 4960
      && (readOb > 0 ==> nob < 4880)
      && (writeOb > 0 ==> (61 - nob / 80) * writeOb >= writeOb + readOb)
  {
    var l := Lengths(nob, 0, readOb, writeOb);
    if Accepted(l) {
      WindowsOpenIff(l);
    }
  }

  /** A section that only reads, or only writes, through iterators. */
  lemma OpensOneWay(nob: nat, n: nat)
    requires n > 0
    ensures Opens(Lengths(nob, 0, n, 0)) <==> nob < 4880
    ensures Opens(Lengths(nob, 0, 0, n)) <==> nob < 4880
  {
    hide Opens;
    OpensIff(nob, n, 0);
    OpensIff(nob, 0, n);
    Mul(n, 1, 61 - nob / 80);
    Mul(n, 61 - nob / 80, 0);
  }

  /** A section that reads and writes as many words. */
  lemma OpensBothWays(nob: nat, n: nat)
    requires n > 0
    ensures Opens(Lengths(nob, 0, n, n)) <==> nob < 4800
  {
    hide Opens;
    OpensIff(nob, n, n);
    Mul(n, 2, 61 - nob / 80);
    Mul(n, 61 - nob / 80, 1);
  }

  /** A long input next to a short output, both without any nob array: no set for the output. */
  lemma NoWindowExample()
    ensures var l := Lengths(0, 0, 1000, 10); Accepted(l) && !WindowsOpen(l)
  {}

  /** The window of each of n iterators that share the given sets. */
  function Window(sets: nat, n: nat): nat
    requires n > 0
  {
    sets * 80 / n
  }

  lemma WindowBounds(sets: nat, n: nat)
    requires 0 < n <= MAX_OBJECTS
    ensures n * Window(sets, n) <= sets * 80 < n * Window(sets, n) + n
    ensures Window(sets, n) > 0 <==> sets > 0
  {
    DivMod(sets * 80, n);
  }
}
