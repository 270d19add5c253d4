/** src/algo/sorting_net.cpp: the network run in place, rows of four values moving with the keys. */
module SortingNet {
  import opened SortingNetwork

  const VALUE_SIZE: nat := 4

  /** A key with the row of values that belongs to it. */
  datatype Row = Row(key: int, value: seq<int>)

  function Rows(keys: seq<int>, values: seq<int>): (rows: seq<Row>)
    requires |values| == VALUE_SIZE * |keys|
    ensures |rows| == |keys| && |values| == 4 * |keys|
    ensures forall i :: 0 <= i < |rows| ==>
      rows[i] == Row(keys[i], [values[4 * i], values[4 * i + 1], values[4 * i + 2], values[4 * i + 3]])
  {
    seq(|keys|, i requires 0 <= i < |keys| => Row(keys[i], values[VALUE_SIZE * i..VALUE_SIZE * i + VALUE_SIZE]))
  }

  function Keys(rows: seq<Row>): (keys: seq<int>)
    ensures |keys| == |rows|
  {
    seq(|rows|, i requires 0 <= i < |rows| => rows[i].key)
  }

  function ExchangeRows(s: seq<Row>, c: Comparator): (r: seq<Row>)
    ensures |r| == |s|
  {
    if c.lo < |s| && c.hi < |s| && s[c.lo].key > s[c.hi].key then s[c.lo := s[c.hi]][c.hi := s[c.lo]] else s
  }

  function RunRows(net: Network, s: seq<Row>): (r: seq<Row>)
    ensures |r| == |s|
  {
    if net == [] then s else ExchangeRows(RunRows(net[..|net| - 1], s), net[|net| - 1])
  }

  lemma {:induction false} RunRowsConcat(a: Network, b: Network, s: seq<Row>)
    ensures RunRows(a + b, s) == RunRows(b, RunRows(a, s))
    decreases |b|
  {
    if b == [] {
      assert a + b == a;
    } else {
      var b' := b[..|b| - 1];
      RunRowsConcat(a, b', s);
      assert (a + b)[..|a + b| - 1] == a + b';
    }
  }

  lemma RunRowsAppend(net: Network, c: Comparator, s: seq<Row>)
    ensures RunRows(net + [c], s) == ExchangeRows(RunRows(net, s), c)
  {
    assert (net + [c])[..|net|] == net;
  }

  /** The rows never influence which keys end where. */
  lemma {:induction false} KeysOfRun(net: Network, s: seq<Row>)
    ensures Keys(RunRows(net, s)) == Run(net, Keys(s))
  {
    if net != [] {
      KeysOfRun(net[..|net| - 1], s);
    }
  }

  /** No row is lost, duplicated or separated from its key. */
  lemma {:induction false} RunRowsPermutes(net: Network, s: seq<Row>)
    ensures multiset(RunRows(net, s)) == multiset(s)
  {
    if net != [] {
      RunRowsPermutes(net[..|net| - 1], s);
    }
  }

  lemma {:induction false} RunRowsConfined(net: Network, s: seq<Row>, lo: nat, hi: nat)
    requires Within(net, lo, hi) && hi <= |s|
    ensures forall i :: 0 <= i < |s| && !(lo <= i < hi) ==> RunRows(net, s)[i] == s[i]
  {
    if net != [] {
      RunRowsConfined(net[..|net| - 1], s, lo, hi);
      assert net[|net| - 1] in net;
    }
  }

  /** Two sequences that agree outside a segment and hold the same rows hold the same rows in it. */
  lemma SegmentMultiset<T>(s: seq<T>, r: seq<T>, lo: nat, hi: nat)
    requires lo <= hi <= |s| == |r| && multiset(s) == multiset(r)
    requires forall i :: 0 <= i < |s| && !(lo <= i < hi) ==> r[i] == s[i]
    ensures multiset(r[lo..hi]) == multiset(s[lo..hi])
  {
    assert s == s[..lo] + s[lo..hi] + s[hi..];
    assert r == s[..lo] + r[lo..hi] + s[hi..];
    assert multiset(s) == multiset(s[..lo]) + multiset(s[lo..hi]) + multiset(s[hi..]);
    assert multiset(r) == multiset(s[..lo]) + multiset(r[lo..hi]) + multiset(s[hi..]);
    assert multiset(r[lo..hi]) == multiset(r) - multiset(s[..lo]) - multiset(s[hi..]);
    assert multiset(s[lo..hi]) == multiset(s) - multiset(s[..lo]) - multiset(s[hi..]);
  }

  /** What `merger` promises of the rows: keys ascending in the block, the same rows in the block,
      everything else in place. */
  ghost predicate BlockSorted(before: seq<Row>, after: seq<Row>, lo: nat, hi: nat)
    requires hi <= |before| == |after| && lo <= hi
  {
    && SortedSegment(Keys(after), lo, hi)
    && multiset(after[lo..hi]) == multiset(before[lo..hi])
    && forall i :: 0 <= i < |before| && !(lo <= i < hi) ==> after[i] == before[i]
  }

  /** Any network confined to a block that sorts its keys sorts the block. */
  lemma SortsRows(net: Network, s: seq<Row>, lo: nat, hi: nat)
    requires Within(net, lo, hi) && lo <= hi <= |s|
    requires SortedSegment(Run(net, Keys(s)), lo, hi)
    ensures BlockSorted(s, RunRows(net, s), lo, hi)
  {
    hide Run, RunRows, Within;
    KeysOfRun(net, s);
    RunRowsPermutes(net, s);
    RunRowsConfined(net, s, lo, hi);
    SegmentMultiset(s, RunRows(net, s), lo, hi);
  }

  lemma MergerSortsRows(s: seq<Row>, n: nat, lo: nat)
    requires 2 <= n && IsPowerOfTwo(n) && lo + n <= |s|
    ensures BlockSorted(s, RunRows(MergerNet(n, lo), s), lo, lo + n)
  {
    hide Run, RunRows, MergerNet, BlockSorted, Within, SortedSegment;
    MergerSorts(Keys(s), n, lo);
    MergerNetWithin(n, lo);
    SortsRows(MergerNet(n, lo), s, lo, lo + n);
  }

  lemma BitonicSortsRows(s: seq<Row>, n: nat, lo: nat, d: nat, p: nat)
    requires 2 <= n && IsPowerOfTwo(n) && lo + n <= |s|
    requires CyclicallyBitonic(Keys(s), lo, n, d, p)
    ensures BlockSorted(s, RunRows(BitonicNet(n, lo), s), lo, lo + n)
  {
    hide Run, RunRows, BitonicNet, BlockSorted, Within, SortedSegment, CyclicallyBitonic;
    BitonicSorts(Keys(s), n, lo, d, p);
    BitonicNetWithin(n, lo);
    SortsRows(BitonicNet(n, lo), s, lo, lo + n);
  }

  // ----- what happens to the words of the two arrays -----

  /** pi is a permutation of all places that moves none outside [lo, hi). */
  ghost predicate Rearrangement(pi: seq<nat>, lo: nat, hi: nat) {
    && (forall i :: 0 <= i < |pi| ==> if lo <= i < hi then lo <= pi[i] < hi else pi[i] == i)
    && (forall i, j :: 0 <= i < j < |pi| ==> pi[i] != pi[j])
  }

  /** The four words of row i in v1 are those of row j in v0. */
  predicate SameWords(v1: seq<int>, i: nat, v0: seq<int>, j: nat)
    requires 4 * i + 4 <= |v1| && 4 * j + 4 <= |v0|
  {
    && v1[4 * i] == v0[4 * j] && v1[4 * i + 1] == v0[4 * j + 1]
    && v1[4 * i + 2] == v0[4 * j + 2] && v1[4 * i + 3] == v0[4 * j + 3]
  }

  /** Place i holds the key and the four words that were at place pi[i]. */
  ghost predicate Carried(k0: seq<int>, v0: seq<int>, k1: seq<int>, v1: seq<int>, pi: seq<nat>) {
    && |pi| == |k0| == |k1| && |v0| == |v1| == 4 * |k0|
    && forall i :: 0 <= i < |pi| ==> pi[i] < |k0| && k1[i] == k0[pi[i]] && SameWords(v1, i, v0, pi[i])
  }

  /** In the block every key has its words with it; nothing else has moved. */
  ghost predicate Rearranged(k0: seq<int>, v0: seq<int>, k1: seq<int>, v1: seq<int>, lo: nat, hi: nat) {
    exists pi :: Rearrangement(pi, lo, hi) && Carried(k0, v0, k1, v1, pi)
  }

  /** Where the rows come from. */
  lemma {:induction false} OriginsOf(net: Network, s: seq<Row>, lo: nat, hi: nat) returns (pi: seq<nat>)
    requires Within(net, lo, hi) && lo <= hi <= |s|
    ensures |pi| == |s| && Rearrangement(pi, lo, hi)
    ensures forall i :: 0 <= i < |s| ==> pi[i] < |s| && RunRows(net, s)[i] == s[pi[i]]
  {
    if net == [] {
      pi := seq(|s|, i => i);
    } else {
      var c := net[|net| - 1];
      assert c in net;
      pi := OriginsOf(net[..|net| - 1], s, lo, hi);
      var r := RunRows(net[..|net| - 1], s);
      if r[c.lo].key > r[c.hi].key {
        pi := pi[c.lo := pi[c.hi]][c.hi := pi[c.lo]];
      }
    }
  }

  /** A network run on the rows of two arrays moves each key with its four words. */
  lemma NetworkCarries(net: Network, k0: seq<int>, v0: seq<int>, k1: seq<int>, v1: seq<int>, lo: nat, hi: nat)
    requires |v0| == VALUE_SIZE * |k0| && |v1| == VALUE_SIZE * |k1| && Within(net, lo, hi) && lo <= hi <= |k0|
    requires Rows(k1, v1) == RunRows(net, Rows(k0, v0))
    ensures Rearranged(k0, v0, k1, v1, lo, hi)
  {
    hide Rows, RunRows, Within, Rearrangement;
    var pi := OriginsOf(net, Rows(k0, v0), lo, hi);
    forall i | 0 <= i < |pi| ensures k1[i] == k0[pi[i]] && SameWords(v1, i, v0, pi[i]) {
      assert Rows(k1, v1)[i] == Rows(k0, v0)[pi[i]];
    }
  }

  lemma SegmentOfKeys(keys: seq<int>, values: seq<int>, before: seq<Row>, lo: nat, hi: nat)
    requires |values| == VALUE_SIZE * |keys| && lo <= hi <= |before| == |keys| && BlockSorted(before, Rows(keys, values), lo, hi)
    ensures forall i, j :: lo <= i <= j < hi ==> keys[i] <= keys[j]
  {
    assert Keys(Rows(keys, values)) == keys;
  }

  /** What `merger` does to the two arrays. */
  lemma MergerDone(k0: seq<int>, v0: seq<int>, k1: seq<int>, v1: seq<int>, n: nat, lo: nat)
    requires |v0| == VALUE_SIZE * |k0| && |v1| == VALUE_SIZE * |k1| && Terminates(n) && lo + n <= |k0|
    requires Rows(k1, v1) == RunRows(MergerNet(n, lo), Rows(k0, v0))
    ensures Rearranged(k0, v0, k1, v1, lo, lo + n) && |k1| == |k0|
    ensures IsPowerOfTwo(n) ==> forall i, j :: lo <= i <= j < lo + n ==> k1[i] <= k1[j]
  {
    hide Rows, RunRows, MergerNet, Rearranged, Within, BlockSorted;
    MergerNetWithin(n, lo);
    NetworkCarries(MergerNet(n, lo), k0, v0, k1, v1, lo, lo + n);
    if IsPowerOfTwo(n) {
      MergerSortsRows(Rows(k0, v0), n, lo);
      SegmentOfKeys(k1, v1, Rows(k0, v0), lo, lo + n);
    }
  }

  lemma BitonicDone(k0: seq<int>, v0: seq<int>, k1: seq<int>, v1: seq<int>, n: nat, lo: nat)
    requires |v0| == VALUE_SIZE * |k0| && |v1| == VALUE_SIZE * |k1| && Terminates(n) && lo + n <= |k0|
    requires Rows(k1, v1) == RunRows(BitonicNet(n, lo), Rows(k0, v0))
    ensures Rearranged(k0, v0, k1, v1, lo, lo + n)
  {
    hide Rows, RunRows, BitonicNet, Rearranged, Within;
    BitonicNetWithin(n, lo);
    NetworkCarries(BitonicNet(n, lo), k0, v0, k1, v1, lo, lo + n);
  }

  lemma RunRowsEmpty(s: seq<Row>)
    ensures RunRows([], s) == s
  {}

  /** The four words of row i and those of row j are exchanged, and no other word changes. */
  ghost predicate WordsSwapped(v0: seq<int>, v1: seq<int>, i: nat, j: nat) {
    && i < j && 4 * j + 4 <= |v0| == |v1|
    && SameWords(v1, i, v0, j) && SameWords(v1, j, v0, i)
    && forall x :: 0 <= x < |v0| && !(4 * i <= x < 4 * i + 4 || 4 * j <= x < 4 * j + 4) ==> v1[x] == v0[x]
  }

  /** Swapping two keys and their two blocks of four words swaps two rows. */
  lemma SwapRows(k0: seq<int>, k1: seq<int>, v0: seq<int>, v1: seq<int>, i: nat, j: nat)
    requires |k1| == |k0| && |v0| == VALUE_SIZE * |k0| && i < j < |k0|
    requires k1 == k0[i := k0[j]][j := k0[i]] && WordsSwapped(v0, v1, i, j)
    ensures |v1| == VALUE_SIZE * |k1| && Rows(k1, v1) == Rows(k0, v0)[i := Rows(k0, v0)[j]][j := Rows(k0, v0)[i]]
  {
    hide Rows;
    var r0, r1 := Rows(k0, v0), Rows(k1, v1);
    forall x: nat | x < |k0| && x != i && x != j ensures r1[x] == r0[x] {
      assert v1[4 * x] == v0[4 * x] && v1[4 * x + 1] == v0[4 * x + 1];
      assert v1[4 * x + 2] == v0[4 * x + 2] && v1[4 * x + 3] == v0[4 * x + 3];
    }
  }

  /** The global state of the file: the comparison counter. */
  class Sorter {
    var gCount: int
    ghost var trace: Network  // the comparisons made so far

    constructor ()
      ensures gCount == 0 && trace == []
    {
      gCount := 0;
      trace := [];
    }

    /** Exchanges two keys and the four words of each, if the first key is larger. */
    method CasV2m(keys: array<int>, values: array<int>, i: nat, j: nat)
      requires i < j < keys.Length && values.Length == 4 * keys.Length && keys != values
      modifies this, keys, values
      ensures old(keys[i] > keys[j]) ==>
        keys[..] == old(keys[..][i := keys[j]][j := keys[i]]) && WordsSwapped(old(values[..]), values[..], i, j)
      ensures old(keys[i] <= keys[j]) ==> keys[..] == old(keys[..]) && values[..] == old(values[..])
      ensures Rows(keys[..], values[..]) == ExchangeRows(old(Rows(keys[..], values[..])), Comparator(i, j))
      ensures gCount == old(gCount) + 1 && trace == old(trace) + [Comparator(i, j)]
    {
      hide Rows;
      if keys[i] > keys[j] {
        var tmp := keys[i];
        keys[i] := keys[j];
        keys[j] := tmp;
        SwapValues(values, i, j);
        SwapRows(old(keys[..]), keys[..], old(values[..]), values[..], i, j);
      }
      gCount := gCount + 1;
      trace := trace + [Comparator(i, j)];
    }

    /** The three `memcpy` of VALUE_SIZE words each */
    method SwapValues(values: array<int>, i: nat, j: nat)
      requires i < j && 4 * j + 4 <= values.Length
      modifies values
      ensures WordsSwapped(old(values[..]), values[..], i, j)
    {
      var p, q := VALUE_SIZE * i, VALUE_SIZE * j;
      var tmpV := values[p..p + VALUE_SIZE];
      forall k | 0 <= k < VALUE_SIZE { values[p + k] := values[q + k]; }
      forall k | 0 <= k < VALUE_SIZE { values[q + k] := tmpV[k]; }
      assert values[p + 0] == old(values[q + 0]) && values[p + 1] == old(values[q + 1]);
      assert values[p + 2] == old(values[q + 2]) && values[p + 3] == old(values[q + 3]);
      assert values[q + 0] == tmpV[0] && values[q + 1] == tmpV[1] && values[q + 2] == tmpV[2] && values[q + 3] == tmpV[3];
    }

    /** The loop of `bitonicSort` */
    method CleanHalf(m: nat, start: nat, keys: array<int>, values: array<int>)
      requires start + 2 * m <= keys.Length && values.Length == VALUE_SIZE * keys.Length && keys != values
      modifies this, keys, values
      ensures trace == old(trace) + HalfCleaner(m, start, m) && gCount == old(gCount) + m
      ensures Rows(keys[..], values[..]) == RunRows(HalfCleaner(m, start, m), old(Rows(keys[..], values[..])))
    {
      hide RunRows, Rows;
      ghost var s := Rows(keys[..], values[..]);
      RunRowsEmpty(s);
      for i := 0 to m
        invariant trace == old(trace) + HalfCleaner(m, start, i) && gCount == old(gCount) + i
        invariant Rows(keys[..], values[..]) == RunRows(HalfCleaner(m, start, i), s)
      {
        CasV2m(keys, values, start + i, start + m + i);
        RunRowsAppend(HalfCleaner(m, start, i), Comparator(start + i, start + m + i), s);
      }
    }

    method BitonicSort(n: nat, start: nat, keys: array<int>, values: array<int>)
      requires Terminates(n) && start + n <= keys.Length
      requires values.Length == VALUE_SIZE * keys.Length && keys != values
      modifies this, keys, values
      ensures trace == old(trace) + BitonicNet(n, start) && gCount == old(gCount) + |BitonicNet(n, start)|
      ensures Rows(keys[..], values[..]) == RunRows(BitonicNet(n, start), old(Rows(keys[..], values[..])))
      ensures Rearranged(old(keys[..]), old(values[..]), keys[..], values[..], start, start + n)
      decreases n, 1
    {
      hide BitonicNet, RunRows, Rows, Rearranged, Within;
      ghost var s := Rows(keys[..], values[..]);
      BitonicNetUnfold(n, start);
      RunRowsEmpty(s);
      if n == 2 {
        CasV2m(keys, values, start, start + 1);
        RunRowsAppend([], Comparator(start, start + 1), s);
      } else {
        BitonicHalves(n, start, keys, values);
      }
      BitonicDone(old(keys[..]), old(values[..]), keys[..], values[..], n, start);
    }

    /** The recursion of `bitonicSort` */
    method BitonicHalves(n: nat, start: nat, keys: array<int>, values: array<int>)
      requires Terminates(n) && n != 2 && start + n <= keys.Length
      requires values.Length == VALUE_SIZE * keys.Length && keys != values
      modifies this, keys, values
      ensures trace == old(trace) + BitonicNet(n, start) && gCount == old(gCount) + |BitonicNet(n, start)|
      ensures Rows(keys[..], values[..]) == RunRows(BitonicNet(n, start), old(Rows(keys[..], values[..])))
      decreases n, 0
    {
      hide BitonicNet, RunRows, Rows, Rearranged;
      ghost var s := Rows(keys[..], values[..]);
      ghost var cleaner := HalfCleaner(n / 2, start, n / 2);
      BitonicNetUnfold(n, start);
      CleanHalf(n / 2, start, keys, values);
      BitonicSort(n / 2, start, keys, values);
      RunRowsConcat(cleaner, BitonicNet(n / 2, start), s);
      BitonicSort(n / 2, start + n / 2, keys, values);
      RunRowsConcat(cleaner + BitonicNet(n / 2, start), BitonicNet(n / 2, start + n / 2), s);
    }

    /** The loop of `merger` */
    method MirrorHalves(n: nat, start: nat, keys: array<int>, values: array<int>)
      requires start + n <= keys.Length && values.Length == VALUE_SIZE * keys.Length && keys != values
      modifies this, keys, values
      ensures trace == old(trace) + Mirror(n, start, n / 2) && gCount == old(gCount) + |Mirror(n, start, n / 2)|
      ensures Rows(keys[..], values[..]) == RunRows(Mirror(n, start, n / 2), old(Rows(keys[..], values[..])))
    {
      hide RunRows, Rows, Mirror;
      ghost var s := Rows(keys[..], values[..]);
      RunRowsEmpty(s);
      MirrorNext(n, start, 0);
      for i := 0 to n / 2
        invariant trace == old(trace) + Mirror(n, start, i) && gCount == old(gCount) + i && i == |Mirror(n, start, i)|
        invariant Rows(keys[..], values[..]) == RunRows(Mirror(n, start, i), s)
      {
        CasV2m(keys, values, start + i, start + n - 1 - i);
        RunRowsAppend(Mirror(n, start, i), Comparator(start + i, start + n - 1 - i), s);
        MirrorNext(n, start, i);
      }
    }

    method Merger(n: nat, start: nat, keys: array<int>, values: array<int>) returns (count: int)
      requires Terminates(n) && start + n <= keys.Length
      requires values.Length == VALUE_SIZE * keys.Length && keys != values
      modifies this, keys, values
      ensures trace == old(trace) + MergerNet(n, start)
      ensures count == gCount == old(gCount) + |MergerNet(n, start)|
      ensures Rows(keys[..], values[..]) == RunRows(MergerNet(n, start), old(Rows(keys[..], values[..])))
      ensures Rearranged(old(keys[..]), old(values[..]), keys[..], values[..], start, start + n)
      ensures IsPowerOfTwo(n) ==> forall i, j :: start <= i <= j < start + n ==> keys[i] <= keys[j]
      decreases n, 1
    {
      hide MergerNet, RunRows, Rows, BlockSorted, Rearranged, Within;
      ghost var s := Rows(keys[..], values[..]);
      MergerNetUnfold(n, start);
      RunRowsEmpty(s);
      if n == 2 {
        CasV2m(keys, values, start, start + 1);
        RunRowsAppend([], Comparator(start, start + 1), s);
      } else {
        MergerHalves(n, start, keys, values);
      }
      MergerDone(old(keys[..]), old(values[..]), keys[..], values[..], n, start);
      count := gCount;
    }

    /** The recursion of `merger` */
    method MergerHalves(n: nat, start: nat, keys: array<int>, values: array<int>)
      requires Terminates(n) && n != 2 && start + n <= keys.Length
      requires values.Length == VALUE_SIZE * keys.Length && keys != values
      modifies this, keys, values
      ensures trace == old(trace) + MergerNet(n, start) && gCount == old(gCount) + |MergerNet(n, start)|
      ensures Rows(keys[..], values[..]) == RunRows(MergerNet(n, start), old(Rows(keys[..], values[..])))
      decreases n, 0
    {
      hide BitonicNet, MergerNet, Mirror, RunRows, Rows, Rearranged, IsPowerOfTwo;
      ghost var s := Rows(keys[..], values[..]);
      MergerNetUnfold(n, start);
      ghost var net := MergerNet(n / 2, start);
      var _ := Merger(n / 2, start, keys, values);
      var _ := Merger(n / 2, start + n / 2, keys, values);
      RunRowsConcat(net, MergerNet(n / 2, start + n / 2), s);
      net := net + MergerNet(n / 2, start + n / 2);
      MirrorHalves(n, start, keys, values);
      RunRowsConcat(net, Mirror(n, start, n / 2), s);
      net := net + Mirror(n, start, n / 2);
      BitonicSort(n / 2, start, keys, values);
      RunRowsConcat(net, BitonicNet(n / 2, start), s);
      BitonicSort(n / 2, start + n / 2, keys, values);
      RunRowsConcat(net + BitonicNet(n / 2, start), BitonicNet(n / 2, start + n / 2), s);
    }
  }
}
