/** Comparator networks and the bitonic network of src/algo/sorting_net.cpp, as values.

    A network is the list of index pairs that are compared, in order.  It mentions no data, so a
    program that performs exactly the comparisons of a network is oblivious.  Networks are run on
    bare keys here; `SortingNet` carries the rows of values along.
 */
module SortingNetwork {
  import opened Arithmetic

  datatype Comparator = Comparator(lo: nat, hi: nat)

  type Network = seq<Comparator>

  /** Block sizes on which the two recursions reach their base case n == 2. */
  predicate Terminates(n: nat) {
    n == 2 || (4 <= n && Terminates(n / 2))
  }

  /** Repeated halving of a power of two from 2 on ends at 2. */
  predicate IsPowerOfTwo(n: nat): (p: bool)
    ensures p && 2 <= n ==> Terminates(n)
  {
    n == 1 || (2 <= n && n % 2 == 0 && IsPowerOfTwo(n / 2))
  }

  // ----- the networks -----

  /** The first i comparisons of the loop of `bitonicSort`: k against k + m. */
  function HalfCleaner(m: nat, start: nat, i: nat): (net: Network)
    ensures |net| == i
  {
    if i == 0 then [] else HalfCleaner(m, start, i - 1) + [Comparator(start + i - 1, start + m + i - 1)]
  }

  /** The first i comparisons of the loop of `merger`: k against its mirror image. */
  function Mirror(n: nat, start: nat, i: nat): (net: Network)
    requires i <= n
    ensures |net| == i
  {
    if i == 0 then [] else Mirror(n, start, i - 1) + [Comparator(start + i - 1, start + n - i)]
  }

  function BitonicNet(n: nat, start: nat): Network
    requires Terminates(n)
    decreases n, 0
  {
    if n == 2 then [Comparator(start, start + 1)]
    else HalfCleaner(n / 2, start, n / 2) + BitonicHalves(n / 2, start)
  }

  /** `bitonicSort` on two adjacent blocks of m entries. */
  function BitonicHalves(m: nat, start: nat): Network
    requires Terminates(m)
    decreases m, 1
  {
    BitonicNet(m, start) + BitonicNet(m, start + m)
  }

  function MergerNet(n: nat, start: nat): Network
    requires Terminates(n)
    decreases n, 0
  {
    if n == 2 then [Comparator(start, start + 1)]
    else MergerHalves(n / 2, start) + (Mirror(n, start, n / 2) + BitonicHalves(n / 2, start))
  }

  /** `merger` on two adjacent blocks of m entries. */
  function MergerHalves(m: nat, start: nat): Network
    requires Terminates(m)
    decreases m, 1
  {
    MergerNet(m, start) + MergerNet(m, start + m)
  }

  lemma NetsOfFour(s: nat)
    ensures BitonicNet(4, s) == [Comparator(s, s + 2), Comparator(s + 1, s + 3), Comparator(s, s + 1), Comparator(s + 2, s + 3)]
    ensures MergerNet(4, s) ==
      [
        Comparator(s, s + 1), Comparator(s + 2, s + 3), Comparator(s, s + 3), Comparator(s + 1, s + 2),
        Comparator(s, s + 1), Comparator(s + 2, s + 3)
      ]
  {
    assert HalfCleaner(2, s, 2) == HalfCleaner(2, s, 1) + [Comparator(s + 1, s + 3)];
    assert Mirror(4, s, 2) == Mirror(4, s, 1) + [Comparator(s + 1, s + 2)];
    assert HalfCleaner(2, s, 1) == [Comparator(s, s + 2)] && Mirror(4, s, 1) == [Comparator(s, s + 3)];
    assert BitonicHalves(2, s) == MergerHalves(2, s) == [Comparator(s, s + 1), Comparator(s + 2, s + 3)];
  }

  /** Every comparison is between two distinct positions of [lo, hi), the smaller one first. */
  ghost predicate Within(net: Network, lo: nat, hi: nat) {
    forall c :: c in net ==> lo <= c.lo < c.hi < hi
  }

  lemma HalfCleanerWithin(m: nat, start: nat, i: nat)
    requires i <= m
    ensures Within(HalfCleaner(m, start, i), start, start + 2 * m)
  {}

  lemma MirrorWithin(n: nat, start: nat, i: nat)
    requires i <= n / 2
    ensures Within(Mirror(n, start, i), start, start + n)
  {}

  lemma WithinConcat(a: Network, b: Network, lo: nat, mid: nat, mid': nat, hi: nat)
    requires Within(a, lo, mid) && Within(b, mid', hi) && mid <= hi && lo <= mid'
    ensures Within(a + b, lo, hi)
  {}

  lemma {:induction false} BitonicNetWithin(n: nat, start: nat)
    requires Terminates(n)
    ensures Within(BitonicNet(n, start), start, start + n)
    decreases n, 0
  {
    if n != 2 {
      HalfCleanerWithin(n / 2, start, n / 2);
      BitonicHalvesWithin(n / 2, start);
      WithinConcat(HalfCleaner(n / 2, start, n / 2), BitonicHalves(n / 2, start), start, start + n / 2 * 2, start, start + n);
    }
  }

  lemma {:induction false} BitonicHalvesWithin(m: nat, start: nat)
    requires Terminates(m)
    ensures Within(BitonicHalves(m, start), start, start + 2 * m)
    decreases m, 1
  {
    BitonicNetWithin(m, start);
    BitonicNetWithin(m, start + m);
    WithinConcat(BitonicNet(m, start), BitonicNet(m, start + m), start, start + m, start + m, start + 2 * m);
  }

  lemma {:induction false} MergerNetWithin(n: nat, start: nat)
    requires Terminates(n)
    ensures Within(MergerNet(n, start), start, start + n)
    decreases n, 0
  {
    if n != 2 {
      var m := n / 2;
      MergerHalvesWithin(m, start);
      MirrorWithin(n, start, m);
      BitonicHalvesWithin(m, start);
      WithinConcat(Mirror(n, start, m), BitonicHalves(m, start), start, start + n, start, start + n);
      WithinConcat(MergerHalves(m, start), Mirror(n, start, m) + BitonicHalves(m, start), start, start + 2 * m, start, start + n);
    }
  }

  lemma {:induction false} MergerHalvesWithin(m: nat, start: nat)
    requires Terminates(m)
    ensures Within(MergerHalves(m, start), start, start + 2 * m)
    decreases m, 1
  {
    hide MergerNet;
    MergerNetWithin(m, start);
    MergerNetWithin(m, start + m);
    WithinConcat(MergerNet(m, start), MergerNet(m, start + m), start, start + m, start + m, start + 2 * m);
  }

  // ----- one unfolding of each definition -----

  lemma HalfCleanerNext(m: nat, start: nat, i: nat)
    ensures HalfCleaner(m, start, 0) == []
    ensures HalfCleaner(m, start, i + 1) == HalfCleaner(m, start, i) + [Comparator(start + i, start + m + i)]
  {}

  lemma MirrorNext(n: nat, start: nat, i: nat)
    requires i < n || i == 0
    ensures Mirror(n, start, 0) == []
    ensures i < n ==> Mirror(n, start, i + 1) == Mirror(n, start, i) + [Comparator(start + i, start + n - 1 - i)]
  {}

  lemma BitonicNetUnfold(n: nat, start: nat)
    requires Terminates(n)
    ensures BitonicNet(n, start) == if n == 2 then [] + [Comparator(start, start + 1)]
      else HalfCleaner(n / 2, start, n / 2) + BitonicNet(n / 2, start) + BitonicNet(n / 2, start + n / 2)
  {}

  lemma MergerNetUnfold(n: nat, start: nat)
    requires Terminates(n)
    ensures MergerNet(n, start) == if n == 2 then [] + [Comparator(start, start + 1)]
      else MergerNet(n / 2, start) + MergerNet(n / 2, start + n / 2)
           + Mirror(n, start, n / 2) + BitonicNet(n / 2, start) + BitonicNet(n / 2, start + n / 2)
  {
    hide BitonicNet, BitonicHalves, MergerHalves, Mirror;
    if n == 2 {
      assert MergerNet(n, start) == [Comparator(start, start + 1)];
    } else {
      assert MergerNet(n, start) == MergerHalves(n / 2, start) + (Mirror(n, start, n / 2) + BitonicHalves(n / 2, start));
      MergerNetFlat(n / 2, start, Mirror(n, start, n / 2));
    }
  }

  lemma MergerNetFlat(m: nat, start: nat, mirror: Network)
    requires Terminates(m)
    ensures MergerHalves(m, start) + (mirror + BitonicHalves(m, start))
      == MergerNet(m, start) + MergerNet(m, start + m) + mirror + BitonicNet(m, start) + BitonicNet(m, start + m)
  {
    hide BitonicNet, MergerNet;
  }

  // ----- running a network on keys -----

  function Exchange(s: seq<int>, c: Comparator): (r: seq<int>)
    ensures |r| == |s|
  {
    if c.lo < |s| && c.hi < |s| && s[c.lo] > s[c.hi] then s[c.lo := s[c.hi]][c.hi := s[c.lo]] else s
  }

  function Run(net: Network, s: seq<int>): (r: seq<int>)
    ensures |r| == |s|
  {
    if net == [] then s else Exchange(Run(net[..|net| - 1], s), net[|net| - 1])
  }

  lemma {:induction false} RunConcat(a: Network, b: Network, s: seq<int>)
    ensures Run(a + b, s) == Run(b, Run(a, s))
    decreases |b|
  {
    if b == [] {
      assert a + b == a;
    } else {
      var b' := b[..|b| - 1];
      RunConcat(a, b', s);
      assert (a + b)[..|a + b| - 1] == a + b';
    }
  }

  lemma RunAppend(net: Network, c: Comparator, s: seq<int>)
    ensures Run(net + [c], s) == Exchange(Run(net, s), c)
  {
    assert (net + [c])[..|net|] == net;
  }

  lemma RunEmpty(s: seq<int>)
    ensures Run([], s) == s
  {}

  /** What a network confined to [lo, hi) can do: nothing outside, and inside no value leaves
      the range [x, y] of the values it found there. */
  lemma {:induction false} RunConfined(net: Network, s: seq<int>, lo: nat, hi: nat, x: int, y: int)
    requires Within(net, lo, hi) && hi <= |s|
    requires forall i :: lo <= i < hi ==> x <= s[i] <= y
    ensures forall i :: 0 <= i < |s| && !(lo <= i < hi) ==> Run(net, s)[i] == s[i]
    ensures forall i :: lo <= i < hi ==> x <= Run(net, s)[i] <= y
  {
    if net != [] {
      RunConfined(net[..|net| - 1], s, lo, hi, x, y);
      assert net[|net| - 1] in net;
    }
  }

  // ----- the 0-1 principle -----

  function Threshold(s: seq<int>, t: int): (r: seq<int>)
    ensures |r| == |s|
    ensures forall i :: 0 <= i < |s| ==> r[i] == (if s[i] >= t then 1 else 0)
  {
    seq(|s|, i requires 0 <= i < |s| => if s[i] >= t then 1 else 0)
  }

  lemma {:induction false} RunThreshold(net: Network, s: seq<int>, t: int)
    ensures Run(net, Threshold(s, t)) == Threshold(Run(net, s), t)
  {
    if net != [] {
      var r := Run(net[..|net| - 1], s);
      RunThreshold(net[..|net| - 1], s, t);
      assert Exchange(Threshold(r, t), net[|net| - 1]) == Threshold(Exchange(r, net[|net| - 1]), t);
    }
  }

  predicate ZeroOne(s: seq<int>) {
    forall i :: 0 <= i < |s| ==> s[i] == 0 || s[i] == 1
  }

  /** Ascending order on the segment [lo, hi). */
  predicate SortedSegment(s: seq<int>, lo: nat, hi: nat)
    requires hi <= |s|
  {
    forall i, j :: lo <= i < j < hi ==> s[i] <= s[j]
  }

  /** A network that sorts a segment of every 0-1 sequence sorts that segment of every sequence. */
  lemma ZeroOnePrinciple(net: Network, s: seq<int>, lo: nat, hi: nat)
    requires hi <= |s|
    requires forall z: seq<int> :: |z| == |s| && ZeroOne(z) ==> SortedSegment(Run(net, z), lo, hi)
    ensures SortedSegment(Run(net, s), lo, hi)
  {
    var r := Run(net, s);
    forall i, j | lo <= i < j < hi ensures r[i] <= r[j] {
      var z := Threshold(s, r[i]);
      RunThreshold(net, s, r[i]);
      assert SortedSegment(Run(net, z), lo, hi);
      assert Run(net, z)[i] <= Run(net, z)[j];
    }
  }

  // ----- bitonic 0-1 segments -----

  /** The n entries from lo on are c everywhere except on [a, b), where they are 1 - c: the shape
      of a cyclically bitonic 0-1 sequence. */
  ghost predicate Bitonic(s: seq<int>, lo: nat, n: nat, a: nat, b: nat, c: int) {
    && lo + n <= |s|
    && a <= b <= n
    && (c == 0 || c == 1)
    && forall i :: lo <= i < lo + n ==> s[i] == if lo + a <= i < lo + b then 1 - c else c
  }

  lemma BitonicLength(s: seq<int>, lo: nat, n: nat, a: nat, b: nat, c: int)
    requires Bitonic(s, lo, n, a, b, c)
    ensures lo + n <= |s|
  {}

  ghost predicate SomeBitonic(s: seq<int>, lo: nat, n: nat) {
    exists a, b, c :: Bitonic(s, lo, n, a, b, c)
  }

  ghost predicate AllEqual(s: seq<int>, lo: nat, n: nat, c: int) {
    lo + n <= |s| && forall i :: lo <= i < lo + n ==> s[i] == c
  }

  /** Two adjacent blocks of m entries: both bitonic, and either the left one is all 0 or the
      right one is all 1. */
  ghost predicate Halved(s: seq<int>, lo: nat, m: nat) {
    && SomeBitonic(s, lo, m)
    && SomeBitonic(s, lo + m, m)
    && (AllEqual(s, lo, m, 0) || AllEqual(s, lo + m, m, 1))
  }

  /** Entry k of s after the comparisons of j with j + m, for j in [lo, lo + i). */
  function CleanedAt(s: seq<int>, lo: nat, m: nat, i: nat, k: nat): int
    requires lo + 2 * m <= |s| && i <= m && k < |s|
  {
    if lo <= k < lo + i then Min(s[k], s[k + m])
    else if lo + m <= k < lo + m + i then Max(s[k - m], s[k])
    else s[k]
  }

  ghost predicate Cleaned(s: seq<int>, r: seq<int>, lo: nat, m: nat, i: nat)
    requires lo + 2 * m <= |s| == |r| && i <= m
  {
    forall k {:trigger r[k]} :: 0 <= k < |s| ==> r[k] == CleanedAt(s, lo, m, i, k)
  }

  /** Entry k of s after the comparisons of j with its mirror image in [lo, lo + n), for j in [lo, lo + i). */
  function MirroredAt(s: seq<int>, lo: nat, n: nat, i: nat, k: nat): int
    requires lo + n <= |s| && i <= n / 2 && k < |s|
  {
    if lo <= k < lo + i then Min(s[k], s[2 * lo + n - 1 - k])
    else if lo + n - i <= k < lo + n then Max(s[2 * lo + n - 1 - k], s[k])
    else s[k]
  }

  ghost predicate Mirrored(s: seq<int>, r: seq<int>, lo: nat, n: nat, i: nat)
    requires lo + n <= |s| == |r| && i <= n / 2
  {
    forall k {:trigger r[k]} :: 0 <= k < |s| ==> r[k] == MirroredAt(s, lo, n, i, k)
  }

  lemma CleanedStep(s: seq<int>, r: seq<int>, lo: nat, m: nat, i: nat)
    requires lo + 2 * m <= |s| == |r| && i < m && Cleaned(s, r, lo, m, i)
    ensures Cleaned(s, Exchange(r, Comparator(lo + i, lo + m + i)), lo, m, i + 1)
  {
    assert r[lo + i] == s[lo + i] && r[lo + m + i] == s[lo + m + i];
  }

  lemma {:induction false} HalfCleanerRun(s: seq<int>, m: nat, start: nat, i: nat)
    requires i <= m && start + 2 * m <= |s|
    ensures Cleaned(s, Run(HalfCleaner(m, start, i), s), start, m, i)
  {
    hide Run, HalfCleaner, Exchange;
    if i == 0 {
      HalfCleanerNext(m, start, 0);
      RunEmpty(s);
    } else {
      HalfCleanerRun(s, m, start, i - 1);
      HalfCleanerNext(m, start, i - 1);
      RunAppend(HalfCleaner(m, start, i - 1), Comparator(start + i - 1, start + m + i - 1), s);
      CleanedStep(s, Run(HalfCleaner(m, start, i - 1), s), start, m, i - 1);
    }
  }

  lemma MirroredStep(s: seq<int>, r: seq<int>, lo: nat, n: nat, i: nat)
    requires lo + n <= |s| == |r| && i < n / 2 && Mirrored(s, r, lo, n, i)
    ensures Mirrored(s, Exchange(r, Comparator(lo + i, lo + n - 1 - i)), lo, n, i + 1)
  {
    assert r[lo + i] == s[lo + i] && r[lo + n - 1 - i] == s[lo + n - 1 - i];
  }

  lemma {:induction false} MirrorRun(s: seq<int>, n: nat, start: nat, i: nat)
    requires i <= n / 2 && start + n <= |s|
    ensures Mirrored(s, Run(Mirror(n, start, i), s), start, n, i)
  {
    hide Run, Mirror, Exchange;
    if i == 0 {
      MirrorNext(n, start, 0);
      RunEmpty(s);
    } else {
      MirrorRun(s, n, start, i - 1);
      MirrorNext(n, start, i - 1);
      RunAppend(Mirror(n, start, i - 1), Comparator(start + i - 1, start + n - i), s);
      MirroredStep(s, Run(Mirror(n, start, i - 1), s), start, n, i - 1);
    }
  }

  lemma CleanedHalves0(s: seq<int>, r: seq<int>, m: nat, lo: nat, a: nat, b: nat)
    requires Bitonic(s, lo, 2 * m, a, b, 0) && |r| == |s|
    requires Cleaned(s, r, lo, m, m)
    ensures Halved(r, lo, m)
  {
    if b <= m {
      assert Bitonic(r, lo, m, 0, 0, 0) && Bitonic(r, lo + m, m, a, b, 0);
    } else if m <= a {
      assert Bitonic(r, lo, m, 0, 0, 0) && Bitonic(r, lo + m, m, a - m, b - m, 0);
    } else if b - m <= a {
      assert Bitonic(r, lo, m, 0, 0, 0) && Bitonic(r, lo + m, m, b - m, a, 1);
    } else {
      assert Bitonic(r, lo, m, a, b - m, 0) && Bitonic(r, lo + m, m, 0, 0, 1);
    }
  }

  lemma CleanedHalves1(s: seq<int>, r: seq<int>, m: nat, lo: nat, a: nat, b: nat)
    requires Bitonic(s, lo, 2 * m, a, b, 1) && |r| == |s|
    requires Cleaned(s, r, lo, m, m)
    ensures Halved(r, lo, m)
  {
    if b <= m {
      assert Bitonic(r, lo, m, a, b, 1) && Bitonic(r, lo + m, m, 0, 0, 1);
    } else if m <= a {
      assert Bitonic(r, lo, m, a - m, b - m, 1) && Bitonic(r, lo + m, m, 0, 0, 1);
    } else if b - m <= a {
      assert Bitonic(r, lo, m, b - m, a, 0) && Bitonic(r, lo + m, m, 0, 0, 1);
    } else {
      assert Bitonic(r, lo, m, 0, 0, 0) && Bitonic(r, lo + m, m, a, b - m, 1);
    }
  }

  /** The compare loop of `bitonicSort` splits a bitonic block in two bitonic halves, one of them
      constant, no entry of the left one above an entry of the right one. */
  lemma CleanedHalves(s: seq<int>, r: seq<int>, m: nat, lo: nat, a: nat, b: nat, c: int)
    requires Bitonic(s, lo, 2 * m, a, b, c) && |r| == |s|
    requires Cleaned(s, r, lo, m, m)
    ensures Halved(r, lo, m)
  {
    if c == 0 {
      CleanedHalves0(s, r, m, lo, a, b);
    } else {
      CleanedHalves1(s, r, m, lo, a, b);
    }
  }

  /** The first index of a sorted 0-1 block that holds a 1 (or the end of the block). */
  lemma {:induction false} SortedIsStep(s: seq<int>, lo: nat, n: nat) returns (p: nat)
    requires lo + n <= |s| && ZeroOne(s) && SortedSegment(s, lo, lo + n)
    ensures p <= n && Bitonic(s, lo, n, p, n, 0)
  {
    if n == 0 || s[lo + n - 1] == 0 {
      p := n;
    } else {
      p := SortedIsStep(s, lo, n - 1);
    }
  }

  /** The mirrored compare loop of `merger` does the same for two sorted halves. */
  lemma MirroredHalves(s: seq<int>, r: seq<int>, m: nat, lo: nat)
    requires lo + 2 * m <= |s| == |r| && ZeroOne(s)
    requires SortedSegment(s, lo, lo + m) && SortedSegment(s, lo + m, lo + 2 * m)
    requires Mirrored(s, r, lo, 2 * m, m)
    ensures Halved(r, lo, m)
  {
    var p := SortedIsStep(s, lo, m);
    var q := SortedIsStep(s, lo + m, m);
    if p <= m - q {
      assert Bitonic(r, lo, m, p, m - q, 0) && Bitonic(r, lo + m, m, 0, 0, 1);
    } else {
      assert Bitonic(r, lo, m, 0, 0, 0) && Bitonic(r, lo + m, m, m - p, q, 1);
    }
  }

  // ----- the two sorts -----

  /** `bitonicSort` sorts every cyclically bitonic 0-1 block of a power-of-two size. */
  lemma {:induction false} BitonicSorts01(s: seq<int>, n: nat, lo: nat)
    requires 2 <= n && IsPowerOfTwo(n)
    requires SomeBitonic(s, lo, n)
    ensures SortedSegment(Run(BitonicNet(n, lo), s), lo, lo + n)
    decreases n, 0
  {
    hide Run, Cleaned, Halved, Bitonic, BitonicNet, HalfCleaner;
    BitonicNetUnfold(n, lo);
    var a, b, c :| Bitonic(s, lo, n, a, b, c);
    BitonicLength(s, lo, n, a, b, c);
    if n == 2 {
      RunEmpty(s);
      RunAppend([], Comparator(lo, lo + 1), s);
    } else {
      var m := n / 2;
      var r := Run(HalfCleaner(m, lo, m), s);
      HalfCleanerRun(s, m, lo, m);
      CleanedHalves(s, r, m, lo, a, b, c);
      HalvedSorts01(r, m, lo);
      RunConcat(HalfCleaner(m, lo, m), BitonicHalves(m, lo), s);
      assert HalfCleaner(m, lo, m) + BitonicHalves(m, lo) == HalfCleaner(m, lo, m) + BitonicNet(m, lo) + BitonicNet(m, lo + m);
    }
  }

  /** Sorting the two halves of a halved block sorts the block. */
  lemma {:induction false} HalvedSorts01(r: seq<int>, m: nat, lo: nat)
    requires 2 <= m && IsPowerOfTwo(m)
    requires Halved(r, lo, m)
    ensures SortedSegment(Run(BitonicHalves(m, lo), r), lo, lo + 2 * m)
    decreases m, 1
  {
    hide BitonicNet, Run;
    var u := Run(BitonicNet(m, lo), r);
    RunConcat(BitonicNet(m, lo), BitonicNet(m, lo + m), r);
    BitonicNetWithin(m, lo);
    BitonicNetWithin(m, lo + m);
    BitonicSorts01(r, m, lo);
    RunConfined(BitonicNet(m, lo), r, lo, lo + m, 0, if AllEqual(r, lo, m, 0) then 0 else 1);
    var a, b, c :| Bitonic(r, lo + m, m, a, b, c);
    assert Bitonic(u, lo + m, m, a, b, c);
    BitonicSorts01(u, m, lo + m);
    RunConfined(BitonicNet(m, lo + m), u, lo + m, lo + 2 * m, if AllEqual(r, lo + m, m, 1) then 1 else 0, 1);
  }

  /** `merger` sorts every 0-1 block of a power-of-two size. */
  lemma {:induction false} MergerSorts01(s: seq<int>, n: nat, lo: nat)
    requires 2 <= n && IsPowerOfTwo(n)
    requires lo + n <= |s| && ZeroOne(s)
    ensures SortedSegment(Run(MergerNet(n, lo), s), lo, lo + n)
    decreases n, 0
  {
    hide Run, BitonicNet, Mirrored, Halved, ZeroOne;
    if n == 2 {
      RunAppend([], Comparator(lo, lo + 1), s);
      assert MergerNet(n, lo) == [] + [Comparator(lo, lo + 1)];
      RunEmpty(s);
    } else {
      var m := n / 2;
      var h := Run(MergerHalves(m, lo), s);
      var r := Run(Mirror(n, lo, m), h);
      MergerHalvesSort01(s, m, lo);
      MirrorRun(h, n, lo, m);
      MirroredHalves(h, r, m, lo);
      HalvedSorts01(r, m, lo);
      RunConcat(Mirror(n, lo, m), BitonicHalves(m, lo), h);
      RunConcat(MergerHalves(m, lo), Mirror(n, lo, m) + BitonicHalves(m, lo), s);
    }
  }

  lemma {:induction false} MergerHalvesSort01(s: seq<int>, m: nat, lo: nat)
    requires 2 <= m && IsPowerOfTwo(m)
    requires lo + 2 * m <= |s| && ZeroOne(s)
    ensures var h := Run(MergerHalves(m, lo), s);
      ZeroOne(h) && SortedSegment(h, lo, lo + m) && SortedSegment(h, lo + m, lo + 2 * m)
    decreases m, 1
  {
    hide MergerNet, Run;
    var u := Run(MergerNet(m, lo), s);
    RunConcat(MergerNet(m, lo), MergerNet(m, lo + m), s);
    MergerNetWithin(m, lo);
    MergerNetWithin(m, lo + m);
    MergerSorts01(s, m, lo);
    RunConfined(MergerNet(m, lo), s, lo, lo + m, 0, 1);
    MergerSorts01(u, m, lo + m);
    RunConfined(MergerNet(m, lo + m), u, lo + m, lo + 2 * m, 0, 1);
  }

  /** `merger` sorts every block of a power-of-two size and leaves the rest alone. */
  lemma MergerSorts(s: seq<int>, n: nat, lo: nat)
    requires 2 <= n && IsPowerOfTwo(n) && lo + n <= |s|
    ensures SortedSegment(Run(MergerNet(n, lo), s), lo, lo + n)
    ensures forall i :: 0 <= i < |s| && !(lo <= i < lo + n) ==> Run(MergerNet(n, lo), s)[i] == s[i]
  {
    hide Run, MergerNet;
    forall z: seq<int> | |z| == |s| && ZeroOne(z)
      ensures SortedSegment(Run(MergerNet(n, lo), z), lo, lo + n)
    {
      MergerSorts01(z, n, lo);
    }
    ZeroOnePrinciple(MergerNet(n, lo), s, lo, lo + n);
    MergerNetWithin(n, lo);
    var x, y := Bounds(s);
    RunConfined(MergerNet(n, lo), s, lo, lo + n, x, y);
  }

  lemma {:induction false} Bounds(s: seq<int>) returns (x: int, y: int)
    ensures forall i :: 0 <= i < |s| ==> x <= s[i] <= y
  {
    if s == [] {
      x, y := 0, 0;
    } else {
      x, y := Bounds(s[..|s| - 1]);
      x, y := Min(x, s[|s| - 1]), Max(y, s[|s| - 1]);
    }
  }

  /** Position i of the block [lo, lo + n) read from its offset d on, wrapping around at the end. */
  function Rotated(s: seq<int>, lo: nat, n: nat, d: nat, i: nat): int
    requires lo + n <= |s| && d < n && i < n
  {
    s[lo + if d + i < n then d + i else d + i - n]
  }

  /** Read from offset d on, the block ascends up to position p and descends from there. */
  ghost predicate CyclicallyBitonic(s: seq<int>, lo: nat, n: nat, d: nat, p: nat) {
    && lo + n <= |s| && d < n && p < n
    && (forall i, j :: 0 <= i < j <= p ==> Rotated(s, lo, n, d, i) <= Rotated(s, lo, n, d, j))
    && (forall i, j :: p <= i < j < n ==> Rotated(s, lo, n, d, i) >= Rotated(s, lo, n, d, j))
  }

  lemma RotatedAt(s: seq<int>, lo: nat, n: nat, d: nat, i: nat)
    requires lo + n <= |s| && d < n && lo <= i < lo + n
    ensures s[i] == Rotated(s, lo, n, d, if i - lo >= d then i - lo - d else i - lo + n - d)
  {}

  /** The positions of a cyclically bitonic block that reach a threshold, read from the offset on,
      are an interval [x, y). */
  lemma ThresholdInterval(s: seq<int>, lo: nat, n: nat, d: nat, p: nat, t: int) returns (x: nat, y: nat)
    requires CyclicallyBitonic(s, lo, n, d, p)
    ensures x <= y <= n
    ensures forall i :: 0 <= i < n ==> (Rotated(s, lo, n, d, i) >= t <==> x <= i < y)
  {
    if Rotated(s, lo, n, d, p) < t {
      x, y := 0, 0;
    } else {
      x, y := p, p + 1;
      while x > 0 && Rotated(s, lo, n, d, x - 1) >= t
        invariant 0 <= x <= p && Rotated(s, lo, n, d, x) >= t
      {
        x := x - 1;
      }
      while y < n && Rotated(s, lo, n, d, y) >= t
        invariant p < y <= n && Rotated(s, lo, n, d, y - 1) >= t
      {
        y := y + 1;
      }
    }
  }

  lemma ThresholdBitonic(s: seq<int>, lo: nat, n: nat, d: nat, p: nat, t: int)
    requires CyclicallyBitonic(s, lo, n, d, p)
    ensures SomeBitonic(Threshold(s, t), lo, n)
  {
    var x, y := ThresholdInterval(s, lo, n, d, p, t);
    var a, b, c := if d + y <= n then d + x else if d + x >= n then d + x - n else d + y - n,
                   if d + y <= n then d + y else if d + x >= n then d + y - n else d + x,
                   if d + y <= n || d + x >= n then 0 else 1;
    forall i | lo <= i < lo + n
      ensures Threshold(s, t)[i] == if lo + a <= i < lo + b then 1 - c else c
    {
      RotatedAt(s, lo, n, d, i);
    }
    assert Bitonic(Threshold(s, t), lo, n, a, b, c);
  }

  /** `bitonicSort` sorts every cyclically bitonic block of a power-of-two size. */
  lemma BitonicSorts(s: seq<int>, n: nat, lo: nat, d: nat, p: nat)
    requires 2 <= n && IsPowerOfTwo(n)
    requires CyclicallyBitonic(s, lo, n, d, p)
    ensures SortedSegment(Run(BitonicNet(n, lo), s), lo, lo + n)
    ensures forall i :: 0 <= i < |s| && !(lo <= i < lo + n) ==> Run(BitonicNet(n, lo), s)[i] == s[i]
  {
    hide Run, BitonicNet, CyclicallyBitonic;
    var net := BitonicNet(n, lo);
    var r := Run(net, s);
    assert lo + n <= |s| by { ThresholdBitonic(s, lo, n, d, p, 0); }
    forall i, j | lo <= i < j < lo + n ensures r[i] <= r[j] {
      RunThreshold(net, s, r[i]);
      ThresholdBitonic(s, lo, n, d, p, r[i]);
      BitonicSorts01(Threshold(s, r[i]), n, lo);
      assert Run(net, Threshold(s, r[i]))[i] <= Run(net, Threshold(s, r[i]))[j];
    }
    BitonicNetWithin(n, lo);
    var x, y := Bounds(s);
    RunConfined(net, s, lo, lo + n, x, y);
  }

  // ----- how many comparisons -----

  /** The half-cleaners of 2^k entries make 2^k * k / 2 comparisons. */
  lemma {:induction false} BitonicNetCount(k: nat, start: nat)
    requires 1 <= k
    ensures Terminates(Pow2(k))
    ensures 2 * |BitonicNet(Pow2(k), start)| == Pow2(k) * k
  {
    hide BitonicNet;
    if k == 1 {
      NetsOfTwo(start);
    } else {
      var p := Pow2(k - 1);
      BitonicNetCount(k - 1, start);
      BitonicNetSize(p, start);
      BitonicNetCount(k - 1, start + p);
      Distributes(p, k - 1, 1);
      assert 2 * p * k == 2 * (p * k);
    }
  }

  lemma NetsOfTwo(start: nat)
    ensures Pow2(1) == 2 && Terminates(2) && |BitonicNet(2, start)| == |MergerNet(2, start)| == 1
  {}

  lemma BitonicNetSize(p: nat, start: nat)
    requires 2 <= p && Terminates(p)
    ensures Terminates(2 * p)
    ensures |BitonicNet(2 * p, start)| == p + |BitonicNet(p, start)| + |BitonicNet(p, start + p)|
  {
    assert 2 * p / 2 == p;
  }

  lemma MergerNetSize(p: nat, start: nat)
    requires 2 <= p && Terminates(p)
    ensures Terminates(2 * p)
    ensures |MergerNet(2 * p, start)| ==
      |MergerNet(p, start)| + |MergerNet(p, start + p)| + p + |BitonicNet(p, start)| + |BitonicNet(p, start + p)|
  {
    assert 2 * p / 2 == p;
  }

  /** The merger of 2^k entries makes 2^k * k * (k + 1) / 4 comparisons. */
  lemma {:induction false} MergerNetCount(k: nat, start: nat)
    requires 1 <= k
    ensures Terminates(Pow2(k))
    ensures 4 * |MergerNet(Pow2(k), start)| == Pow2(k) * k * (k + 1)
  {
    hide BitonicNet, MergerNet;
    if k == 1 {
      NetsOfTwo(start);
    } else {
      var p := Pow2(k - 1);
      MergerNetCount(k - 1, start);
      MergerNetSize(p, start);
      MergerNetCount(k - 1, start + p);
      BitonicNetCount(k - 1, start);
      BitonicNetCount(k - 1, start + p);
      MergerArithmetic(p, k);
    }
  }

  lemma MergerArithmetic(p: nat, k: nat)
    ensures 2 * p * k * (k + 1) == 2 * (p * (k - 1) * k) + 4 * p + 4 * (p * (k - 1))
  {
    assert p * (k - 1) * k == p * k * k - p * k;
    assert p * (k - 1) == p * k - p;
    assert 2 * p * k * (k + 1) == 2 * (p * k * k) + 2 * (p * k);
  }

  // ----- block sizes that terminate but are no power of two -----

  /** Half of the odd block that repeated halving of n arrives at. */
  function OddHalf(n: nat): (h: nat)
    requires Terminates(n) && !IsPowerOfTwo(n)
    ensures 2 <= h && 2 * h < n
  {
    if n % 2 == 1 then n / 2 else OddHalf(n / 2)
  }

  /** No comparison moves a larger key from [lo, hi) to a position outside. */
  ghost predicate Traps(net: Network, lo: nat, hi: nat) {
    forall c :: c in net && lo <= c.lo < hi ==> c.lo < c.hi && lo <= c.hi < hi
  }

  lemma TrapsConcat(a: Network, b: Network, lo: nat, hi: nat)
    requires Traps(a, lo, hi) && Traps(b, lo, hi)
    ensures Traps(a + b, lo, hi)
  {}

  lemma WithinTraps(net: Network, lo: nat, hi: nat, lo': nat, hi': nat)
    requires Within(net, lo, hi)
    requires hi <= lo' || (lo' <= lo && hi <= hi')
    ensures Traps(net, lo', hi')
  {}

  lemma HalfCleanerLow(m: nat, start: nat, i: nat)
    ensures forall c :: c in HalfCleaner(m, start, i) ==> c.lo < start + i
  {}

  lemma HalfCleanerTraps(m: nat, start: nat, lo: nat, hi: nat)
    requires start + m <= lo
    ensures Traps(HalfCleaner(m, start, m), lo, hi)
  {
    HalfCleanerLow(m, start, m);
  }

  lemma MirrorLow(n: nat, start: nat, i: nat)
    requires i <= n
    ensures forall c :: c in Mirror(n, start, i) ==> c.lo < start + i
  {}

  lemma {:induction false} BitonicNetTraps(n: nat, start: nat)
    requires Terminates(n) && !IsPowerOfTwo(n)
    ensures Traps(BitonicNet(n, start), start + n - 1 - OddHalf(n), start + n - 1)
    decreases n, 1
  {
    hide Traps, BitonicHalves, HalfCleaner;
    HalfCleanerTraps(n / 2, start, start + n - 1 - OddHalf(n), start + n - 1);
    BitonicHalvesTraps(n, start);
    TrapsConcat(HalfCleaner(n / 2, start, n / 2), BitonicHalves(n / 2, start), start + n - 1 - OddHalf(n), start + n - 1);
  }

  lemma {:induction false} BitonicHalvesTraps(n: nat, start: nat)
    requires Terminates(n) && !IsPowerOfTwo(n)
    ensures Traps(BitonicHalves(n / 2, start), start + n - 1 - OddHalf(n), start + n - 1)
    decreases n, 0
  {
    hide BitonicNet;
    var m := n / 2;
    var lo, hi := start + n - 1 - OddHalf(n), start + n - 1;
    BitonicNetWithin(m, start);
    WithinTraps(BitonicNet(m, start), start, start + m, lo, hi);
    if n % 2 == 1 {
      BitonicNetWithin(m, start + m);
      WithinTraps(BitonicNet(m, start + m), start + m, start + 2 * m, lo, hi);
    } else {
      BitonicNetTraps(m, start + m);
    }
    TrapsConcat(BitonicNet(m, start), BitonicNet(m, start + m), lo, hi);
  }

  lemma {:induction false} MergerNetTraps(n: nat, start: nat)
    requires Terminates(n) && !IsPowerOfTwo(n)
    ensures Traps(MergerNet(n, start), start + n - 1 - OddHalf(n), start + n - 1)
    decreases n, 1
  {
    hide BitonicHalves, MergerHalves;
    var m := n / 2;
    var lo, hi := start + n - 1 - OddHalf(n), start + n - 1;
    MergerHalvesTraps(n, start);
    MirrorLow(n, start, m);
    BitonicHalvesTraps(n, start);
    TrapsConcat(Mirror(n, start, m), BitonicHalves(m, start), lo, hi);
    TrapsConcat(MergerHalves(m, start), Mirror(n, start, m) + BitonicHalves(m, start), lo, hi);
  }

  lemma {:induction false} MergerHalvesTraps(n: nat, start: nat)
    requires Terminates(n) && !IsPowerOfTwo(n)
    ensures Traps(MergerHalves(n / 2, start), start + n - 1 - OddHalf(n), start + n - 1)
    decreases n, 0
  {
    hide MergerNet;
    var m := n / 2;
    var lo, hi := start + n - 1 - OddHalf(n), start + n - 1;
    MergerNetWithin(m, start);
    WithinTraps(MergerNet(m, start), start, start + m, lo, hi);
    if n % 2 == 1 {
      MergerNetWithin(m, start + m);
      WithinTraps(MergerNet(m, start + m), start + m, start + 2 * m, lo, hi);
    } else {
      MergerNetTraps(m, start + m);
    }
    TrapsConcat(MergerNet(m, start), MergerNet(m, start + m), lo, hi);
  }

  /** Ones that start in a trap stay there. */
  lemma {:induction false} TrappedOnes(net: Network, s: seq<int>, lo: nat, hi: nat)
    requires Traps(net, lo, hi) && hi <= |s| && ZeroOne(s)
    requires exists i :: lo <= i < hi && s[i] == 1
    requires forall i :: 0 <= i < |s| && s[i] == 1 ==> lo <= i < hi
    requires forall c :: c in net ==> c.lo < c.hi < |s|
    ensures ZeroOne(Run(net, s))
    ensures exists i :: lo <= i < hi && Run(net, s)[i] == 1
    ensures forall i :: 0 <= i < |s| && Run(net, s)[i] == 1 ==> lo <= i < hi
  {
    if net != [] {
      var c := net[|net| - 1];
      assert c in net;
      TrappedOnes(net[..|net| - 1], s, lo, hi);
      var r := Run(net[..|net| - 1], s);
      var i :| lo <= i < hi && r[i] == 1;
      assert Run(net, s) == Exchange(r, c);
      assert Exchange(r, c)[i] == 1 || Exchange(r, c)[c.hi] == 1;
    }
  }

  /** A single 1 that the network traps below the last place. */
  lemma MergerFails(n: nat) returns (s: seq<int>)
    requires Terminates(n) && !IsPowerOfTwo(n)
    ensures |s| == n && !SortedSegment(Run(MergerNet(n, 0), s), 0, n)
  {
    hide Run, MergerNet, Traps, IsPowerOfTwo, Terminates;
    var p := n - 1 - OddHalf(n);
    s := seq(n, i => if i == p then 1 else 0);
    MergerNetTraps(n, 0);
    MergerNetWithin(n, 0);
    assert s[p] == 1;
    TrappedOnes(MergerNet(n, 0), s, p, n - 1);
    var r := Run(MergerNet(n, 0), s);
    var i :| p <= i < n - 1 && r[i] == 1;
    assert r[n - 1] == 0;
  }

  /** Exactly the powers of two are sorted, among the sizes for which `merger` terminates. */
  lemma MergerSortsIffPowerOfTwo(n: nat)
    requires Terminates(n)
    ensures IsPowerOfTwo(n) <==>
      forall s: seq<int>, lo: nat :: lo + n <= |s| ==> SortedSegment(Run(MergerNet(n, lo), s), lo, lo + n)
  {
    hide Run, MergerNet;
    if IsPowerOfTwo(n) {
      forall s: seq<int>, lo: nat | lo + n <= |s|
        ensures SortedSegment(Run(MergerNet(n, lo), s), lo, lo + n)
      {
        MergerSorts(s, n, lo);
      }
    } else {
      var s := MergerFails(n);
      assert 0 + n <= |s|;
    }
  }
}
