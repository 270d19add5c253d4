/** Families of buckets whose ranges tile an interval of target indices, as values, and what a spray
    does to them. */
module BucketFamilies {
  import opened Arithmetic
  import opened ShuffleBuckets
  import opened MelbourneShuffles
  import opened Sprays

  // ----- families of buckets -----

  /** A bucket as a value. */
  datatype Image = Image(begin: int, end: int, pairs: seq<Pair>)

  ghost function ImageOf(b: ShuffleBucket): Image
    requires b.Valid()
    reads b.data
  {
    Image(b.beginIdx, b.endIdx, b.Pairs())
  }

  ghost function Images(buckets: seq<ShuffleBucket>): (s: seq<Image>)
    requires Disjoint(buckets)
    reads Arrays(buckets)
    ensures |s| == |buckets| && forall b :: 0 <= b < |buckets| ==> s[b] == ImageOf(buckets[b])
  {
    seq(|buckets|, b requires 0 <= b < |buckets| && Disjoint(buckets) reads Arrays(buckets) => ImageOf(buckets[b]))
  }

  /** The ranges are non-empty and cover [lo, hi) one after the other. */
  ghost predicate Tiles(s: seq<Image>, lo: int, hi: int) {
    if s == [] then lo == hi else s[0].begin == lo && lo < s[0].end && Tiles(s[1..], s[0].end, hi)
  }

  lemma {:induction false} TilesConcat(a: seq<Image>, b: seq<Image>, lo: int, mid: int, hi: int)
    requires Tiles(a, lo, mid) && Tiles(b, mid, hi)
    ensures Tiles(a + b, lo, hi)
  {
    if a == [] {
      assert a + b == b;
    } else {
      TilesConcat(a[1..], b, a[0].end, mid, hi);
      assert (a + b)[1..] == a[1..] + b;
    }
  }

  lemma {:induction false} TilesAt(s: seq<Image>, lo: int, hi: int, i: nat)
    requires Tiles(s, lo, hi) && i < |s|
    ensures lo <= s[i].begin < s[i].end <= hi
    ensures Tiles(s[..i], lo, s[i].begin) && Tiles(s[i + 1..], s[i].end, hi)
  {
    TilesCount(s, lo, hi);
    if i > 0 {
      TilesAt(s[1..], s[0].end, hi, i - 1);
      assert s[..i][1..] == s[1..][..i - 1] && s[1..][i..] == s[i + 1..];
    } else {
      TilesCount(s[1..], s[0].end, hi);
    }
  }

  /** There are at most as many ranges as there are indices to cover. */
  lemma {:induction false} TilesCount(s: seq<Image>, lo: int, hi: int)
    requires Tiles(s, lo, hi)
    ensures |s| <= hi - lo
  {
    if s != [] {
      TilesCount(s[1..], s[0].end, hi);
    }
  }

  ghost predicate InRange(s: seq<Image>) {
    forall b, x :: 0 <= b < |s| && x in s[b].pairs && x.perm != DUMMY ==> s[b].begin <= x.perm < s[b].end
  }

  /** All real pairs of all buckets. */
  ghost function Collected(s: seq<Image>): multiset<Pair> {
    if s == [] then multiset{} else Collected(s[..|s| - 1]) + multiset(Reals(s[|s| - 1].pairs))
  }

  lemma {:induction false} CollectedConcat(a: seq<Image>, b: seq<Image>)
    ensures Collected(a + b) == Collected(a) + Collected(b)
    decreases |b|
  {
    hide Reals;
    if b == [] {
      assert a + b == a;
    } else {
      CollectedConcat(a, b[..|b| - 1]);
      assert (a + b)[..|a + b| - 1] == a + b[..|b| - 1];
    }
  }

  /** What every round of the re-spray keeps. */
  ghost predicate Family(s: seq<Image>, lo: int, hi: int) {
    Tiles(s, lo, hi) && InRange(s)
  }

  lemma ReplaceTiles(s: seq<Image>, i: nat, t: seq<Image>, lo: int, hi: int)
    requires Tiles(s, lo, hi) && i < |s| && Tiles(t, s[i].begin, s[i].end)
    ensures Tiles(s[..i] + t + s[i + 1..], lo, hi)
  {
    hide Tiles;
    TilesAt(s, lo, hi, i);
    TilesConcat(s[..i], t, lo, s[i].begin, s[i].end);
    TilesConcat(s[..i] + t, s[i + 1..], lo, s[i].end, hi);
  }

  lemma ReplaceInRange(s: seq<Image>, i: nat, t: seq<Image>)
    requires InRange(s) && i < |s| && InRange(t)
    ensures InRange(s[..i] + t + s[i + 1..])
  {
    var s' := s[..i] + t + s[i + 1..];
    forall b, x | 0 <= b < |s'| && x in s'[b].pairs && x.perm != DUMMY ensures s'[b].begin <= x.perm < s'[b].end {
      assert s'[b] == if b < i then s[b] else if b < i + |t| then t[b - i] else s[b - |t| + 1];
    }
  }

  lemma ReplaceCollected(s: seq<Image>, i: nat, t: seq<Image>, left: multiset<Pair>)
    requires i < |s| && Collected(t) + left == multiset(Reals(s[i].pairs))
    ensures Collected(s[..i] + t + s[i + 1..]) + left == Collected(s)
  {
    hide Collected;
    CollectedConcat(s[..i], t);
    CollectedConcat(s[..i] + t, s[i + 1..]);
    CollectedConcat(s[..i], [s[i]]);
    CollectedConcat(s[..i] + [s[i]], s[i + 1..]);
    assert s == s[..i] + [s[i]] + s[i + 1..];
    CollectedOne(s[i]);
  }

  lemma CollectedOne(x: Image)
    ensures Collected([x]) == multiset(Reals(x.pairs))
  {
    assert [x][..0] == [];
  }

  /** Replacing one bucket by a family that covers its range. */
  lemma ReplaceInFamily(s: seq<Image>, i: nat, t: seq<Image>, lo: int, hi: int, left: multiset<Pair>)
    requires Family(s, lo, hi) && i < |s| && Family(t, s[i].begin, s[i].end)
    requires Collected(t) + left == multiset(Reals(s[i].pairs))
    ensures var s' := s[..i] + t + s[i + 1..]; Family(s', lo, hi) && Collected(s') + left == Collected(s)
  {
    hide Tiles, InRange, Collected, Reals;
    ReplaceTiles(s, i, t, lo, hi);
    ReplaceInRange(s, i, t);
    ReplaceCollected(s, i, t, left);
  }

  // ----- what one spray does to a family -----

  ghost function LeftOvers(left: seq<seq<Pair>>): multiset<Pair> {
    if left == [] then multiset{} else LeftOvers(left[..|left| - 1]) + multiset(left[|left| - 1])
  }

  /** The pairs that go to the first k of n buckets. */
  ghost function Shares(s: seq<Pair>, begin: int, idxLen: nat, n: nat, k: nat): multiset<Pair>
    requires idxLen > 0
  {
    if k == 0 then multiset{} else Shares(s, begin, idxLen, n, k - 1) + multiset(Select(s, begin, idxLen, n, k - 1))
  }

  lemma {:induction false} SharesNone(begin: int, idxLen: nat, n: nat, k: nat)
    requires idxLen > 0
    ensures Shares([], begin, idxLen, n, k) == multiset{}
  {
    if k > 0 {
      SharesNone(begin, idxLen, n, k - 1);
    }
  }

  lemma AddOne(s: seq<Pair>, x: Pair)
    ensures multiset(s + [x]) == multiset(s) + multiset{x}
  {}

  lemma {:induction false} SharesStep(s: seq<Pair>, x: Pair, begin: int, idxLen: nat, n: nat, k: nat)
    requires idxLen > 0 && (x.perm != DUMMY ==> BucketIndex(x.perm, begin, idxLen, n) >= 0)
    ensures Shares(s + [x], begin, idxLen, n, k) == Shares(s, begin, idxLen, n, k)
      + if x.perm != DUMMY && BucketIndex(x.perm, begin, idxLen, n) < k then multiset{x} else multiset{}
  {
    hide BucketIndex, Select;
    if k > 0 {
      SharesStep(s, x, begin, idxLen, n, k - 1);
      SelectStep(s, x, begin, idxLen, n, k - 1);
      AddOne(Select(s, begin, idxLen, n, k - 1), x);
    }
  }

  /** Every real pair goes to exactly one bucket. */
  lemma {:induction false} SharesComplete(s: seq<Pair>, begin: int, idxLen: nat, n: nat)
    requires idxLen > 0 && n > 0 && forall x :: x in s && x.perm != DUMMY ==> begin <= x.perm
    ensures Shares(s, begin, idxLen, n, n) == multiset(Reals(s))
  {
    if s == [] {
      SharesNone(begin, idxLen, n, n);
    } else {
      var rest, x := s[..|s| - 1], s[|s| - 1];
      assert s == rest + [x];
      SharesComplete(rest, begin, idxLen, n);
      if x.perm != DUMMY {
        BucketInRange(x.perm, begin, idxLen, n);
      }
      SharesStep(rest, x, begin, idxLen, n, n);
    }
  }

  /** Nothing is lost in a spray but the left-overs. */
  lemma {:induction false} SprayCollects(t: seq<Image>, left: seq<seq<Pair>>, s: seq<Pair>, begin: int, idxLen: nat,
                                         n: nat, k: nat)
    requires idxLen > 0 && k <= |t| == |left|
    requires forall b :: 0 <= b < |t| ==> Filled(t[b].pairs, left[b], Select(s, begin, idxLen, n, b))
    ensures Collected(t[..k]) + LeftOvers(left[..k]) == Shares(s, begin, idxLen, n, k)
  {
    hide Select, Reals;
    if k > 0 {
      SprayCollects(t, left, s, begin, idxLen, n, k - 1);
      assert t[..k][..k - 1] == t[..k - 1] && left[..k][..k - 1] == left[..k - 1];
    }
  }

  lemma {:induction false} SprayTiles(t: seq<Image>, begin: int, end: int, idxLen: nat, k: nat)
    requires k < |t| && idxLen > 0 && begin + (|t| - 1) * idxLen < end
    requires forall b :: 0 <= b < |t| ==>
      t[b].begin == BucketBegin(begin, idxLen, b) && t[b].end == BucketEnd(begin, end, idxLen, |t|, b)
    ensures Tiles(t[k..], BucketBegin(begin, idxLen, k), end)
    decreases |t| - k
  {
    if k < |t| - 1 {
      SprayTiles(t, begin, end, idxLen, k + 1);
      assert t[k..][1..] == t[k + 1..];
      assert (k + 1) * idxLen == k * idxLen + idxLen;
    }
  }

  lemma SprayInRange(t: seq<Image>, left: seq<seq<Pair>>, s: seq<Pair>, begin: int, end: int, idxLen: nat)
    requires idxLen > 0 && |t| == |left| && forall x :: x in s && x.perm != DUMMY ==> begin <= x.perm < end
    requires forall b :: 0 <= b < |t| ==>
      && t[b].begin == BucketBegin(begin, idxLen, b) && t[b].end == BucketEnd(begin, end, idxLen, |t|, b)
      && Filled(t[b].pairs, left[b], Select(s, begin, idxLen, |t|, b))
    ensures InRange(t)
  {
    hide Select, Reals, BucketIndex, BucketBegin, BucketEnd;
    var n := |t|;
    forall b, x | 0 <= b < n && x in t[b].pairs && x.perm != DUMMY ensures t[b].begin <= x.perm < t[b].end {
      RealsElements(t[b].pairs);
      SelectElements(s, begin, idxLen, n, b);
      assert x in multiset(Reals(t[b].pairs));
      assert x in multiset(Select(s, begin, idxLen, n, b));
      BucketOfIndex(x.perm, begin, end, idxLen, n, b);
    }
  }

  /** A rounded length is at most one that covers the range with the last block not empty. */
  lemma RoundedCover(len: nat, n: nat, c: nat, q: nat, nc: nat, nq: nat)
    requires 2 <= n && 1 <= c && nc == n * c && nq == n * q && (n - 1) * c < len <= nc
    requires 2 * nq <= 2 * len + n < 2 * nq + 2 * n
    ensures 1 <= q && (n - 1) * q < len
  {
    Distributes(n, c, 1);
    Mul(n, c + 1, q);
    assert q <= c;
    Mul(n - 1, q, c);
    Mul(n - 1, 1, c);
  }

  /** With the number of partitions chosen, rounding the length of a range leaves no range empty. */
  lemma RoundedRanges(len: nat, partition: nat)
    requires 2 <= partition <= len
    ensures var n := FindSuitablePartitions(len, partition); var idxLen := RoundDiv(len, n);
      2 <= n <= partition && 1 <= idxLen && (n - 1) * idxLen < len
  {
    hide FindSuitablePartitions, Suitable, CeilDiv, RoundDiv;
    var c := SuitablePartitions(len, partition);
    var n := FindSuitablePartitions(len, partition);
    var q := RoundDiv(len, n);
    assert 2 * n * q == 2 * (n * q);
    RoundedCover(len, n, c, q, n * c, n * q);
  }

  lemma SprayMakesFamily(t: seq<Image>, left: seq<seq<Pair>>, s: seq<Pair>, begin: int, end: int, idxLen: nat)
    requires idxLen > 0 && |t| == |left| > 0 && forall x :: x in s && x.perm != DUMMY ==> begin <= x.perm < end
    requires begin + (|t| - 1) * idxLen < end
    requires forall b :: 0 <= b < |t| ==>
      && t[b].begin == BucketBegin(begin, idxLen, b) && t[b].end == BucketEnd(begin, end, idxLen, |t|, b)
      && Filled(t[b].pairs, left[b], Select(s, begin, idxLen, |t|, b))
    ensures Family(t, begin, end) && Collected(t) + LeftOvers(left) == multiset(Reals(s))
  {
    hide Select, Filled, Reals, BucketEnd, Tiles, InRange, Collected, Shares, LeftOvers;
    SprayTiles(t, begin, end, idxLen, 0);
    SprayInRange(t, left, s, begin, end, idxLen);
    SprayCollects(t, left, s, begin, idxLen, |t|, |t|);
    SharesComplete(s, begin, idxLen, |t|);
    assert t[0..] == t && t[..|t|] == t && left[..|t|] == left;
  }

  /** How many ranges a range of the given length is split into. */
  function PartsOf(idxLen: nat, s: nat): nat
    requires idxLen > 0 && s > 0
  {
    FindSuitablePartitions(idxLen, Min(s, idxLen))
  }

  lemma PartsOfLarge(idxLen: nat, part: nat)
    requires 2 <= part <= idxLen
    ensures PartsOf(idxLen, part) >= 2
  {
    hide FindSuitablePartitions;
    RoundedRanges(idxLen, part);
  }

  // ----- when nothing is lost -----

  /** No two pairs have the same target index. */
  ghost predicate Injective(m: multiset<Pair>) {
    && (forall x :: x in m ==> m[x] == 1)
    && (forall x, y :: x in m && y in m && x.perm == y.perm ==> x == y)
  }

  lemma {:induction false} Pigeonhole(m: multiset<Pair>, lo: int, hi: int)
    requires Injective(m) && lo <= hi && forall x :: x in m ==> lo <= x.perm < hi
    ensures |m| <= hi - lo
    decreases hi - lo
  {
    if m != multiset{} {
      var any :| any in m;
      if x: Pair :| x in m && x.perm == hi - 1 {
        var rest := m - multiset{x};
        assert forall y :: y in rest ==> y in m && y != x && rest[y] == m[y];
        Pigeonhole(rest, lo, hi - 1);
      } else {
        Pigeonhole(m, lo, hi - 1);
      }
    }
  }

  /** One pair for every index of the range. */
  ghost predicate Exact(i: Image) {
    |Reals(i.pairs)| == i.end - i.begin && Injective(multiset(Reals(i.pairs)))
  }

  /** End of the ranges of the first k of n buckets. */
  function RangesEnd(begin: int, end: int, idxLen: nat, n: nat, k: nat): int {
    if k == n then end else BucketBegin(begin, idxLen, k)
  }

  lemma SharesSub(s: seq<Pair>, begin: int, idxLen: nat, n: nat, k: nat, b: nat)
    requires idxLen > 0 && b < k
    ensures multiset(Select(s, begin, idxLen, n, b)) <= Shares(s, begin, idxLen, n, k)
  {
    if b < k - 1 {
      SharesSub(s, begin, idxLen, n, k - 1, b);
    }
  }

  /** A share has at most one pair for every index of its range. */
  lemma ShareBound(s: seq<Pair>, begin: int, end: int, idxLen: nat, n: nat, b: nat)
    requires idxLen > 0 && b < n && begin + (n - 1) * idxLen < end
    requires Injective(multiset(Reals(s))) && forall x :: x in s && x.perm != DUMMY ==> begin <= x.perm < end
    ensures RangesEnd(begin, end, idxLen, n, b) < RangesEnd(begin, end, idxLen, n, b + 1)
    ensures Injective(multiset(Select(s, begin, idxLen, n, b)))
    ensures |Select(s, begin, idxLen, n, b)| <= RangesEnd(begin, end, idxLen, n, b + 1) - RangesEnd(begin, end, idxLen, n, b)
  {
    hide Select, Reals, BucketIndex, Shares;
    var share := Select(s, begin, idxLen, n, b);
    SharesComplete(s, begin, idxLen, n);
    SharesSub(s, begin, idxLen, n, n, b);
    SelectElements(s, begin, idxLen, n, b);
    assert (b + 1) * idxLen == b * idxLen + idxLen;
    forall x: Pair | x in multiset(share)
      ensures RangesEnd(begin, end, idxLen, n, b) <= x.perm < RangesEnd(begin, end, idxLen, n, b + 1)
    {
      BucketOfIndex(x.perm, begin, end, idxLen, n, b);
    }
    Pigeonhole(multiset(share), RangesEnd(begin, end, idxLen, n, b), RangesEnd(begin, end, idxLen, n, b + 1));
  }

  /** The indices without a pair add up over the ranges. */
  lemma {:induction false} GapsGrow(s: seq<Pair>, begin: int, end: int, idxLen: nat, n: nat, j: nat, k: nat)
    requires idxLen > 0 && n > 0 && j <= k <= n && begin + (n - 1) * idxLen < end
    requires Injective(multiset(Reals(s))) && forall x :: x in s && x.perm != DUMMY ==> begin <= x.perm < end
    ensures RangesEnd(begin, end, idxLen, n, j) - |Shares(s, begin, idxLen, n, j)|
         <= RangesEnd(begin, end, idxLen, n, k) - |Shares(s, begin, idxLen, n, k)|
  {
    hide RangesEnd, Select, Reals;
    if j < k {
      GapsGrow(s, begin, end, idxLen, n, j, k - 1);
      ShareBound(s, begin, end, idxLen, n, k - 1);
      assert |multiset(Select(s, begin, idxLen, n, k - 1))| == |Select(s, begin, idxLen, n, k - 1)|;
    }
  }

  /** The shares of an exact bucket are exact. */
  lemma ExactShare(s: seq<Pair>, begin: int, end: int, idxLen: nat, n: nat, b: nat)
    requires idxLen > 0 && b < n && begin + (n - 1) * idxLen < end && Exact(Image(begin, end, s))
    requires forall x :: x in s && x.perm != DUMMY ==> begin <= x.perm < end
    ensures |Select(s, begin, idxLen, n, b)| == RangesEnd(begin, end, idxLen, n, b + 1) - RangesEnd(begin, end, idxLen, n, b)
    ensures Injective(multiset(Select(s, begin, idxLen, n, b)))
  {
    hide Select, Reals, Injective;
    ShareBound(s, begin, end, idxLen, n, b);
    SharesComplete(s, begin, idxLen, n);
    GapsGrow(s, begin, end, idxLen, n, 0, b);
    GapsGrow(s, begin, end, idxLen, n, b, b + 1);
    GapsGrow(s, begin, end, idxLen, n, b + 1, n);
    assert |multiset(Reals(s))| == |Reals(s)|;
    assert |multiset(Select(s, begin, idxLen, n, b))| == |Select(s, begin, idxLen, n, b)|;
  }

  lemma {:induction false} LeftOversNone(left: seq<seq<Pair>>)
    ensures LeftOvers(left) == multiset{} <==> forall b :: 0 <= b < |left| ==> left[b] == []
  {
    if left != [] {
      var rest, last := left[..|left| - 1], left[|left| - 1];
      LeftOversNone(rest);
      assert |LeftOvers(left)| == |LeftOvers(rest)| + |last|;
      assert left == rest + [last];
    }
  }

  /** Do the ranges that an interval of length r is split into fit buckets of length l? */
  predicate RangesFit(r: nat, n: nat, l: nat)
    requires n > 0
  {
    RoundDiv(r, n) <= l && r - (n - 1) * RoundDiv(r, n) <= l
  }

  /** Length of range b of n. */
  function RangeSize(r: int, idxLen: nat, n: nat, b: nat): int {
    if b == n - 1 then r - (n - 1) * idxLen else idxLen
  }

  lemma RangeSizeIs(begin: int, end: int, idxLen: nat, n: nat, b: nat)
    requires b < n
    ensures RangesEnd(begin, end, idxLen, n, b + 1) - RangesEnd(begin, end, idxLen, n, b) == RangeSize(end - begin, idxLen, n, b)
    ensures BucketEnd(begin, end, idxLen, n, b) - BucketBegin(begin, idxLen, b) == RangeSize(end - begin, idxLen, n, b)
  {
    assert (b + 1) * idxLen == b * idxLen + idxLen;
  }

  /** One bucket of a spray of an exact bucket. */
  lemma PartExact(t: Image, left: seq<Pair>, s: seq<Pair>, begin: int, end: int, idxLen: nat, n: nat, b: nat)
    requires idxLen > 0 && b < n && begin + (n - 1) * idxLen < end && Exact(Image(begin, end, s))
    requires forall x :: x in s && x.perm != DUMMY ==> begin <= x.perm < end
    requires t.begin == BucketBegin(begin, idxLen, b) && t.end == BucketEnd(begin, end, idxLen, n, b)
    requires Filled(t.pairs, left, Select(s, begin, idxLen, n, b))
    ensures |left| == Max(0, RangeSize(end - begin, idxLen, n, b) - |t.pairs|)
    ensures left == [] ==> Exact(t)
  {
    hide Select, Reals, Injective, BucketBegin, BucketEnd, RangesEnd, RangeSize;
    ExactShare(s, begin, end, idxLen, n, b);
    RangeSizeIs(begin, end, idxLen, n, b);
    if left == [] {
      var share := Select(s, begin, idxLen, n, b);
      assert multiset(Reals(t.pairs)) == multiset(share);
      assert |multiset(Reals(t.pairs))| == |Reals(t.pairs)| && |multiset(share)| == |share|;
    }
  }

  /** A spray of an exact bucket loses nothing if and only if the ranges fit, and then its buckets are exact. */
  lemma SprayExact(t: seq<Image>, left: seq<seq<Pair>>, s: seq<Pair>, begin: int, end: int, idxLen: nat, l: nat)
    requires |t| == |left| >= 2 && begin < end && idxLen > 0 && begin + (|t| - 1) * idxLen < end
    requires idxLen == RoundDiv(end - begin, |t|) && Exact(Image(begin, end, s))
    requires forall x :: x in s && x.perm != DUMMY ==> begin <= x.perm < end
    requires forall b :: 0 <= b < |t| ==>
      && t[b].begin == BucketBegin(begin, idxLen, b) && t[b].end == BucketEnd(begin, end, idxLen, |t|, b) && |t[b].pairs| == l
      && Filled(t[b].pairs, left[b], Select(s, begin, idxLen, |t|, b))
    ensures LeftOvers(left) == multiset{} <==> RangesFit(end - begin, |t|, l)
    ensures LeftOvers(left) == multiset{} ==> forall b :: 0 <= b < |t| ==> Exact(t[b])
  {
    hide Select, Exact, RoundDiv, Filled, BucketBegin, BucketEnd, LeftOvers;
    var n := |t|;
    LeftOversNone(left);
    forall b: nat | b < n
      ensures |left[b]| == Max(0, RangeSize(end - begin, idxLen, n, b) - l) && (left[b] == [] ==> Exact(t[b]))
    {
      PartExact(t[b], left[b], s, begin, end, idxLen, n, b);
    }
    assert |left[0]| == Max(0, idxLen - l);
    assert |left[n - 1]| == Max(0, end - begin - (n - 1) * idxLen - l);
  }

  /** A spray cuts an interval of length r into n ranges, with buckets of length l. */
  ghost predicate Parts(t: seq<Image>, r: nat, n: nat, l: nat)
    requires n > 0
  {
    |t| == n && forall b :: 0 <= b < n ==> t[b].end - t[b].begin == RangeSize(r, RoundDiv(r, n), n, b) && |t[b].pairs| == l
  }

  /** Do all later splits of a range of length r with a bucket of length l fit?  A matter of arithmetic:
      neither the permutation nor the random choices come into it. */
  predicate SplitsFit(r: int, l: nat, part: nat, memCap: nat)
    requires 2 <= part <= memCap
    decreases r
  {
    r <= memCap ||
    (SmallerRanges(r, part);
     var n := PartsOf(r, part);
     var idxLen := RoundDiv(r, n);
     var l' := SprayLen(l, n, n);
     && RangesFit(r, n, l')
     && SplitsFit(idxLen, l', part, memCap)
     && SplitsFit(RangeSize(r, idxLen, n, n - 1), l', part, memCap))
  }

  /** Do the leaky sections open in which a range of length r is split further, and at last delivered?  The
      queues of a spray, and a range that is delivered, are nob arrays. */
  predicate SplitsOpen(r: int, part: nat, memCap: nat)
    requires 2 <= part <= memCap
    decreases r
  {
    if r <= memCap then r < 4880
    else
      SmallerRanges(r, part);
      var n := PartsOf(r, part);
      var idxLen := RoundDiv(r, n);
      && SprayWords(n, n) < 4800
      && SplitsOpen(idxLen, part, memCap)
      && SplitsOpen(RangeSize(r, idxLen, n, n - 1), part, memCap)
  }

  lemma SmallerRanges(r: nat, part: nat)
    requires 2 <= part <= r
    ensures var n := PartsOf(r, part);
      2 <= n && 1 <= RoundDiv(r, n) < r && 0 < RangeSize(r, RoundDiv(r, n), n, n - 1) < r
  {
    hide FindSuitablePartitions, RoundDiv;
    RoundedRanges(r, part);
    var n := PartsOf(r, part);
    Mul(RoundDiv(r, n), 1, n - 1);
    assert (n - 1) * RoundDiv(r, n) == RoundDiv(r, n) * (n - 1);
  }

  ghost predicate AllFit(s: seq<Image>, part: nat, memCap: nat)
    requires 2 <= part <= memCap
  {
    forall b :: 0 <= b < |s| ==> SplitsFit(s[b].end - s[b].begin, |s[b].pairs|, part, memCap)
  }

  ghost predicate AllOpen(s: seq<Image>, part: nat, memCap: nat)
    requires 2 <= part <= memCap
  {
    forall b :: 0 <= b < |s| ==> SplitsOpen(s[b].end - s[b].begin, part, memCap)
  }

  ghost predicate AllExact(s: seq<Image>) {
    forall b :: 0 <= b < |s| ==> Exact(s[b])
  }

  /** A step from family a to family c that loses `left`: it has opened its sections, and starting from exact
      buckets, all splits fit if and only if nothing is lost now and all splits still to come fit. */
  ghost predicate Progress(a: seq<Image>, c: seq<Image>, left: multiset<Pair>, part: nat, memCap: nat)
    requires 2 <= part <= memCap
  {
    && (AllOpen(a, part, memCap) <==> AllOpen(c, part, memCap))
    && (AllExact(a) ==>
      && (AllFit(a, part, memCap) <==> left == multiset{} && AllFit(c, part, memCap))
      && (left == multiset{} ==> AllExact(c)))
  }

  lemma ProgressSteps(a: seq<Image>, b: seq<Image>, c: seq<Image>, l1: multiset<Pair>, l2: multiset<Pair>, part: nat,
                      memCap: nat)
    requires 2 <= part <= memCap
    requires Progress(a, b, l1, part, memCap) && Progress(b, c, l2, part, memCap)
    ensures Progress(a, c, l1 + l2, part, memCap)
  {
    hide AllExact, AllFit, AllOpen;
    assert l1 + l2 == multiset{} <==> l1 == multiset{} && l2 == multiset{} by {
      assert |l1 + l2| == |l1| + |l2|;
    }
  }

  lemma ProgressReplace(s: seq<Image>, i: nat, t: seq<Image>, left: multiset<Pair>, part: nat, memCap: nat)
    requires 2 <= part <= memCap && i < |s| && Progress([s[i]], t, left, part, memCap)
    ensures Progress(s, s[..i] + t + s[i + 1..], left, part, memCap)
  {
    hide AllExact, AllFit, AllOpen;
    AllConcat(s[..i], [s[i]], part, memCap);
    AllConcat(s[..i] + [s[i]], s[i + 1..], part, memCap);
    AllConcat(s[..i], t, part, memCap);
    AllConcat(s[..i] + t, s[i + 1..], part, memCap);
    assert s == s[..i] + [s[i]] + s[i + 1..];
  }

  lemma AllConcat(a: seq<Image>, b: seq<Image>, part: nat, memCap: nat)
    requires 2 <= part <= memCap
    ensures AllFit(a + b, part, memCap) <==> AllFit(a, part, memCap) && AllFit(b, part, memCap)
    ensures AllExact(a + b) <==> AllExact(a) && AllExact(b)
    ensures AllOpen(a + b, part, memCap) <==> AllOpen(a, part, memCap) && AllOpen(b, part, memCap)
  {
    hide SplitsFit, Exact, SplitsOpen;
    assert forall i :: 0 <= i < |a| ==> (a + b)[i] == a[i];
    assert forall i :: 0 <= i < |b| ==> (a + b)[|a| + i] == b[i];
  }

  /** Splitting one bucket is such a step. */
  lemma SplitProgress(i: Image, t: seq<Image>, left: multiset<Pair>, n: nat, part: nat, memCap: nat)
    requires 2 <= part <= memCap < i.end - i.begin && n == PartsOf(i.end - i.begin, part) >= 2
    requires Parts(t, i.end - i.begin, n, SprayLen(|i.pairs|, n, n)) && SprayWords(n, n) < 4800
    requires Exact(i) ==> (left == multiset{} <==> RangesFit(i.end - i.begin, n, SprayLen(|i.pairs|, n, n)))
    requires Exact(i) ==> left == multiset{} ==> AllExact(t)
    ensures Progress([i], t, left, part, memCap)
  {
    hide Exact, PartsOf, SprayLen, RoundDiv, RangesFit;
    var r := i.end - i.begin;
    var l := SprayLen(|i.pairs|, n, n);
    PartsFit(t, r, n, l, part, memCap);
    assert [i][0] == i;
    assert AllOpen([i], part, memCap) <==> SplitsOpen(r, part, memCap);
    if AllExact([i]) {
      assert Exact([i][0]);
      assert AllFit([i], part, memCap) <==> SplitsFit(r, |i.pairs|, part, memCap);
    }
  }

  lemma PartsFit(t: seq<Image>, r: nat, n: nat, l: nat, part: nat, memCap: nat)
    requires 2 <= part <= memCap && 2 <= n && Parts(t, r, n, l)
    ensures AllFit(t, part, memCap) <==>
      SplitsFit(RoundDiv(r, n), l, part, memCap) && SplitsFit(RangeSize(r, RoundDiv(r, n), n, n - 1), l, part, memCap)
    ensures AllOpen(t, part, memCap) <==>
      SplitsOpen(RoundDiv(r, n), part, memCap) && SplitsOpen(RangeSize(r, RoundDiv(r, n), n, n - 1), part, memCap)
  {
    hide SplitsFit, SplitsOpen, RoundDiv;
    assert t[0].end - t[0].begin == RoundDiv(r, n);
    assert t[n - 1].end - t[n - 1].begin == RangeSize(r, RoundDiv(r, n), n, n - 1);
  }

  /** All of the above, for the buckets a spray returns. */
  lemma SprayMakesParts(t: seq<Image>, left: seq<seq<Pair>>, s: seq<Pair>, begin: int, end: int, idxLen: nat, l: nat)
    requires |t| == |left| >= 2 && begin < end && idxLen > 0 && begin + (|t| - 1) * idxLen < end
    requires idxLen == RoundDiv(end - begin, |t|)
    requires forall x :: x in s && x.perm != DUMMY ==> begin <= x.perm < end
    requires forall b :: 0 <= b < |t| ==>
      && t[b].begin == BucketBegin(begin, idxLen, b) && t[b].end == BucketEnd(begin, end, idxLen, |t|, b) && |t[b].pairs| == l
      && Filled(t[b].pairs, left[b], Select(s, begin, idxLen, |t|, b))
    ensures Parts(t, end - begin, |t|, l)
    ensures Exact(Image(begin, end, s)) ==>
      (LeftOvers(left) == multiset{} <==> RangesFit(end - begin, |t|, l)) && (LeftOvers(left) == multiset{} ==> AllExact(t))
  {
    hide Select, Exact, RoundDiv, Filled, BucketBegin, BucketEnd, LeftOvers, RangesFit, RangeSize;
    forall b: nat | b < |t| ensures t[b].end - t[b].begin == RangeSize(end - begin, idxLen, |t|, b) {
      RangeSizeIs(begin, end, idxLen, |t|, b);
    }
    if Exact(Image(begin, end, s)) {
      SprayExact(t, left, s, begin, end, idxLen, l);
    }
  }

  lemma ExactReordered(begin: int, end: int, s: seq<Pair>, t: seq<Pair>)
    requires multiset(Reals(s)) == multiset(Reals(t))
    ensures Exact(Image(begin, end, s)) <==> Exact(Image(begin, end, t))
  {
    hide Reals;
    assert |multiset(Reals(s))| == |Reals(s)| && |multiset(Reals(t))| == |Reals(t)|;
  }

  /** The first spray of an array of length len, and all sprays after it, are big enough. */
  predicate NothingOverflows(len: nat, s: nat, quota: nat, memCap: nat)
    requires 2 <= s <= memCap && s <= quota && 2 <= len
  {
    SmallerRanges(len, Min(quota, len));
    var n := FindSuitablePartitions(len, Min(quota, len));
    var idxLen := RoundDiv(len, n);
    var l := SprayLen(len, s, n);
    && RangesFit(len, n, l)
    && SplitsFit(idxLen, l, s, memCap)
    && SplitsFit(RangeSize(len, idxLen, n, n - 1), l, s, memCap)
  }

  /** All leaky sections open, those of the first spray and all after it. */
  predicate EverythingOpens(len: nat, s: nat, quota: nat, memCap: nat)
    requires 2 <= s <= memCap && s <= quota && 2 <= len
  {
    SmallerRanges(len, Min(quota, len));
    var n := FindSuitablePartitions(len, Min(quota, len));
    var idxLen := RoundDiv(len, n);
    && SprayWords(s, n) < 4800
    && SplitsOpen(idxLen, s, memCap)
    && SplitsOpen(RangeSize(len, idxLen, n, n - 1), s, memCap)
  }

  /** The first spray makes all ranges small. */
  predicate OneSpray(len: nat, quota: nat, memCap: nat)
    requires 2 <= quota && 2 <= len
  {
    SmallerRanges(len, Min(quota, len));
    var n := FindSuitablePartitions(len, Min(quota, len));
    RoundDiv(len, n) <= memCap && RangeSize(len, RoundDiv(len, n), n, n - 1) <= memCap
  }

  lemma OneSprayParts(t: seq<Image>, len: nat, quota: nat, l: nat, memCap: nat)
    requires 2 <= quota && 2 <= len && OneSpray(len, quota, memCap)
    requires Parts(t, len, FindSuitablePartitions(len, Min(quota, len)), l)
    ensures forall b :: 0 <= b < |t| ==> t[b].end - t[b].begin <= memCap
  {
    hide FindSuitablePartitions, RoundDiv;
  }

  // ----- an array that fits into the memory -----

  /** The ranges of the first spray are one or two indices long, and every bucket has a place for each. */
  lemma SmallArray(len: nat, s: nat, quota: nat)
    requires 2 <= len <= 2 * s && 2 <= s <= quota && s <= len
    ensures var n := FindSuitablePartitions(len, Min(quota, len));
      && 2 <= n && RoundDiv(len, n) <= 2 && RangeSize(len, RoundDiv(len, n), n, n - 1) <= 2
      && RangesFit(len, n, SprayLen(len, s, n))
  {
    hide FindSuitablePartitions, RoundDiv;
    var p := Min(quota, len);
    var n := FindSuitablePartitions(len, p);
    SmallParts(len, p);
    RoundIs(len, n, if p == len then 1 else 2);
  }

  lemma RoundIs(a: nat, b: nat, q: nat)
    requires b > 0 && 2 * b * q <= 2 * a + b < 2 * b * q + 2 * b
    ensures RoundDiv(a, b) == q
  {
    hide RoundDiv;
    var r := RoundDiv(a, b);
    Mul(2 * b, r + 1, q);
    Mul(2 * b, q + 1, r);
    Distributes(2 * b, r, 1);
    Distributes(2 * b, q, 1);
  }

  lemma SmallParts(len: nat, p: nat)
    requires 2 <= p <= len <= 2 * p
    ensures FindSuitablePartitions(len, p) == if p == len then len else (len + 1) / 2
  {
    hide CeilDiv;
    CeilDivLeast(len, p, 2);
    CeilDivPositive(len, p);
    CeilDivLeast(len, 2, (len + 1) / 2);
    CeilDivLeast(len, 1, len);
  }

  // ----- how long the queues get -----

  /** How many of the pairs read in rounds j to r - 1 go to bucket b. */
  function Arrivals(pairs: seq<Pair>, s: nat, begin: int, idxLen: nat, n: nat, b: int, j: nat, r: nat): nat
    requires idxLen > 0 && j <= r
  {
    Mul(s, j, r);
    |Select(pairs[Min(j * s, |pairs|)..Min(r * s, |pairs|)], begin, idxLen, n, b)|
  }

  lemma ArrivalsNext(pairs: seq<Pair>, s: nat, begin: int, idxLen: nat, n: nat, b: int, j: nat, r: nat)
    requires idxLen > 0 && j <= r
    ensures Arrivals(pairs, s, begin, idxLen, n, b, j, r + 1)
      == Arrivals(pairs, s, begin, idxLen, n, b, j, r) + |Select(RoundPairs(pairs, s, r), begin, idxLen, n, b)|
    ensures Arrivals(pairs, s, begin, idxLen, n, b, r, r) == 0
  {
    hide Select;
    Mul(s, j, r);
    assert (r + 1) * s == r * s + s;
    var from, to := Min(j * s, |pairs|), Min(r * s, |pairs|);
    assert pairs[from..Min((r + 1) * s, |pairs|)] == pairs[from..to] + RoundPairs(pairs, s, r);
    SelectConcat(pairs[from..to], RoundPairs(pairs, s, r), begin, idxLen, n, b);
    NothingSelected(pairs[to..to], begin, idxLen, n, b);
  }

  lemma NothingSelected(t: seq<Pair>, begin: int, idxLen: nat, n: nat, b: int)
    requires t == [] && idxLen > 0
    ensures Select(t, begin, idxLen, n, b) == []
  {}

  /** What waits for a bucket after r rounds: of the last rounds, whichever number of them makes it most, the arrivals less
      one for every round. */
  lemma {:induction false} Backlog(pairs: seq<Pair>, s: nat, begin: int, idxLen: nat, n: nat, b: int, r: nat) returns (j: nat)
    requires idxLen > 0
    ensures j <= r && |QueueAt(pairs, s, begin, idxLen, n, b, r)| == Arrivals(pairs, s, begin, idxLen, n, b, j, r) - (r - j)
    ensures forall i: nat :: i <= r ==>
      |QueueAt(pairs, s, begin, idxLen, n, b, r)| >= Arrivals(pairs, s, begin, idxLen, n, b, i, r) - (r - i)
  {
    hide Select, Arrivals, RoundPairs;
    j := r;
    ArrivalsNext(pairs, s, begin, idxLen, n, b, r, r);
    if r > 0 {
      var i := Backlog(pairs, s, begin, idxLen, n, b, r - 1);
      forall k: nat | k < r
        ensures Arrivals(pairs, s, begin, idxLen, n, b, k, r)
          == Arrivals(pairs, s, begin, idxLen, n, b, k, r - 1) + |Select(RoundPairs(pairs, s, r - 1), begin, idxLen, n, b)|
      {
        ArrivalsNext(pairs, s, begin, idxLen, n, b, k, r - 1);
      }
      if |QueueAt(pairs, s, begin, idxLen, n, b, r - 1)| + |Select(RoundPairs(pairs, s, r - 1), begin, idxLen, n, b)| > 0 {
        j := i;
      }
    }
  }

  // ----- when a spray cannot abort -----

  /** A round adds what it reads, at most. */
  lemma {:induction false} WaitingGrows(pairs: seq<Pair>, s: nat, begin: int, idxLen: nat, n: nat, r: nat, k: nat)
    requires idxLen > 0
    ensures WaitingAt(pairs, s, begin, idxLen, n, r + 1, k)
      <= WaitingAt(pairs, s, begin, idxLen, n, r, k) + |Shares(RoundPairs(pairs, s, r), begin, idxLen, n, k)|
  {
    hide Select, RoundPairs, WaitingAt, QueueAt, Shares;
    if k == 0 {
      NothingWaits(pairs, s, begin, idxLen, n, r + 1);
    } else {
      var share := Select(RoundPairs(pairs, s, r), begin, idxLen, n, k - 1);
      WaitingGrows(pairs, s, begin, idxLen, n, r, k - 1);
      OneMore(pairs, s, begin, idxLen, n, r, k - 1);
      OneMore(pairs, s, begin, idxLen, n, r + 1, k - 1);
      assert |multiset(share)| == |share|;
    }
  }

  lemma OneMore(pairs: seq<Pair>, s: nat, begin: int, idxLen: nat, n: nat, r: nat, k: nat)
    requires idxLen > 0
    ensures WaitingAt(pairs, s, begin, idxLen, n, r, k + 1)
      == WaitingAt(pairs, s, begin, idxLen, n, r, k) + |QueueAt(pairs, s, begin, idxLen, n, k, r)|
    ensures Shares(RoundPairs(pairs, s, r), begin, idxLen, n, k + 1)
      == Shares(RoundPairs(pairs, s, r), begin, idxLen, n, k) + multiset(Select(RoundPairs(pairs, s, r), begin, idxLen, n, k))
    ensures |QueueAt(pairs, s, begin, idxLen, n, k, r + 1)|
      <= |QueueAt(pairs, s, begin, idxLen, n, k, r)| + |Select(RoundPairs(pairs, s, r), begin, idxLen, n, k)|
  {
    hide Select, RoundPairs;
  }

  /** No more pairs wait than have been read. */
  lemma {:induction false} WaitingBound(pairs: seq<Pair>, s: nat, begin: int, idxLen: nat, n: nat, r: nat)
    requires idxLen > 0 && n > 0 && forall x :: x in pairs && x.perm != DUMMY ==> begin <= x.perm
    ensures WaitingAt(pairs, s, begin, idxLen, n, r, n) <= |Reals(pairs[..Min(r * s, |pairs|)])|
  {
    hide Reals, Select, Shares, WaitingAt, RoundPairs;
    if r == 0 {
      NothingWaits(pairs, s, begin, idxLen, n, n);
    } else {
      var round := RoundPairs(pairs, s, r - 1);
      RoundPrefix(pairs, s, r - 1);
      WaitingBound(pairs, s, begin, idxLen, n, r - 1);
      WaitingGrows(pairs, s, begin, idxLen, n, r - 1, n);
      SharesComplete(round, begin, idxLen, n);
      assert |multiset(Reals(round))| == |Reals(round)|;
      RealsConcat(pairs[..Min((r - 1) * s, |pairs|)], round);
    }
  }

  lemma RoundPrefix(pairs: seq<Pair>, s: nat, r: nat)
    ensures pairs[..Min((r + 1) * s, |pairs|)] == pairs[..Min(r * s, |pairs|)] + RoundPairs(pairs, s, r)
    ensures forall x :: x in RoundPairs(pairs, s, r) ==> x in pairs
  {
    assert (r + 1) * s == r * s + s;
  }

  lemma {:induction false} NothingWaits(pairs: seq<Pair>, s: nat, begin: int, idxLen: nat, n: nat, k: nat)
    requires idxLen > 0
    ensures WaitingAt(pairs, s, begin, idxLen, n, k, 0) == WaitingAt(pairs, s, begin, idxLen, n, 0, k) == 0
  {
    if k > 0 {
      NothingWaits(pairs, s, begin, idxLen, n, k - 1);
    }
  }

  /** With room for all pairs in the queues, a spray does not abort. */
  lemma RoomForEverything(pairs: seq<Pair>, s: nat, begin: int, idxLen: nat, n: nat)
    requires idxLen > 0 && n > 0 && forall x :: x in pairs && x.perm != DUMMY ==> begin <= x.perm
    requires |Reals(pairs)| <= 2 * s
    ensures NeverFull(pairs, s, begin, idxLen, n)
  {
    hide Reals, WaitingAt, RoundPairs;
    forall r: nat {:trigger RoundPairs(pairs, s, r)} | r * s < |pairs|
      ensures WaitingAt(pairs, s, begin, idxLen, n, r, n) + |Reals(RoundPairs(pairs, s, r))| <= 2 * s
    {
      var m := Min((r + 1) * s, |pairs|);
      WaitingBound(pairs, s, begin, idxLen, n, r);
      RoundPrefix(pairs, s, r);
      RealsConcat(pairs[..Min(r * s, |pairs|)], RoundPairs(pairs, s, r));
      RealsPrefix(pairs, 0, m, |pairs|);
      assert pairs[0..m] == pairs[..m] && pairs[0..|pairs|] == pairs;
    }
  }

  lemma {:induction false} AtMostOne(s: seq<Pair>, begin: int, idxLen: nat, n: nat, b: int)
    requires idxLen > 0
    requires forall i, j :: 0 <= i < j < |s| ==>
      BucketIndex(s[i].perm, begin, idxLen, n) != b || BucketIndex(s[j].perm, begin, idxLen, n) != b
    ensures |Select(s, begin, idxLen, n, b)| <= 1
  {
    hide BucketIndex;
    if s != [] {
      AtMostOne(s[..|s| - 1], begin, idxLen, n, b);
      SelectElements(s[..|s| - 1], begin, idxLen, n, b);
      var rest := Select(s[..|s| - 1], begin, idxLen, n, b);
      if rest != [] {
        assert rest[0] in rest;
      }
    }
  }

  /** No bucket receives two pairs in one round, except perhaps in the last. */
  ghost predicate Even(pairs: seq<Pair>, s: nat, begin: int, idxLen: nat, n: nat)
    requires idxLen > 0
  {
    forall r: nat, b: nat :: (r + 1) * s < |pairs| && b < n ==> |Select(RoundPairs(pairs, s, r), begin, idxLen, n, b)| <= 1
  }

  lemma {:induction false} NothingLeft(pairs: seq<Pair>, s: nat, begin: int, idxLen: nat, n: nat, r: nat, b: nat)
    requires idxLen > 0 && Even(pairs, s, begin, idxLen, n) && r * s < |pairs| && b < n
    ensures QueueAt(pairs, s, begin, idxLen, n, b, r) == []
  {
    hide Select, RoundPairs;
    if r > 0 {
      assert (r - 1) * s <= r * s by { Mul(s, r - 1, r); }
      NothingLeft(pairs, s, begin, idxLen, n, r - 1, b);
      assert |Select(RoundPairs(pairs, s, r - 1), begin, idxLen, n, b)| <= 1;
    }
  }

  lemma {:induction false} NobodyWaits(pairs: seq<Pair>, s: nat, begin: int, idxLen: nat, n: nat, r: nat, k: nat)
    requires idxLen > 0 && Even(pairs, s, begin, idxLen, n) && r * s < |pairs| && k <= n
    ensures WaitingAt(pairs, s, begin, idxLen, n, r, k) == 0
  {
    hide QueueAt, Even;
    if k > 0 {
      NobodyWaits(pairs, s, begin, idxLen, n, r, k - 1);
      NothingLeft(pairs, s, begin, idxLen, n, r, k - 1);
    }
  }

  lemma RoundLength(pairs: seq<Pair>, s: nat, r: nat)
    ensures |RoundPairs(pairs, s, r)| <= s
  {}

  /** A spray in which the pairs are spread like this does not abort. */
  lemma EvenSpray(pairs: seq<Pair>, s: nat, begin: int, idxLen: nat, n: nat)
    requires idxLen > 0 && Even(pairs, s, begin, idxLen, n)
    ensures NeverFull(pairs, s, begin, idxLen, n)
  {
    hide WaitingAt, Even, RoundPairs, Reals;
    forall r: nat {:trigger RoundPairs(pairs, s, r)} | r * s < |pairs|
      ensures WaitingAt(pairs, s, begin, idxLen, n, r, n) + |Reals(RoundPairs(pairs, s, r))| <= 2 * s
    {
      RoundLength(pairs, s, r);
      NobodyWaits(pairs, s, begin, idxLen, n, r, n);
    }
  }
}
