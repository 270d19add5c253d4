/** `cache_shuffle` of src/algo/cache_shuffle.cpp: spraying again until every range is small, then clean-up. */
module CacheShuffles {
  import opened Arithmetic
  import opened ShuffleBuckets
  import opened MelbourneShuffles
  import opened Sprays
  import opened BucketFamilies
  import opened SprayCourses

  /** A spray of a bucket whose range is split with `find_suitable_partitions`. */
  method SprayFamily(input: ShuffleBucket, s: nat, n: nat)
    returns (ok: bool, buckets: seq<ShuffleBucket>, ghost left: seq<seq<Pair>>)
    requires input.Valid() && 0 < input.len && 0 < s && 2 <= n
    requires input.beginIdx < input.endIdx && RoundDiv(input.endIdx - input.beginIdx, n) > 0
    requires forall x :: x in input.Pairs() && x.perm != DUMMY ==> input.beginIdx <= x.perm < input.endIdx
    ensures ok <==> SprayEnds(input.Pairs(), input.beginIdx, input.endIdx, s, n)
    ensures ok ==> |buckets| == n && Disjoint(buckets) && NonEmpty(buckets) && forall a :: a in Arrays(buckets) ==> fresh(a)
    ensures ok ==> SprayResult(Images(buckets), left, input.Pairs(), input.beginIdx, input.endIdx, s, n)
  {
    hide RoundDiv, Select, Filled, SprayLen, BucketBegin, BucketEnd, NeverFull;
    ok, buckets, left := Spray(input, s, n);
    if ok {
      SprayLenPositive(input.len, s, n);
    }
  }

  // ----- splitting the large buckets -----

  /** A large bucket is shuffled and sprayed again; the order is what the shuffle makes of its pairs. */
  method SplitBucket(bucket: ShuffleBucket, s: nat, ghost memCap: nat)
    returns (ok: bool, parts: seq<ShuffleBucket>, ghost order: seq<Pair>, ghost left: seq<seq<Pair>>)
    requires bucket.Valid() && 0 < bucket.len && 2 <= s <= memCap < bucket.endIdx - bucket.beginIdx
    requires forall x :: x in bucket.Pairs() && x.perm != DUMMY ==> bucket.beginIdx <= x.perm < bucket.endIdx
    modifies bucket.data
    ensures multiset(order) == old(multiset(bucket.Pairs()))
    ensures var q := PartsOf(bucket.endIdx - bucket.beginIdx, s);
      && (ok <==> SprayEnds(order, bucket.beginIdx, bucket.endIdx, q, q))
      && (ok ==> |parts| == q && Disjoint(parts) && NonEmpty(parts) && (forall a :: a in Arrays(parts) ==> fresh(a))
                 && SprayResult(Images(parts), left, order, bucket.beginIdx, bucket.endIdx, q, q))
    ensures ok ==> EvenRanges(Images(parts), bucket.beginIdx, bucket.endIdx, s)
  {
    hide FindSuitablePartitions, RoundDiv, SprayEnds, SprayResult, EvenRanges, Suitable;
    var idxLen := bucket.endIdx - bucket.beginIdx;
    RoundedRanges(idxLen, s);
    ghost var pairs := bucket.Pairs();
    bucket.Randomize();
    order := bucket.Pairs();
    RealsReordered(pairs, order);
    var q := FindSuitablePartitions(idxLen, Min(s, idxLen));
    ok, parts, left := SprayFamily(bucket, q, q);
    if ok {
      ResultRanges(Images(parts), left, order, bucket.beginIdx, bucket.endIdx, q, q, s);
    }
  }

  /** The size of the next generation of buckets. */
  ghost function NewLen(s: seq<Image>, part: nat, memCap: nat): nat
    requires part > 0
  {
    if s == [] then 0
    else
      var idxLen := s[|s| - 1].end - s[|s| - 1].begin;
      NewLen(s[..|s| - 1], part, memCap) + if idxLen <= memCap then 1 else PartsOf(idxLen, part)
  }

  lemma NewLenStep(s: seq<Image>, i: nat, part: nat, memCap: nat)
    requires part > 0 && i < |s|
    ensures var idxLen := s[i].end - s[i].begin;
      NewLen(s[..i + 1], part, memCap) == NewLen(s[..i], part, memCap) + if idxLen <= memCap then 1 else PartsOf(idxLen, part)
  {
    assert s[..i + 1][..i] == s[..i];
  }

  /** The first pass of a round: are all ranges small, and how many buckets will there be? */
  method Survey(temp: seq<ShuffleBucket>, part: nat, memCap: nat) returns (done: bool, newLen: nat)
    requires Disjoint(temp) && 2 <= part <= memCap
    ensures newLen == NewLen(Images(temp), part, memCap)
    ensures done <==> Small(Images(temp), memCap)
    ensures newLen >= |temp| && (!done ==> newLen > |temp|)
  {
    hide NewLen, PartsOf;
    ghost var s := Images(temp);
    done, newLen := true, 0;
    NewLenOfNone(s[..0], part, memCap);
    for i := 0 to |temp|
      invariant s == Images(temp) && newLen == NewLen(s[..i], part, memCap) && newLen >= i && (!done ==> newLen > i)
      invariant done <==> forall b :: 0 <= b < i ==> temp[b].endIdx - temp[b].beginIdx <= memCap
    {
      NewLenStep(s, i, part, memCap);
      var idxLen := temp[i].endIdx - temp[i].beginIdx;
      if idxLen <= memCap {
        newLen := newLen + 1;
      } else {
        PartsOfLarge(idxLen, part);
        done := false;
        newLen := newLen + PartsOf(idxLen, part);
      }
    }
    assert s[..|temp|] == s;
  }

  lemma NewLenOfNone(s: seq<Image>, part: nat, memCap: nat)
    requires part > 0 && s == []
    ensures NewLen(s, part, memCap) == 0
  {}

  ghost predicate NonEmpty(buckets: seq<ShuffleBucket>) {
    forall b :: 0 <= b < |buckets| ==> buckets[b].len > 0
  }

  lemma AtIndex(s: seq<ShuffleBucket>, i: nat)
    requires Disjoint(s) && NonEmpty(s) && i < |s|
    ensures s[i].Valid() && s[i].len > 0 && s[i].data in Arrays(s)
  {}

  lemma ConcatBuckets(a: seq<ShuffleBucket>, b: seq<ShuffleBucket>)
    requires Disjoint(a) && NonEmpty(a) && Disjoint(b) && NonEmpty(b) && Arrays(a) !! Arrays(b)
    ensures Disjoint(a + b) && NonEmpty(a + b) && Arrays(a + b) <= Arrays(a) + Arrays(b)
  {
    var t := a + b;
    forall i, j | 0 <= i < j < |t| ensures t[i].data != t[j].data {
      if j < |a| || |a| <= i {
      } else {
        assert t[i].data in Arrays(a) && t[j].data in Arrays(b);
      }
    }
  }

  lemma CutBuckets(s: seq<ShuffleBucket>, i: nat)
    requires Disjoint(s) && NonEmpty(s) && i < |s|
    ensures Disjoint(s[..i]) && NonEmpty(s[..i]) && Disjoint(s[i + 1..]) && NonEmpty(s[i + 1..])
    ensures Arrays(s[..i]) <= Arrays(s) && Arrays(s[i + 1..]) <= Arrays(s) && Arrays(s[..i]) !! Arrays(s[i + 1..])
  {}

  lemma SpliceBuckets(current: seq<ShuffleBucket>, i: nat, parts: seq<ShuffleBucket>)
    requires Disjoint(current) && NonEmpty(current) && i < |current| && Disjoint(parts) && NonEmpty(parts)
    requires Arrays(parts) !! Arrays(current)
    ensures var next := current[..i] + parts + current[i + 1..];
      Disjoint(next) && NonEmpty(next) && Arrays(next) <= Arrays(current) + Arrays(parts)
  {
    hide Disjoint, NonEmpty, Arrays;
    CutBuckets(current, i);
    ConcatBuckets(current[..i], parts);
    ConcatBuckets(current[..i] + parts, current[i + 1..]);
  }

  /** Bucket i of a family is split, and its parts take its place. */
  method SplitAt(ghost current: seq<ShuffleBucket>, ghost i: nat, bucket: ShuffleBucket, part: nat, ghost memCap: nat,
                 ghost f: seq<Image>, ghost log: seq<Split>, ghost lo: int, ghost hi: int)
    returns (ok: bool, parts: seq<ShuffleBucket>, ghost e: Split)
    requires Disjoint(current) && NonEmpty(current) && i < |current| && current[i] == bucket
    requires 2 <= part <= memCap < bucket.endIdx - bucket.beginIdx
    requires Family(f, lo, hi) && Course(f, log, part, memCap) && Images(current) == After(f, log)
    modifies bucket.data
    ensures if ok then Course(f, log + [e], part, memCap) else Stuck(After(f, log), e, part, memCap)
    ensures ok ==> |parts| == PartsOf(bucket.endIdx - bucket.beginIdx, part)
    ensures ok ==> var next := current[..i] + parts + current[i + 1..];
      && Disjoint(next) && NonEmpty(next) && (forall a :: a in Arrays(next) ==> a in Arrays(current) || fresh(a))
      && Images(next) == After(f, log + [e])
  {
    hide PartsOf, Family, NonEmpty, SprayEnds, SprayResult, Images, Course, After, LostIn, LeftOvers;
    AtIndex(current, i);
    ghost var images := Images(current);
    CourseFamily(f, log, part, memCap, lo, hi);
    FamilyAt(images, i, lo, hi);
    ghost var order, left;
    ok, parts, order, left := SplitBucket(bucket, part, memCap);
    e := Split(i, order, if ok then Images(parts) else [], left);
    CourseNext(f, log, e, part, memCap);
    if ok {
      SpliceBuckets(current, i, parts);
      SplicedImages(current, i, parts, images);
    }
  }

  lemma SplicedImages(current: seq<ShuffleBucket>, i: nat, parts: seq<ShuffleBucket>, images: seq<Image>)
    requires Disjoint(current) && Disjoint(parts) && i < |current| == |images|
    requires forall j :: 0 <= j < |current| && j != i ==> images[j] == ImageOf(current[j])
    requires Disjoint(current[..i] + parts + current[i + 1..])
    ensures Images(current[..i] + parts + current[i + 1..]) == images[..i] + Images(parts) + images[i + 1..]
  {
    hide ImageOf;
  }

  lemma MiddleOfConcat<T>(a: seq<T>, t: seq<T>, i: nat)
    requires i < |t|
    ensures (a + t[i..])[|a|] == t[i] && (a + t[i..])[..|a|] == a && (a + t[i..])[|a| + 1..] == t[i + 1..]
    ensures a + t[i..] == a + [t[i]] + t[i + 1..]
  {}

  /** The second pass of a round: small buckets are kept, large ones are split.  It goes on with the log of a run
      that began with family f, and ends when a spray aborts. */
  method SplitLarge(temp: seq<ShuffleBucket>, part: nat, memCap: nat, ghost f: seq<Image>, ghost done: seq<Split>, ghost lo: int,
                    ghost hi: int)
    returns (ok: bool, newTemp: seq<ShuffleBucket>, ghost log: seq<Split>, ghost failed: Split)
    requires Disjoint(temp) && NonEmpty(temp) && 2 <= part <= memCap
    requires Family(f, lo, hi) && Course(f, done, part, memCap) && Images(temp) == After(f, done)
    modifies Arrays(temp)
    ensures Course(f, log, part, memCap) && (!ok ==> Stuck(After(f, log), failed, part, memCap))
    ensures ok ==> Disjoint(newTemp) && NonEmpty(newTemp) && forall a :: a in Arrays(newTemp) ==> a in Arrays(temp) || fresh(a)
    ensures ok ==> Images(newTemp) == After(f, log) && |newTemp| == old(NewLen(Images(temp), part, memCap))
  {
    hide NewLen, PartsOf, Family, Disjoint, NonEmpty, Images, Arrays, Course, After, Stuck, Splits, Spliced;
    ghost var s := Images(temp);
    newTemp, log, failed := [], done, Split(0, [], [], []);
    ghost var current := temp;
    NewLenOfNone(s[..0], part, memCap);
    for i := 0 to |temp|
      invariant current == newTemp + temp[i..] && |newTemp| == NewLen(s[..i], part, memCap)
      invariant Disjoint(current) && NonEmpty(current) && forall a :: a in Arrays(current) ==> a in Arrays(temp) || fresh(a)
      invariant Course(f, log, part, memCap) && Images(current) == After(f, log)
    {
      var idxLen := temp[i].endIdx - temp[i].beginIdx;
      NewLenStep(s, i, part, memCap);
      MiddleOfConcat(newTemp, temp, i);
      if idxLen <= memCap {
        newTemp := newTemp + [temp[i]];
      } else {
        var parts: seq<ShuffleBucket>;
        ghost var e;
        ok, parts, e := SplitAt(current, |newTemp|, temp[i], part, memCap, f, log, lo, hi);
        if !ok {
          failed := e;
          return;
        }
        current, log := newTemp + parts + temp[i + 1..], log + [e];
        newTemp := newTemp + parts;
      }
    }
    assert current == newTemp && s[..|temp|] == s;
    ok := true;
  }

  lemma CourseFamily(f: seq<Image>, log: seq<Split>, part: nat, memCap: nat, lo: int, hi: int)
    requires 2 <= part <= memCap && Family(f, lo, hi) && Course(f, log, part, memCap)
    ensures Family(After(f, log), lo, hi)
  {
    hide Family, Course, After;
    CourseKeeps(f, log, part, memCap, lo, hi);
  }

  /** The re-spray loop.  Ranges never get empty, so there are at most hi - lo of them, and every
      round but the last makes at least one more: the loop ends, with small ranges or with a spray that aborts. */
  method Respray(temp0: seq<ShuffleBucket>, part: nat, memCap: nat, ghost lo: int, ghost hi: int)
    returns (ok: bool, temp: seq<ShuffleBucket>, ghost log: seq<Split>, ghost failed: Split)
    requires Disjoint(temp0) && NonEmpty(temp0) && 2 <= part <= memCap
    requires Family(Images(temp0), lo, hi)
    modifies Arrays(temp0)
    ensures Course(old(Images(temp0)), log, part, memCap)
    ensures ok <==> Small(After(old(Images(temp0)), log), memCap)
    ensures !ok <==> Stuck(After(old(Images(temp0)), log), failed, part, memCap)
    ensures ok ==> Disjoint(temp) && NonEmpty(temp) && forall a :: a in Arrays(temp) ==> a in Arrays(temp0) || fresh(a)
    ensures ok ==> Images(temp) == After(old(Images(temp0)), log)
  {
    hide NewLen, Family, NonEmpty, Course, After, Goes, AllFit, AllOpen;
    ghost var f := Images(temp0);
    temp, log, failed := temp0, [], Split(0, [], [], []);
    CourseNone(f, part, memCap);
    while true
      invariant Disjoint(temp) && NonEmpty(temp) && forall a :: a in Arrays(temp) ==> a in Arrays(temp0) || fresh(a)
      invariant Course(f, log, part, memCap) && Images(temp) == After(f, log)
      decreases hi - lo - |temp|
    {
      CourseFamily(f, log, part, memCap, lo, hi);
      FamilyCount(Images(temp), lo, hi);
      var done, newLen := Survey(temp, part, memCap);
      if done {
        SmallDone(After(f, log), part, memCap);
        break;
      }
      ok, temp, log, failed := SplitLarge(temp, part, memCap, f, log, lo, hi);
      if !ok {
        return;
      }
      CourseFamily(f, log, part, memCap, lo, hi);
      FamilyCount(Images(temp), lo, hi);
    }
    ok := true;
  }

  // ----- the whole shuffle -----

  /** ceil((1 + epsilon) * S) */
  function Quota(s: nat, epsilon: real): (q: nat)
    requires epsilon >= 0.0
    ensures q >= s && (q - 1) as real < (1.0 + epsilon) * s as real <= q as real
  {
    var x := (1.0 + epsilon) * s as real;
    assert x == s as real + epsilon * s as real;
    var f := x.Floor;
    if f as real == x then f else f + 1
  }

  /** What a run loses depends on the length, epsilon and the memory only: nothing, if and only if this holds. */
  predicate NoLoss(len: nat, epsilon: real, memCap: nat)
    requires 1 <= len && epsilon >= 0.0 && 4 <= memCap
  {
    var s := Min(len, memCap / 2);
    len == 1 || NothingOverflows(len, s, Quota(s, epsilon), memCap)
  }

  /** Every pair that was not lost is in some bucket, and no lost pair is. */
  lemma CollectedFromInput(s: seq<Image>, lost: multiset<Pair>, arrIn: seq<int>, permIn: seq<int>)
    requires |arrIn| == |permIn| && IsPermutation(permIn)
    requires Collected(s) + lost == multiset(Zip(arrIn, permIn))
    ensures forall b :: 0 <= b < |s| ==> FromInput(s[b].pairs, arrIn, permIn)
    ensures forall x :: x in Zip(arrIn, permIn) && x !in lost ==> exists b :: 0 <= b < |s| && x in s[b].pairs
    ensures forall b, x, y :: 0 <= b < |s| && x in s[b].pairs && x.perm != DUMMY && y in lost ==> x.perm != y.perm
  {
    hide Zip, IsPermutation, Collected;
    var input := Zip(arrIn, permIn);
    CollectedElements(s);
    forall b, x | 0 <= b < |s| && x in s[b].pairs && x.perm != DUMMY ensures x in input && x !in lost {
      assert x in Collected(s);
      assert x in multiset(input);
      ZipOnce(x, arrIn, permIn);
    }
    forall b, x, y | 0 <= b < |s| && x in s[b].pairs && x.perm != DUMMY && y in lost ensures x.perm != y.perm {
      assert y in multiset(input);
      if x.perm == y.perm {
        SameTarget(x, y, arrIn, permIn);
      }
    }
    forall x | x in input && x !in lost ensures exists b :: 0 <= b < |s| && x in s[b].pairs {
      assert x in multiset(input);
      assert x in Collected(s);
    }
  }

  lemma {:induction false} CollectedElements(s: seq<Image>)
    ensures forall b, x :: 0 <= b < |s| && x in s[b].pairs && x.perm != DUMMY ==> x in Collected(s)
    ensures forall x :: x in Collected(s) ==> exists b :: 0 <= b < |s| && x in s[b].pairs
  {
    hide Reals;
    if s != [] {
      var rest, last := s[..|s| - 1], s[|s| - 1];
      CollectedElements(rest);
      RealsElements(last.pairs);
      forall x | x in Collected(s) ensures exists b :: 0 <= b < |s| && x in s[b].pairs {
        if x in Collected(rest) {
          var b :| 0 <= b < |rest| && x in rest[b].pairs;
          assert x in s[b].pairs;
        } else {
          assert x in Reals(last.pairs);
          assert x in s[|s| - 1].pairs;
        }
      }
      forall b, x | 0 <= b < |s| && x in s[b].pairs && x.perm != DUMMY ensures x in Collected(s) {
        assert b < |s| - 1 ==> x in rest[b].pairs;
        assert b == |s| - 1 ==> x in Reals(last.pairs);
      }
    }
  }

  /** No pair occurs twice in the input. */
  lemma ZipOnce(x: Pair, arrIn: seq<int>, permIn: seq<int>)
    requires |arrIn| == |permIn| && IsPermutation(permIn) && x in Zip(arrIn, permIn)
    ensures multiset(Zip(arrIn, permIn))[x] == 1
  {
    hide IsPermutation;
    var s := Zip(arrIn, permIn);
    var i: nat :| i < |s| && s[i] == x;
    forall j | 0 <= j < |s| && j != i ensures s[j] != x {
      TargetsDiffer(permIn, i, j);
    }
    OccursOnce(s, i);
  }

  lemma TargetsDiffer(perm: seq<int>, i: nat, j: nat)
    requires IsPermutation(perm) && i < |perm| && j < |perm| && i != j
    ensures perm[i] != perm[j]
  {}

  lemma OccursOnce<T>(s: seq<T>, i: nat)
    requires i < |s| && forall j :: 0 <= j < |s| && j != i ==> s[j] != s[i]
    ensures multiset(s)[s[i]] == 1
  {
    var a, b := s[..i], s[i + 1..];
    assert s == a + [s[i]] + b;
    assert s[i] !in a && s[i] !in b;
  }

  /** The last phase: exactly the lost pairs are not delivered. */
  method DeliverFamily(temp: seq<ShuffleBucket>, arrOut: array<int>, ghost arrIn: seq<int>, ghost permIn: seq<int>,
                       ghost lost: multiset<Pair>)
    returns (ok: bool)
    requires Disjoint(temp) && NonEmpty(temp) && arrOut !in Arrays(temp) && arrOut.Length == |arrIn| == |permIn| && IsPermutation(permIn)
    requires Family(Images(temp), 0, arrOut.Length)
    requires Collected(Images(temp)) + lost == multiset(Zip(arrIn, permIn))
    modifies arrOut
    ensures ok <==> Small(Images(temp), 4879)
    ensures ok ==> forall x :: x in Zip(arrIn, permIn) ==>
      0 <= x.perm < arrOut.Length && arrOut[x.perm] == if x in lost then old(arrOut[x.perm]) else x.value
  {
    hide Zip, IsPermutation, Collected, Family, Delivered, FromInput;
    ghost var images, before := Images(temp), arrOut[..];
    CollectedFromInput(images, lost, arrIn, permIn);
    FamilyAll(images, 0, arrOut.Length);
    ok := Deliver(temp, arrOut, arrIn, permIn);
    if ok {
      assert forall b :: 0 <= b < |images| ==> images[b].pairs == temp[b].Pairs();
      DeliveredPairs(images, lost, before, arrOut[..], arrIn, permIn);
    }
  }

  lemma DeliveredPairs(s: seq<Image>, lost: multiset<Pair>, before: seq<int>, after: seq<int>, arrIn: seq<int>,
                       permIn: seq<int>)
    requires |before| == |after| == |arrIn| == |permIn| && IsPermutation(permIn)
    requires Collected(s) + lost == multiset(Zip(arrIn, permIn))
    requires forall b :: 0 <= b < |s| ==> Delivered(after, s[b].pairs)
    requires forall k :: 0 <= k < |before| && (forall b, x :: 0 <= b < |s| && x in s[b].pairs ==> x.perm != k) ==> after[k] == before[k]
    ensures forall x :: x in Zip(arrIn, permIn) ==>
      0 <= x.perm < |after| && after[x.perm] == if x in lost then before[x.perm] else x.value
  {
    hide Zip, IsPermutation, Collected;
    CollectedFromInput(s, lost, arrIn, permIn);
    forall x | x in Zip(arrIn, permIn)
      ensures 0 <= x.perm < |after| && after[x.perm] == if x in lost then before[x.perm] else x.value
    {
      ZipRange(x, arrIn, permIn);
      if x !in lost {
        var b :| 0 <= b < |s| && x in s[b].pairs;
      }
    }
  }

  /** How many ranges the first spray makes, and how long they are, but for the last. */
  function FirstParts(len: nat, quota: nat): nat
    requires 0 < len && 0 < quota
  {
    FindSuitablePartitions(len, Min(quota, len))
  }

  function FirstRange(len: nat, quota: nat): (idxLen: nat)
    requires 2 <= len && 2 <= quota
    ensures idxLen > 0
  {
    RoundedRanges(len, Min(quota, len));
    RoundDiv(len, FirstParts(len, quota))
  }

  ghost predicate FirstSprayEnds(pairs: seq<Pair>, s: nat, quota: nat)
    requires 2 <= |pairs| && 2 <= quota
  {
    SprayEnds(pairs, 0, |pairs|, s, FirstParts(|pairs|, quota))
  }

  /** What the first spray leaves behind is as the length, the memory and the number of ranges let expect. */
  ghost predicate Predicted(t: seq<Image>, left: multiset<Pair>, len: nat, s: nat, quota: nat, memCap: nat)
    requires 2 <= len && 2 <= s <= quota && s <= memCap
  {
    && (EverythingOpens(len, s, quota, memCap) ==> AllOpen(t, s, memCap))
    && (AllOpen(t, s, memCap) && SprayWords(s, FirstParts(len, quota)) < 4800 ==> EverythingOpens(len, s, quota, memCap))
    && (OneSpray(len, quota, memCap) ==> Small(t, memCap))
    && (left == multiset{} && AllFit(t, s, memCap) <==> NothingOverflows(len, s, quota, memCap))
    && (left == multiset{} ==> AllExact(t))
  }

  lemma FirstPrediction(t: seq<Image>, left: multiset<Pair>, len: nat, s: nat, quota: nat, memCap: nat)
    requires 2 <= len && 2 <= s <= quota && s <= memCap
    requires Parts(t, len, FirstParts(len, quota), SprayLen(len, s, FirstParts(len, quota)))
    requires left == multiset{} <==> RangesFit(len, FirstParts(len, quota), SprayLen(len, s, FirstParts(len, quota)))
    requires left == multiset{} ==> AllExact(t)
    ensures Predicted(t, left, len, s, quota, memCap)
  {
    hide FindSuitablePartitions, RoundDiv, AllExact, AllFit, RangesFit, Parts, SprayLen, SplitsFit, AllOpen, SplitsOpen, OneSpray;
    RoundedRanges(len, Min(quota, len));
    PartsFit(t, len, FirstParts(len, quota), SprayLen(len, s, FirstParts(len, quota)), s, memCap);
    if OneSpray(len, quota, memCap) {
      OneSprayParts(t, len, quota, SprayLen(len, s, FirstParts(len, quota)), memCap);
    }
  }

  /** The first spray: one bucket with all pairs. */
  method FirstSpray(arrIn: array<int>, permIn: array<int>, s: nat, quota: nat, ghost memCap: nat)
    returns (ok: bool, temp: seq<ShuffleBucket>, ghost left: seq<seq<Pair>>)
    requires 2 <= arrIn.Length == permIn.Length && IsPermutation(permIn[..])
    requires 2 <= s <= quota && s <= memCap
    ensures ok <==> FirstSprayEnds(Zip(arrIn[..], permIn[..]), s, quota)
    ensures ok ==> Disjoint(temp) && NonEmpty(temp) && forall a :: a in Arrays(temp) ==> fresh(a)
    ensures ok ==>
      SprayResult(Images(temp), left, Zip(arrIn[..], permIn[..]), 0, arrIn.Length, s, FirstParts(arrIn.Length, quota))
    ensures ok ==> EvenRanges(Images(temp), 0, arrIn.Length, Min(quota, arrIn.Length))
  {
    hide FindSuitablePartitions, RoundDiv, SprayEnds, SprayResult, NonEmpty, EvenRanges, Suitable;
    var len := arrIn.Length;
    var input := new ShuffleBucket.Of(arrIn, permIn, 0, len);
    assert input.Pairs() == Zip(arrIn[..], permIn[..]);
    forall x | x in input.Pairs() ensures 0 <= x.perm < len {
      ZipRange(x, arrIn[..], permIn[..]);
    }
    RoundedRanges(len, Min(quota, len));
    var n := FindSuitablePartitions(len, Min(quota, len));
    ok, temp, left := SprayFamily(input, s, n);
    if ok {
      ResultRanges(Images(temp), left, input.Pairs(), 0, len, s, n, Min(quota, len));
    }
  }

  /** What the first spray makes of a whole array. */
  lemma FirstFamily(t: seq<Image>, left: seq<seq<Pair>>, arrIn: seq<int>, permIn: seq<int>, s: nat, quota: nat, memCap: nat)
    requires 2 <= |arrIn| == |permIn| && IsPermutation(permIn) && 2 <= s <= quota && s <= memCap
    requires SprayResult(t, left, Zip(arrIn, permIn), 0, |arrIn|, s, FirstParts(|arrIn|, quota))
    ensures Family(t, 0, |arrIn|) && Collected(t) + LeftOvers(left) == multiset(Zip(arrIn, permIn))
    ensures Predicted(t, LeftOvers(left), |arrIn|, s, quota, memCap)
  {
    hide Family, Collected, FindSuitablePartitions, RoundDiv, Reals, Exact, AllExact, RangesFit, Parts, SprayLen, SprayResult,
         Predicted, LeftOvers, Zip, IsPermutation;
    var len, pairs := |arrIn|, Zip(arrIn, permIn);
    forall i | 0 <= i < |pairs| ensures 0 <= pairs[i].perm < len {
      ZipRange(pairs[i], arrIn, permIn);
    }
    RealsOfReals(pairs);
    RoundedRanges(len, Min(quota, len));
    InputExact(arrIn, permIn);
    ResultFamily(t, left, pairs, 0, len, s, FirstParts(len, quota));
    FirstPrediction(t, LeftOvers(left), len, s, quota, memCap);
  }

  lemma InputExact(arrIn: seq<int>, permIn: seq<int>)
    requires |arrIn| == |permIn| && IsPermutation(permIn)
    ensures Exact(Image(0, |arrIn|, Zip(arrIn, permIn)))
  {
    hide Zip, IsPermutation;
    var s := Zip(arrIn, permIn);
    forall i | 0 <= i < |s| ensures s[i].perm != DUMMY {
      ZipRange(s[i], arrIn, permIn);
    }
    RealsOfReals(s);
    forall x | x in multiset(s) ensures multiset(s)[x] == 1 {
      ZipOnce(x, arrIn, permIn);
    }
    forall x: Pair, y: Pair | x in multiset(s) && y in multiset(s) && x.perm == y.perm ensures x == y {
      SameTarget(x, y, arrIn, permIn);
    }
  }

  /** All leaky sections of a run open; a matter of the length, epsilon and the memory. */
  predicate RunOpens(len: nat, epsilon: real, memCap: nat)
    requires 1 <= len && epsilon >= 0.0 && 4 <= memCap
  {
    var s := Min(len, memCap / 2);
    len == 1 || EverythingOpens(len, s, Quota(s, epsilon), memCap)
  }

  /** The queues of the first spray never get full. */
  ghost predicate FirstSprayFits(pairs: seq<Pair>, epsilon: real, memCap: nat)
    requires 1 <= |pairs| && epsilon >= 0.0 && 4 <= memCap
  {
    var s := Min(|pairs|, memCap / 2);
    var quota := Quota(s, epsilon);
    |pairs| == 1 || NeverFull(pairs, s, 0, FirstRange(|pairs|, quota), FirstParts(|pairs|, quota))
  }

  /** No range has to be split after the first spray. */
  predicate SprayedOnce(len: nat, epsilon: real, memCap: nat)
    requires 1 <= len && epsilon >= 0.0 && 4 <= memCap
  {
    len == 1 || OneSpray(len, Quota(Min(len, memCap / 2), epsilon), memCap)
  }

  /** With twice as many pairs as a round reads, or fewer, nothing is sprayed twice, no queue gets full and
      nothing is lost. */
  lemma WithinMemory(pairs: seq<Pair>, epsilon: real, memCap: nat)
    requires 1 <= |pairs| <= 2 * (memCap / 2) && epsilon >= 0.0 && 4 <= memCap && forall x :: x in pairs ==> 0 <= x.perm
    ensures SprayedOnce(|pairs|, epsilon, memCap) && FirstSprayFits(pairs, epsilon, memCap) && NoLoss(|pairs|, epsilon, memCap)
  {
    hide Quota, FindSuitablePartitions, RoundDiv, NeverFull;
    var len := |pairs|;
    if len > 1 {
      var s := Min(len, memCap / 2);
      var quota := Quota(s, epsilon);
      SmallArray(len, s, quota);
      RoomForEverything(pairs, s, 0, FirstRange(len, quota), FirstParts(len, quota));
    }
  }

  /** What a run does: the buckets and left-overs of the first spray, the splits after it, and the last attempt. */
  datatype Trace = Trace(first: seq<Image>, left: seq<seq<Pair>>, log: seq<Split>, failed: Split)
  {
    function Last(): seq<Image> { After(first, log) }

    ghost function Lost(): multiset<Pair> { LeftOvers(left) + LostIn(log) }
  }

  /** The trace is that of a run on the given pairs. */
  ghost predicate Traced(tr: Trace, pairs: seq<Pair>, s: nat, quota: nat, memCap: nat) {
    && 2 <= |pairs| && 2 <= s <= memCap && 2 <= quota
    && SprayResult(tr.first, tr.left, pairs, 0, |pairs|, s, FirstParts(|pairs|, quota))
    && Course(tr.first, tr.log, s, memCap)
  }

  /** After the splits of the log there was a range too long, and its spray aborted. */
  ghost predicate GotStuck(tr: Trace, s: nat, memCap: nat) {
    2 <= s <= memCap && Stuck(tr.Last(), tr.failed, s, memCap)
  }

  /** For every permutation, every epsilon and every amount of memory: if the shuffle does not abort, it has
      sprayed until all ranges are small, and puts every element at its target index, but for the pairs
      that were left over in a spray.  There are none, and the whole array is permuted, if and only if all
      splits fit; that depends on the length, epsilon and the memory only.  It does not abort if and only if all leaky sections open, the queues of the first spray
      never get full, and no range of the run got stuck when it was sprayed again. */
  method CacheShuffle(arrIn: array<int>, permIn: array<int>, arrOut: array<int>, epsilon: real, memCap: nat)
    returns (ok: bool, ghost lost: multiset<Pair>, ghost tr: Trace)
    requires 1 <= arrIn.Length == permIn.Length == arrOut.Length && arrIn != arrOut && permIn != arrOut
    requires IsPermutation(permIn[..]) && epsilon >= 0.0 && 4 <= memCap
    modifies arrOut
    ensures ok <==>
      && RunOpens(arrIn.Length, epsilon, memCap) && FirstSprayFits(Zip(arrIn[..], permIn[..]), epsilon, memCap)
      && !GotStuck(tr, Min(arrIn.Length, memCap / 2), memCap)
    ensures
      && 2 <= arrIn.Length && RunOpens(arrIn.Length, epsilon, memCap)
      && FirstSprayFits(Zip(arrIn[..], permIn[..]), epsilon, memCap) ==>
        var s := Min(arrIn.Length, memCap / 2); Traced(tr, Zip(arrIn[..], permIn[..]), s, Quota(s, epsilon), memCap)
    ensures SprayedOnce(arrIn.Length, epsilon, memCap) ==> !GotStuck(tr, Min(arrIn.Length, memCap / 2), memCap)
    ensures arrIn.Length <= 2 * (memCap / 2) ==> (ok <==> RunOpens(arrIn.Length, epsilon, memCap))
    ensures ok ==> Small(tr.Last(), memCap) && lost == tr.Lost() && lost <= multiset(Zip(arrIn[..], permIn[..]))
    ensures ok ==> (lost == multiset{} <==> NoLoss(arrIn.Length, epsilon, memCap))
    ensures ok ==> forall i {:trigger permIn[i]} :: 0 <= i < arrIn.Length ==>
      arrOut[permIn[i]] == if Pair(arrIn[i], permIn[i]) in lost then old(arrOut[permIn[i]]) else arrIn[i]
  {
    hide Zip, Quota, NothingOverflows, EverythingOpens, OneSpray, FirstSprayEnds, SprayedOnce, FirstSprayFits, NoLoss, RunOpens,
         GotStuck, Traced;
    lost, tr := multiset{}, Trace([], [], [], Split(0, [], [], []));
    var len := arrIn.Length;
    ghost var a, perm := arrIn[..], permIn[..];
    ZipIndices(a, perm);
    if len <= 2 * (memCap / 2) {
      WithinMemory(Zip(a, perm), epsilon, memCap);
    }
    if len == 1 {
      OneElement(Zip(a, perm), epsilon, memCap);
      NotStuck(tr, 1, memCap);
      arrOut[0] := arrIn[0];
      return true, lost, tr;
    }
    var s := Min(len, memCap / 2);
    SeveralElements(Zip(a, perm), s, Quota(s, epsilon), epsilon, memCap);
    ok, lost, tr := SprayAndDeliver(arrIn, permIn, arrOut, s, Quota(s, epsilon), memCap);
  }

  lemma NotStuck(tr: Trace, s: nat, memCap: nat)
    requires tr == Trace([], [], [], tr.failed)
    ensures !GotStuck(tr, s, memCap) && tr.Lost() == multiset{} && Small(tr.Last(), memCap)
  {}

  /** A run with more than one element. */
  method SprayAndDeliver(arrIn: array<int>, permIn: array<int>, arrOut: array<int>, s: nat, quota: nat, memCap: nat)
    returns (ok: bool, ghost lost: multiset<Pair>, ghost tr: Trace)
    requires 2 <= arrIn.Length == permIn.Length == arrOut.Length && arrIn != arrOut && permIn != arrOut
    requires IsPermutation(permIn[..]) && 2 <= s <= quota && s <= memCap
    modifies arrOut
    ensures ok <==>
      && EverythingOpens(arrIn.Length, s, quota, memCap) && FirstSprayEnds(Zip(arrIn[..], permIn[..]), s, quota)
      && !GotStuck(tr, s, memCap)
    ensures FirstSprayEnds(Zip(arrIn[..], permIn[..]), s, quota) ==> Traced(tr, Zip(arrIn[..], permIn[..]), s, quota, memCap)
    ensures OneSpray(arrIn.Length, quota, memCap) ==> !GotStuck(tr, s, memCap)
    ensures ok ==> Small(tr.Last(), memCap) && lost == tr.Lost() && lost <= multiset(Zip(arrIn[..], permIn[..]))
    ensures ok ==> (lost == multiset{} <==> NothingOverflows(arrIn.Length, s, quota, memCap))
    ensures ok ==> forall i {:trigger permIn[i]} :: 0 <= i < arrIn.Length ==>
      arrOut[permIn[i]] == if Pair(arrIn[i], permIn[i]) in lost then old(arrOut[permIn[i]]) else arrIn[i]
  {
    hide Zip, Family, Collected, NonEmpty, NothingOverflows, AllFit, AllExact, AllOpen, EverythingOpens, OneSpray, FirstSprayEnds,
         Small, FirstParts, Course, After, Stuck, SprayResult, LeftOvers, LostIn, Predicted, GotStuck, Traced;
    ghost var a, perm := arrIn[..], permIn[..];
    lost, tr := multiset{}, Trace([], [], [], Split(0, [], [], []));
    NotStuck(tr, s, memCap);
    FirstEnds(Zip(a, perm), s, quota);
    var temp: seq<ShuffleBucket>;
    ghost var left, log, failed;
    ok, temp, left := FirstSpray(arrIn, permIn, s, quota, memCap);
    if !ok {
      return;
    }
    ghost var first := Images(temp);
    FirstFamily(first, left, a, perm, s, quota, memCap);
    ok, temp, log, failed := Respray(temp, s, memCap, 0, arrIn.Length);
    tr := Trace(first, left, log, failed);
    RunTraced(tr, a, perm, s, quota, memCap);
    if !ok {
      return;
    }
    lost := tr.Lost();
    ok := DeliverFamily(temp, arrOut, a, perm, lost);
    forall i | 0 <= i < arrIn.Length ensures Pair(a[i], perm[i]) in Zip(a, perm) {
      assert Zip(a, perm)[i] == Pair(a[i], perm[i]);
    }
  }

  /** What the trace of a run tells about its end. */
  lemma RunTraced(tr: Trace, arrIn: seq<int>, permIn: seq<int>, s: nat, quota: nat, memCap: nat)
    requires 2 <= |arrIn| == |permIn| && 2 <= s <= quota && s <= memCap
    requires SprayResult(tr.first, tr.left, Zip(arrIn, permIn), 0, |arrIn|, s, FirstParts(|arrIn|, quota))
    requires Course(tr.first, tr.log, s, memCap) && Family(tr.first, 0, |arrIn|)
    requires Collected(tr.first) + LeftOvers(tr.left) == multiset(Zip(arrIn, permIn))
    requires Predicted(tr.first, LeftOvers(tr.left), |arrIn|, s, quota, memCap)
    ensures Traced(tr, Zip(arrIn, permIn), s, quota, memCap)
    ensures GotStuck(tr, s, memCap) <==> Stuck(tr.Last(), tr.failed, s, memCap)
    ensures OneSpray(|arrIn|, quota, memCap) ==> !GotStuck(tr, s, memCap)
    ensures Small(tr.Last(), memCap) ==>
      && !GotStuck(tr, s, memCap)
      && Family(tr.Last(), 0, |arrIn|) && Collected(tr.Last()) + tr.Lost() == multiset(Zip(arrIn, permIn))
      && (SprayWords(s, FirstParts(|arrIn|, quota)) < 4800 ==>
            (EverythingOpens(|arrIn|, s, quota, memCap) <==> Small(tr.Last(), 4879)))
      && (tr.Lost() == multiset{} <==> NothingOverflows(|arrIn|, s, quota, memCap))
  {
    hide Zip, Family, Collected, NothingOverflows, AllFit, AllExact, AllOpen, EverythingOpens, OneSpray, FirstParts, Course, After,
         Stuck, SprayResult, LeftOvers, LostIn, Small;
    if Small(tr.first, memCap) {
      SmallCourse(tr.first, tr.log, s, memCap);
      CourseNone(tr.first, s, memCap);
    }
    if Small(tr.Last(), memCap) {
      CourseDone(tr.first, tr.log, s, memCap, 0, |arrIn|);
    }
  }

  lemma FirstEnds(pairs: seq<Pair>, s: nat, quota: nat)
    requires 2 <= |pairs| && 2 <= quota
    ensures FirstSprayEnds(pairs, s, quota) ==> SprayWords(s, FirstParts(|pairs|, quota)) < 4800
  {
    hide NeverFull;
  }

  lemma ZipIndices(a: seq<int>, perm: seq<int>)
    requires |a| == |perm| && IsPermutation(perm)
    ensures forall x :: x in Zip(a, perm) ==> 0 <= x.perm
  {
    hide Zip, IsPermutation;
    forall x | x in Zip(a, perm) ensures 0 <= x.perm {
      ZipRange(x, a, perm);
    }
  }

  lemma OneElement(pairs: seq<Pair>, epsilon: real, memCap: nat)
    requires 1 <= |pairs| && epsilon >= 0.0 && 4 <= memCap
    ensures |pairs| == 1 ==> RunOpens(1, epsilon, memCap) && FirstSprayFits(pairs, epsilon, memCap) && NoLoss(1, epsilon, memCap)
  {}

  /** The conditions of a run, in terms of what it computes first. */
  lemma SeveralElements(pairs: seq<Pair>, s: nat, quota: nat, epsilon: real, memCap: nat)
    requires 2 <= |pairs| && epsilon >= 0.0 && 4 <= memCap && s == Min(|pairs|, memCap / 2) && quota == Quota(s, epsilon)
    ensures var len := |pairs|;
      && (RunOpens(len, epsilon, memCap) <==> EverythingOpens(len, s, quota, memCap))
      && (SprayedOnce(len, epsilon, memCap) <==> OneSpray(len, quota, memCap))
      && (NoLoss(len, epsilon, memCap) <==> NothingOverflows(len, s, quota, memCap))
      && (FirstSprayEnds(pairs, s, quota) ==> FirstSprayFits(pairs, epsilon, memCap))
      && (EverythingOpens(len, s, quota, memCap) && FirstSprayFits(pairs, epsilon, memCap) ==> FirstSprayEnds(pairs, s, quota))
  {
    hide Quota, NeverFull, OneSpray, NothingOverflows, SplitsOpen, FindSuitablePartitions, RoundDiv;
  }

  /** Elements do get lost: with 17 elements, memory for 10 and epsilon 0 there are five ranges of
      rounded length 3, the last one has to take 5 pairs, and its bucket has 4 places. */
  lemma LossExample()
    ensures !NoLoss(17, 0.0, 10) && RunOpens(17, 0.0, 10) && SprayedOnce(17, 0.0, 10)
    ensures Quota(5, 0.0) == FirstParts(17, 5) == 5 && FirstRange(17, 5) == 3
  {
    assert Quota(5, 0.0) == 5;
    assert CeilDiv(17, 5) == 4 && CeilDiv(17, 4) == 5;
    assert RoundDiv(17, 5) == 3;
    assert !RangesFit(17, 5, 4);
  }

  /** A permutation of 17 elements that sends the five pairs of a round to five ranges. */
  function Spread(i: nat): nat {
    if i < 15 then 3 * (i % 5) + i / 5 else i
  }

  lemma SpreadFits(pairs: seq<Pair>)
    requires |pairs| == 17 && forall i :: 0 <= i < 17 ==> pairs[i].perm == Spread(i)
    ensures NeverFull(pairs, 5, 0, 3, 5)
  {
    hide Select, NeverFull;
    forall r: nat, b: nat | (r + 1) * 5 < 17 && b < 5 ensures |Select(RoundPairs(pairs, 5, r), 0, 3, 5, b)| <= 1 {
      var round := RoundPairs(pairs, 5, r);
      forall i | 0 <= i < |round| ensures BucketIndex(round[i].perm, 0, 3, 5) == i {
        assert round[i] == pairs[5 * r + i] && (5 * r + i) % 5 == i && (5 * r + i) / 5 == r;
      }
      AtMostOne(round, 0, 3, 5, b);
    }
    EvenSpray(pairs, 5, 0, 3, 5);
  }

  /** There is a run that ends and loses an element: it leaves some place of the output as it was. */
  method LossyRun(arrIn: array<int>, permIn: array<int>, arrOut: array<int>)
    returns (ok: bool, ghost lost: multiset<Pair>, ghost place: nat)
    requires arrIn.Length == permIn.Length == arrOut.Length == 17 && arrIn != arrOut && permIn != arrOut
    requires forall i :: 0 <= i < 17 ==> permIn[i] == Spread(i)
    modifies arrOut
    ensures ok && lost != multiset{} && place < 17 && arrOut[place] == old(arrOut[place])
  {
    hide Zip, NoLoss, RunOpens, SprayedOnce, NeverFull, Quota, FindSuitablePartitions;
    LossExample();
    ghost var pairs, perm := Zip(arrIn[..], permIn[..]), permIn[..];
    SpreadFits(pairs);
    ghost var tr;
    ok, lost, tr := CacheShuffle(arrIn, permIn, arrOut, 0.0, 10);
    ghost var x :| x in lost;
    assert x in multiset(pairs);
    ghost var i: nat :| i < 17 && pairs[i] == x;
    assert x == Pair(arrIn[i], perm[i]);
    place := permIn[i];
  }
}
