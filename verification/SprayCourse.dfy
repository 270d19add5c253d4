/** The course of a run of the cache shuffle, as values: which buckets were sprayed again, in which order
    their pairs were, and what became of them. */
module SprayCourses {
  import opened Arithmetic
  import opened ShuffleBuckets
  import opened Sprays
  import opened BucketFamilies

  // ----- one spray -----

  /** A spray of the pairs s, with target indices in [begin, end), into n parts in rounds of the given size
      does not abort. */
  ghost predicate SprayEnds(s: seq<Pair>, begin: int, end: int, round: nat, n: nat) {
    && begin < end && 0 < n && RoundDiv(end - begin, n) > 0
    && SprayWords(round, n) < 4800 && NeverFull(s, round, begin, RoundDiv(end - begin, n), n)
  }

  /** The buckets t are what such a spray makes, with the pairs `left` left over in the queues. */
  ghost predicate SprayResult(t: seq<Image>, left: seq<seq<Pair>>, s: seq<Pair>, begin: int, end: int, round: nat, n: nat) {
    && begin < end && 0 < round && 0 < n == |t| == |left| && RoundDiv(end - begin, n) > 0
    && var idxLen := RoundDiv(end - begin, n); forall b :: 0 <= b < n ==>
         && t[b].begin == BucketBegin(begin, idxLen, b) && t[b].end == BucketEnd(begin, end, idxLen, n, b)
         && |t[b].pairs| == SprayLen(|s|, round, n) && Filled(t[b].pairs, left[b], Select(s, begin, idxLen, n, b))
  }

  /** q is a / n, rounded to the nearest integer, halves up. */
  predicate Nearest(q: nat, a: int, n: nat) {
    2 * n * q <= 2 * a + n < 2 * n * q + 2 * n
  }

  /** Ranges of length q one after the other, but for the last one, which goes on to the end. */
  predicate Consecutive(t: seq<Image>, begin: int, end: int, q: nat) {
    forall b :: 0 <= b < |t| ==>
      t[b].begin == begin + b * q && t[b].end == if b == |t| - 1 then end else begin + (b + 1) * q
  }

  /** The range is split into a suitable number of parts of the rounded length. */
  ghost predicate EvenRanges(t: seq<Image>, begin: int, end: int, partition: nat) {
    && begin < end && Suitable(|t|, end - begin, partition)
    && exists q: nat :: Nearest(q, end - begin, |t|) && Consecutive(t, begin, end, q)
  }

  /** These are the ranges of a spray. */
  lemma ResultRanges(t: seq<Image>, left: seq<seq<Pair>>, s: seq<Pair>, begin: int, end: int, round: nat, n: nat, partition: nat)
    requires SprayResult(t, left, s, begin, end, round, n) && 0 < partition && n == FindSuitablePartitions(end - begin, partition)
    ensures EvenRanges(t, begin, end, partition)
  {
    hide FindSuitablePartitions, Suitable, RoundDiv, SprayLen, Filled, Select;
    var q := RoundDiv(end - begin, n);
    assert Nearest(q, end - begin, |t|) && Consecutive(t, begin, end, q);
  }

  /** Such buckets tile the range, and hold the pairs but for those left over. */
  lemma ResultFamily(t: seq<Image>, left: seq<seq<Pair>>, s: seq<Pair>, begin: int, end: int, round: nat, n: nat)
    requires SprayResult(t, left, s, begin, end, round, n) && 2 <= n && (n - 1) * RoundDiv(end - begin, n) < end - begin
    requires forall x :: x in s && x.perm != DUMMY ==> begin <= x.perm < end
    ensures Family(t, begin, end) && Collected(t) + LeftOvers(left) == multiset(Reals(s))
    ensures Parts(t, end - begin, n, SprayLen(|s|, round, n))
    ensures Exact(Image(begin, end, s)) ==>
      && (LeftOvers(left) == multiset{} <==> RangesFit(end - begin, n, SprayLen(|s|, round, n)))
      && (LeftOvers(left) == multiset{} ==> AllExact(t))
  {
    hide RoundDiv, Select, Filled, Reals, SprayLen, BucketBegin, BucketEnd, Family, Collected, Exact, AllExact, RangesFit,
         Parts, LeftOvers;
    var idxLen := RoundDiv(end - begin, n);
    SprayMakesFamily(t, left, s, begin, end, idxLen);
    SprayMakesParts(t, left, s, begin, end, idxLen, SprayLen(|s|, round, n));
  }

  lemma {:induction false} RealsCount(s: seq<Pair>)
    ensures forall x :: multiset(Reals(s))[x] == if x.perm != DUMMY then multiset(s)[x] else 0
  {
    if s != [] {
      RealsCount(s[..|s| - 1]);
      assert s == s[..|s| - 1] + [s[|s| - 1]];
    }
  }

  lemma RealsReordered(s: seq<Pair>, t: seq<Pair>)
    requires multiset(s) == multiset(t)
    ensures multiset(Reals(s)) == multiset(Reals(t)) && |s| == |t| && forall x :: x in t ==> x in s
  {
    hide Reals;
    RealsCount(s);
    RealsCount(t);
    assert |multiset(s)| == |s| && |multiset(t)| == |t|;
    forall x | x in t ensures x in s {
      assert x in multiset(t);
    }
  }

  // ----- families and the steps of a run -----

  /** All ranges have at most the given length. */
  ghost predicate Small(s: seq<Image>, bound: nat) {
    forall b :: 0 <= b < |s| ==> s[b].end - s[b].begin <= bound
  }

  lemma FamilyAt(s: seq<Image>, i: nat, lo: int, hi: int)
    requires Family(s, lo, hi) && i < |s|
    ensures lo <= s[i].begin < s[i].end <= hi
    ensures forall x :: x in s[i].pairs && x.perm != DUMMY ==> s[i].begin <= x.perm < s[i].end
  {
    TilesAt(s, lo, hi, i);
  }

  lemma FamilyAll(s: seq<Image>, lo: int, hi: int)
    requires Family(s, lo, hi)
    ensures forall b :: 0 <= b < |s| ==> lo <= s[b].begin <= s[b].end <= hi
    ensures forall b, x :: 0 <= b < |s| && x in s[b].pairs && x.perm != DUMMY ==> s[b].begin <= x.perm < s[b].end
  {
    hide Tiles;
    forall b: nat | b < |s| ensures lo <= s[b].begin <= s[b].end <= hi {
      FamilyAt(s, b, lo, hi);
    }
  }

  lemma FamilyCount(s: seq<Image>, lo: int, hi: int)
    requires Family(s, lo, hi)
    ensures |s| <= hi - lo
  {
    TilesCount(s, lo, hi);
  }

  /** A bucket is sprayed again: its place in the family, its pairs in the order the random numbers gave them,
      the buckets and the left-overs of the spray. */
  datatype Split = Split(at: nat, order: seq<Pair>, parts: seq<Image>, left: seq<seq<Pair>>)

  /** The bucket has a range that is too long, and its pairs have been reordered. */
  ghost predicate Attempt(f: seq<Image>, e: Split, memCap: nat) {
    e.at < |f| && memCap < f[e.at].end - f[e.at].begin && multiset(e.order) == multiset(f[e.at].pairs)
  }

  /** The spray of that bucket does not abort. */
  ghost predicate Goes(f: seq<Image>, e: Split, part: nat)
    requires e.at < |f| && 0 < part && f[e.at].begin < f[e.at].end
  {
    var q := PartsOf(f[e.at].end - f[e.at].begin, part);
    SprayEnds(e.order, f[e.at].begin, f[e.at].end, q, q)
  }

  ghost predicate Stuck(f: seq<Image>, e: Split, part: nat, memCap: nat)
    requires 2 <= part <= memCap
  {
    Attempt(f, e, memCap) && !Goes(f, e, part)
  }

  ghost predicate Splits(f: seq<Image>, e: Split, part: nat, memCap: nat)
    requires 2 <= part <= memCap
  {
    && Attempt(f, e, memCap) && Goes(f, e, part)
    && var q := PartsOf(f[e.at].end - f[e.at].begin, part);
         SprayResult(e.parts, e.left, e.order, f[e.at].begin, f[e.at].end, q, q)
  }

  /** The parts take the place of the bucket. */
  function Spliced(f: seq<Image>, e: Split): seq<Image> {
    if e.at < |f| then f[..e.at] + e.parts + f[e.at + 1..] else f
  }

  /** The family after all splits of a run. */
  function After(f: seq<Image>, log: seq<Split>): seq<Image> {
    if log == [] then f else Spliced(After(f, log[..|log| - 1]), log[|log| - 1])
  }

  /** The pairs left over in all of them. */
  ghost function LostIn(log: seq<Split>): multiset<Pair> {
    if log == [] then multiset{} else LostIn(log[..|log| - 1]) + LeftOvers(log[|log| - 1].left)
  }

  /** Every split of the log was made in the family that the splits before it had left. */
  ghost predicate Course(f: seq<Image>, log: seq<Split>, part: nat, memCap: nat)
    requires 2 <= part <= memCap
  {
    log == [] || (
      && Course(f, log[..|log| - 1], part, memCap)
      && Splits(After(f, log[..|log| - 1]), log[|log| - 1], part, memCap))
  }

  lemma CourseNone(f: seq<Image>, part: nat, memCap: nat)
    requires 2 <= part <= memCap
    ensures Course(f, [], part, memCap) && After(f, []) == f && LostIn([]) == multiset{}
  {}

  lemma CourseNext(f: seq<Image>, log: seq<Split>, e: Split, part: nat, memCap: nat)
    requires 2 <= part <= memCap && Course(f, log, part, memCap)
    ensures After(f, log + [e]) == Spliced(After(f, log), e) && LostIn(log + [e]) == LostIn(log) + LeftOvers(e.left)
    ensures Splits(After(f, log), e, part, memCap) ==> Course(f, log + [e], part, memCap)
  {
    assert (log + [e])[..|log|] == log;
  }

  // ----- what every run keeps -----

  /** Family t is what has become of family s, but for the pairs `left`. */
  ghost predicate Underway(s: seq<Image>, t: seq<Image>, left: multiset<Pair>, part: nat, memCap: nat, lo: int, hi: int)
    requires 2 <= part <= memCap
  {
    Family(t, lo, hi) && Collected(t) + left == Collected(s) && Progress(s, t, left, part, memCap)
  }

  lemma ProgressNone(s: seq<Image>, part: nat, memCap: nat)
    requires 2 <= part <= memCap
    ensures Progress(s, s, multiset{}, part, memCap)
  {}

  /** A split keeps the tiling, the ranges and all pairs but its left-overs, and the arithmetic of the ranges
      tells what is left over. */
  lemma SplitKeeps(f: seq<Image>, e: Split, part: nat, memCap: nat, lo: int, hi: int)
    requires 2 <= part <= memCap && Family(f, lo, hi) && Splits(f, e, part, memCap)
    ensures Underway(f, Spliced(f, e), LeftOvers(e.left), part, memCap, lo, hi)
  {
    hide FindSuitablePartitions, RoundDiv, Reals, Family, Collected, Exact, AllExact, RangesFit, Parts, Progress, SprayLen,
         SprayResult, LeftOvers, NeverFull;
    var i := f[e.at];
    var r := i.end - i.begin;
    var q := PartsOf(r, part);
    var l := SprayLen(|e.order|, q, q);
    FamilyAt(f, e.at, lo, hi);
    RoundedRanges(r, part);
    RealsReordered(i.pairs, e.order);
    ExactReordered(i.begin, i.end, i.pairs, e.order);
    ResultFamily(e.parts, e.left, e.order, i.begin, i.end, q, q);
    ReplaceInFamily(f, e.at, e.parts, lo, hi, LeftOvers(e.left));
    SplitProgress(i, e.parts, LeftOvers(e.left), q, part, memCap);
    ProgressReplace(f, e.at, e.parts, LeftOvers(e.left), part, memCap);
  }

  /** Whatever is split, and in whatever order: the family tiles the same interval and holds the same pairs but
      for the left-overs; which sections open and whether anything is lost was settled by the ranges of the first family. */
  lemma {:induction false} CourseKeeps(f: seq<Image>, log: seq<Split>, part: nat, memCap: nat, lo: int, hi: int)
    requires 2 <= part <= memCap && Family(f, lo, hi) && Course(f, log, part, memCap)
    ensures Underway(f, After(f, log), LostIn(log), part, memCap, lo, hi)
  {
    hide Family, Collected, Progress, Splits, Spliced;
    if log == [] {
      ProgressNone(f, part, memCap);
    } else {
      var rest, e := log[..|log| - 1], log[|log| - 1];
      CourseKeeps(f, rest, part, memCap, lo, hi);
      SplitKeeps(After(f, rest), e, part, memCap, lo, hi);
      ProgressSteps(f, After(f, rest), After(f, log), LostIn(rest), LeftOvers(e.left), part, memCap);
    }
  }

  /** When all ranges are small there is nothing left to split. */
  lemma SmallDone(s: seq<Image>, part: nat, memCap: nat)
    requires 2 <= part <= memCap && Small(s, memCap)
    ensures AllFit(s, part, memCap) && (AllOpen(s, part, memCap) <==> Small(s, 4879))
    ensures forall e :: !Attempt(s, e, memCap)
  {}

  lemma {:induction false} SmallCourse(f: seq<Image>, log: seq<Split>, part: nat, memCap: nat)
    requires 2 <= part <= memCap && Small(f, memCap) && Course(f, log, part, memCap)
    ensures log == []
  {
    hide Goes, SprayResult;
    if log != [] {
      SmallCourse(f, log[..|log| - 1], part, memCap);
    }
  }

  /** A run that has ended with small ranges: its sections opened if and only if all sections do, and it lost
      nothing if and only if all splits fit. */
  lemma CourseDone(f: seq<Image>, log: seq<Split>, part: nat, memCap: nat, lo: int, hi: int)
    requires 2 <= part <= memCap && Family(f, lo, hi) && Course(f, log, part, memCap) && Small(After(f, log), memCap)
    ensures Family(After(f, log), lo, hi) && Collected(After(f, log)) + LostIn(log) == Collected(f)
    ensures AllOpen(f, part, memCap) <==> Small(After(f, log), 4879)
    ensures AllExact(f) ==> (LostIn(log) == multiset{} <==> AllFit(f, part, memCap))
    ensures forall e :: !Stuck(After(f, log), e, part, memCap)
  {
    hide Family, Collected, Course, After, LostIn, AllExact, AllFit, AllOpen, Small, Goes, Attempt;
    CourseKeeps(f, log, part, memCap, lo, hi);
    SmallDone(After(f, log), part, memCap);
  }

  /** If all sections open, a run gets stuck only because the queues of a spray get full. */
  lemma StuckFull(f: seq<Image>, log: seq<Split>, e: Split, part: nat, memCap: nat, lo: int, hi: int)
    requires 2 <= part <= memCap && Family(f, lo, hi) && Course(f, log, part, memCap) && AllOpen(f, part, memCap)
    requires Stuck(After(f, log), e, part, memCap)
    ensures var i := After(f, log)[e.at]; var q := PartsOf(i.end - i.begin, part);
      && 2 <= q && RoundDiv(i.end - i.begin, q) > 0
      && !NeverFull(e.order, q, i.begin, RoundDiv(i.end - i.begin, q), q)
  {
    hide Family, Collected, Course, After, NeverFull, FindSuitablePartitions, RoundDiv;
    CourseKeeps(f, log, part, memCap, lo, hi);
    var t := After(f, log);
    var r := t[e.at].end - t[e.at].begin;
    FamilyAt(t, e.at, lo, hi);
    RoundedRanges(r, part);
    assert SplitsOpen(r, part, memCap);
  }
}
