/** src/algo/shuffle_bucket.cpp: buckets of (value, perm) pairs, each with a range of target indices. */
module ShuffleBuckets {
  import opened Arithmetic
  import opened Utils

  /** ceil((double)a / b) */
  function CeilDiv(a: nat, b: nat): (q: nat)
    requires b > 0
    ensures b * q >= a && (q > 0 ==> b * (q - 1) < a)
  {
    var q := (a + b - 1) / b;
    assert b * q + (a + b - 1) % b == a + b - 1;
    assert q > 0 ==> b * (q - 1) == b * q - b;
    q
  }

  /** round((double)a / b): halves go away from zero */
  function RoundDiv(a: nat, b: nat): (q: nat)
    requires b > 0
    ensures 2 * b * q <= 2 * a + b < 2 * b * q + 2 * b
  {
    (2 * a + b) / (2 * b)
  }

  /** q is the least number of blocks of length c that cover len. */
  predicate LeastCover(q: nat, c: nat, len: nat) {
    0 < q && (q - 1) * c < len <= q * c
  }

  lemma LeastCoverUnique(q: nat, r: nat, c: nat, len: nat)
    requires LeastCover(q, c, len) && LeastCover(r, c, len)
    ensures q == r
  {
    Mul(c, q, r - 1);
    Mul(c, r, q - 1);
  }

  /** n parts are suitable: with the shortest blocks of which `partition` cover len, as few as cover it. */
  ghost predicate Suitable(n: nat, len: nat, partition: nat) {
    exists c: nat :: LeastCover(c, partition, len) && LeastCover(n, c, len)
  }

  /** That determines n. */
  lemma SuitableUnique(n: nat, m: nat, len: nat, partition: nat)
    requires Suitable(n, len, partition) && Suitable(m, len, partition)
    ensures n == m
  {
    hide LeastCover;
    var c: nat :| LeastCover(c, partition, len) && LeastCover(n, c, len);
    var d: nat :| LeastCover(d, partition, len) && LeastCover(m, d, len);
    LeastCoverUnique(c, d, partition, len);
    LeastCoverUnique(n, m, c, len);
  }

  function FindSuitablePartitions(len: nat, partition: nat): (n: nat)
    requires len > 0 && partition > 0
    ensures Suitable(n, len, partition) && n <= partition
  {
    PartitionsCover(len, partition);
    Min(partition, CeilDiv(len, CeilDiv(len, partition)))
  }

  lemma CeilDivCovers(a: nat, b: nat)
    requires a > 0 && b > 0
    ensures LeastCover(CeilDiv(a, b), b, a)
  {
    hide CeilDiv;
    CeilDivPositive(a, b);
    assert b * (CeilDiv(a, b) - 1) == (CeilDiv(a, b) - 1) * b && b * CeilDiv(a, b) == CeilDiv(a, b) * b;
  }

  lemma PartitionsCover(len: nat, partition: nat)
    requires len > 0 && partition > 0
    ensures var c := CeilDiv(len, partition); c > 0 && var n := CeilDiv(len, c);
      n <= partition && LeastCover(c, partition, len) && LeastCover(n, c, len)
  {
    hide CeilDiv;
    var c := CeilDiv(len, partition);
    CeilDivCovers(len, partition);
    CeilDivCovers(len, c);
    assert c * partition == partition * c;
    CeilDivLeast(len, c, partition);
  }

  lemma CeilDivLeast(a: nat, b: nat, q: nat)
    requires b > 0 && b * q >= a
    ensures CeilDiv(a, b) <= q
  {
    hide CeilDiv;
    if CeilDiv(a, b) > q {
      Mul(b, q, CeilDiv(a, b) - 1);
    }
  }

  lemma CeilDivPositive(a: nat, b: nat)
    requires a > 0 && b > 0
    ensures CeilDiv(a, b) >= 1
  {
    hide CeilDiv;
    assert b * CeilDiv(a, b) > 0;
    Mul(b, CeilDiv(a, b), 0);
  }

  /** The number of partitions is that of blocks of the least length c of which `partition` cover len, and
      splits for real. */
  lemma SuitablePartitions(len: nat, partition: nat) returns (c: nat)
    requires 2 <= partition <= len
    ensures var n := FindSuitablePartitions(len, partition);
      2 <= n <= partition && 1 <= c < len && LeastCover(c, partition, len) && LeastCover(n, c, len)
  {
    hide FindSuitablePartitions, LeastCover;
    var n := FindSuitablePartitions(len, partition);
    c :| LeastCover(c, partition, len) && LeastCover(n, c, len);
    SplitsForReal(len, partition, c, n);
  }

  lemma SplitsForReal(len: nat, partition: nat, c: nat, n: nat)
    requires 2 <= partition <= len && LeastCover(c, partition, len) && LeastCover(n, c, len)
    ensures 2 <= n && 1 <= c < len
  {
    Mul(partition, c - 1, len - 1);
    Mul(len - 1, 2, partition);
    if c >= len {
      Mul(partition, len - 1, c - 1);
    }
  }

  // ----- buckets -----

  datatype Pair = Pair(value: int, perm: int)

  const DUMMY: int := -1

  class ShuffleBucket {
    const len: nat
    const beginIdx: int
    const endIdx: int
    const data: array<int>  // [value, perm], ...

    ghost predicate Valid() {
      data.Length == 2 * len
    }

    ghost function Pairs(): (s: seq<Pair>)
      requires Valid()
      reads data
      ensures |s| == len
      ensures forall i :: 0 <= i < len ==> s[i] == Pair(data[2 * i], data[2 * i + 1])
    {
      seq(len, i requires 0 <= i < len && Valid() reads data => Pair(data[2 * i], data[2 * i + 1]))
    }

    method Put(i: nat, x: Pair)
      requires Valid() && i < len
      modifies data
      ensures Pairs() == old(Pairs())[i := x]
    {
      data[2 * i], data[2 * i + 1] := x.value, x.perm;
    }

    /** Exchanges two pairs. */
    method Swap(i: nat, j: nat)
      requires Valid() && i < len && j < len
      modifies data
      ensures Pairs() == old(Pairs())[i := old(Pairs())[j]][j := old(Pairs())[i]]
    {
      data[2 * i], data[2 * j] := data[2 * j], data[2 * i];
      data[2 * i + 1], data[2 * j + 1] := data[2 * j + 1], data[2 * i + 1];
    }

    /** `randomize_shuffle_bucket`, for any random numbers: some shuffle of the pairs, and it can be any. */
    method Randomize()
      requires Valid()
      modifies data
      ensures multiset(Pairs()) == old(multiset(Pairs()))
      ensures exists js :: Draws(js, len) && Pairs() == Shuffled(old(Pairs()), js)
    {
      hide Shuffled;
      ghost var before := Pairs();
      ghost var js: seq<nat> := [];
      ShuffledOnce(before);
      var i := 0;
      while i < len - 1
        invariant i == |js| <= Max(0, len - 1) && (forall k :: 0 <= k < i ==> js[k] < len)
        invariant Pairs() == Shuffled(before, js)
      {
        var j: nat :| j < len;
        Swap(i, j);
        NextSwap(before, js, j);
        js := js + [j];
        i := i + 1;
      }
      ShuffledKeeps(before, js);
    }

    /** `init_shuffle_bucket` */
    constructor Of(arr: array<int>, perm: array<int>, beginIdx: int, endIdx: int)
      requires arr.Length == perm.Length
      ensures Valid() && fresh(data) && this.len == arr.Length && this.beginIdx == beginIdx && this.endIdx == endIdx
      ensures forall i :: 0 <= i < arr.Length ==> Pairs()[i] == Pair(arr[i], perm[i])
    {
      this.len, this.beginIdx, this.endIdx := arr.Length, beginIdx, endIdx;
      data := new int[arr.Length * 2];
      new;
      for i := 0 to arr.Length
        invariant forall k :: 0 <= k < i ==> data[2 * k] == arr[k] && data[2 * k + 1] == perm[k]
      {
        data[2 * i] := arr[i];
        data[2 * i + 1] := perm[i];
      }
    }

    /** `init_empty_shuffle_bucket` */
    constructor Empty(len: nat, beginIdx: int, endIdx: int)
      ensures Valid() && fresh(data) && this.len == len && this.beginIdx == beginIdx && this.endIdx == endIdx
      ensures forall i :: 0 <= i < len ==> Pairs()[i].perm == DUMMY
    {
      this.len, this.beginIdx, this.endIdx := len, beginIdx, endIdx;
      data := new int[len * 2];
      new;
      for i := 0 to len
        invariant forall k :: 0 <= k < i ==> data[2 * k + 1] == DUMMY
      {
        data[2 * i + 1] := -1;
      }
    }
  }

  /** The bucket's arrays are valid and no two buckets share one. */
  ghost predicate Disjoint(buckets: seq<ShuffleBucket>) {
    && (forall b :: 0 <= b < |buckets| ==> buckets[b].Valid())
    && (forall a, b :: 0 <= a < b < |buckets| ==> buckets[a].data != buckets[b].data)
  }

  ghost function Arrays(buckets: seq<ShuffleBucket>): (s: set<array<int>>)
    ensures forall b :: 0 <= b < |buckets| ==> buckets[b].data in s
  {
    set b | 0 <= b < |buckets| :: buckets[b].data
  }

  /** First target index of bucket i of n. */
  function BucketBegin(begin: int, idxLen: nat, i: nat): int {
    begin + i * idxLen
  }

  lemma BucketBeginNext(begin: int, idxLen: nat, i: nat)
    ensures BucketBegin(begin, idxLen, 0) == begin
    ensures BucketBegin(begin, idxLen, i + 1) == BucketBegin(begin, idxLen, i) + idxLen
  {
    Distributes(idxLen, i, 1);
  }

  function BucketEnd(begin: int, end: int, idxLen: nat, n: nat, i: nat): int
    requires i < n
  {
    if i == n - 1 then end else BucketBegin(begin, idxLen, i + 1)
  }

  /** The bucket a target index goes to. */
  function BucketIndex(perm: int, begin: int, idxLen: nat, n: nat): int
    requires idxLen > 0
  {
    Min((perm - begin) / idxLen, n - 1)
  }

  /** A target index goes to the bucket whose range contains it, and to no other. */
  lemma BucketOfIndex(perm: int, begin: int, end: int, idxLen: nat, n: nat, i: nat)
    requires idxLen > 0 && i < n && begin <= perm < end
    ensures BucketIndex(perm, begin, idxLen, n) == i <==>
      BucketBegin(begin, idxLen, i) <= perm < BucketEnd(begin, end, idxLen, n, i)
    ensures 0 <= BucketIndex(perm, begin, idxLen, n) < n
  {
    var d := perm - begin;
    var q := d / idxLen;
    DivMod(d, idxLen);
    Distributes(idxLen, q, 1);
    Distributes(idxLen, i, 1);
    Mul(idxLen, q + 1, 0);
    Mul(idxLen, q + 1, i);
    Mul(idxLen, i, q);
    Mul(idxLen, i + 1, q);
  }

  /** `init_empty_shuffle_buckets` */
  method InitEmptyShuffleBuckets(n: nat, bucketLen: nat, begin: int, end: int, idxLen: nat)
    returns (buckets: seq<ShuffleBucket>)
    ensures |buckets| == n && Disjoint(buckets)
    ensures forall b :: 0 <= b < n ==>
      && fresh(buckets[b].data) && buckets[b].len == bucketLen
      && buckets[b].beginIdx == BucketBegin(begin, idxLen, b) && buckets[b].endIdx == BucketEnd(begin, end, idxLen, n, b)
      && forall i :: 0 <= i < bucketLen ==> buckets[b].Pairs()[i].perm == DUMMY
  {
    hide BucketBegin;
    buckets := [];
    var bucketBeginIdx := begin;
    BucketBeginNext(begin, idxLen, 0);
    for i := 0 to n
      invariant |buckets| == i && Disjoint(buckets)
      invariant i < n ==> bucketBeginIdx == BucketBegin(begin, idxLen, i)
      invariant forall b :: 0 <= b < i ==>
        && fresh(buckets[b].data) && buckets[b].len == bucketLen
        && buckets[b].beginIdx == BucketBegin(begin, idxLen, b) && buckets[b].endIdx == BucketEnd(begin, end, idxLen, n, b)
        && forall k :: 0 <= k < bucketLen ==> buckets[b].Pairs()[k].perm == DUMMY
    {
      BucketBeginNext(begin, idxLen, i);
      var bucketEndIdx := if i == n - 1 then end else bucketBeginIdx + idxLen;
      var bucket := new ShuffleBucket.Empty(bucketLen, bucketBeginIdx, bucketEndIdx);
      buckets := buckets + [bucket];
      bucketBeginIdx := bucketEndIdx;
    }
  }

  // ----- routing pairs to buckets -----

  /** The pairs of s that go to bucket b of n, in order; dummies go nowhere. */
  function Select(s: seq<Pair>, begin: int, idxLen: nat, n: nat, b: int): (r: seq<Pair>)
    requires idxLen > 0
    ensures |r| <= |s|
  {
    if s == [] then []
    else
      var rest, x := Select(s[..|s| - 1], begin, idxLen, n, b), s[|s| - 1];
      if x.perm != DUMMY && BucketIndex(x.perm, begin, idxLen, n) == b then rest + [x] else rest
  }

  lemma SelectStep(s: seq<Pair>, x: Pair, begin: int, idxLen: nat, n: nat, b: int)
    requires idxLen > 0
    ensures Select(s + [x], begin, idxLen, n, b)
      == if x.perm != DUMMY && BucketIndex(x.perm, begin, idxLen, n) == b then Select(s, begin, idxLen, n, b) + [x]
         else Select(s, begin, idxLen, n, b)
  {
    assert (s + [x])[..|s|] == s;
  }

  lemma {:induction false} SelectElements(s: seq<Pair>, begin: int, idxLen: nat, n: nat, b: int)
    requires idxLen > 0
    ensures forall x ::
      x in Select(s, begin, idxLen, n, b) <==> (x in s && x.perm != DUMMY && BucketIndex(x.perm, begin, idxLen, n) == b)
  {
    if s != [] {
      SelectElements(s[..|s| - 1], begin, idxLen, n, b);
      assert s == s[..|s| - 1] + [s[|s| - 1]];
    }
  }

  const NO_PAIR: Pair := Pair(-1, DUMMY)

  /** The first p pairs of s, filled up with dummies. */
  function Pad(s: seq<Pair>, p: nat): (r: seq<Pair>)
    ensures |r| == p && forall i :: 0 <= i < p ==> r[i] == if i < |s| then s[i] else NO_PAIR
  {
    seq(p, i requires 0 <= i < p => if i < |s| then s[i] else NO_PAIR)
  }

}
