/** src/algo/melbourne_shuffle.cpp: distribution through a MultiQueue, chunk by chunk, then clean-up. */
module MelbourneShuffles {
  import opened Arithmetic
  import opened ShuffleBuckets
  import opened MultiQueues
  import opened ShadowLayouts

  // ----- exact versions of the floating-point parameters -----

  /** ceil(sqrt((double)n)) */
  function CeilSqrt(n: nat): (r: nat)
    ensures n <= r * r && (r > 0 ==> (r - 1) * (r - 1) < n)
  {
    if n == 0 then 0
    else
      var r := CeilSqrt(n - 1);
      if n <= r * r then r else r + 1
  }

  /** ceil(log2((double)n)) */
  function CeilLog2(n: nat, k: nat := 0): (r: nat)
    requires k == 0 || Pow2(k - 1) < n
    ensures n <= Pow2(r) && (r > 0 ==> Pow2(r - 1) < n)
    decreases n - k
  {
    if n <= Pow2(k) then k else CeilLog2(n, k + 1)
  }

  // ----- what a distribution produces -----

  /** Start of chunk c of n pairs. */
  function ChunkStart(s: seq<Pair>, n: nat, c: nat): nat {
    Min(c * n, |s|)
  }

  function Chunk(s: seq<Pair>, n: nat, c: nat): seq<Pair> {
    assert c * n <= (c + 1) * n by { Mul(n, c, c + 1); }
    s[ChunkStart(s, n, c)..ChunkStart(s, n, c + 1)]
  }

  /** The pairs of chunk c that go to bucket b. */
  function Share(s: seq<Pair>, n: nat, idxLen: nat, c: nat, b: int): seq<Pair>
    requires idxLen > 0
  {
    Select(Chunk(s, n, c), 0, idxLen, n, b)
  }

  /** The contents of bucket b after the first c chunks: p places for each. */
  function Routed(s: seq<Pair>, n: nat, idxLen: nat, p: nat, c: nat, b: int): (r: seq<Pair>)
    requires idxLen > 0
    ensures |r| == c * p
  {
    if c == 0 then [] else Routed(s, n, idxLen, p, c - 1, b) + Pad(Share(s, n, idxLen, c - 1, b), p)
  }

  /** No chunk among the first c sends more than p pairs to one bucket. */
  ghost predicate Fits(s: seq<Pair>, n: nat, idxLen: nat, p: nat, c: nat)
    requires idxLen > 0
  {
    forall k, b :: 0 <= k < c && 0 <= b < n ==> |Share(s, n, idxLen, k, b)| <= p
  }

  /** A bucket receives exactly the pairs whose target index is in its range. */
  lemma {:induction false} RoutedElements(s: seq<Pair>, n: nat, idxLen: nat, p: nat, c: nat, b: nat)
    requires idxLen > 0 && b < n && Fits(s, n, idxLen, p, c)
    ensures forall x: Pair :: x.perm != DUMMY ==>
      (x in Routed(s, n, idxLen, p, c, b) <==> (x in s[..ChunkStart(s, n, c)] && BucketIndex(x.perm, 0, idxLen, n) == b))
  {
    hide Select, Pad;
    if c > 0 {
      var before, chunk := s[..ChunkStart(s, n, c - 1)], Chunk(s, n, c - 1);
      RoutedElements(s, n, idxLen, p, c - 1, b);
      SelectElements(chunk, 0, idxLen, n, b);
      Mul(n, c - 1, c);
      assert s[..ChunkStart(s, n, c)] == before + chunk;
    }
  }

  /** The shares of one chunk, padded, one after the other. */
  function Rows(shares: seq<seq<Pair>>, p: nat, b: nat): (r: seq<Pair>)
    requires b <= |shares|
    ensures |r| == b * p
  {
    if b == 0 then [] else Rows(shares, p, b - 1) + Pad(shares[b - 1], p)
  }

  lemma {:induction false} RowsPrefix(shares: seq<seq<Pair>>, p: nat, a: nat, b: nat)
    requires a <= b <= |shares|
    ensures a * p <= b * p && Rows(shares, p, b)[..a * p] == Rows(shares, p, a)
  {
    if a < b {
      RowsPrefix(shares, p, a, b - 1);
      assert b * p == (b - 1) * p + p;
    }
  }

  /** Pair i of row b. */
  lemma RowsAt(shares: seq<seq<Pair>>, p: nat, b: nat, i: nat)
    requires b < |shares| && i < p
    ensures b * p + i < |shares| * p && Rows(shares, p, |shares|)[b * p + i] == Pad(shares[b], p)[i]
  {
    RowsPrefix(shares, p, b + 1, |shares|);
    assert (b + 1) * p == b * p + p;
    assert Rows(shares, p, |shares|)[b * p + i] == Rows(shares, p, |shares|)[..(b + 1) * p][b * p + i];
  }

  /** The words of w hold the given pairs from the start on. */
  ghost predicate Holds(w: seq<int>, pairs: seq<Pair>) {
    2 * |pairs| <= |w| && forall k :: 0 <= k < |pairs| ==> w[2 * k] == pairs[k].value && w[2 * k + 1] == pairs[k].perm
  }

  function Zip(values: seq<int>, perms: seq<int>): (s: seq<Pair>)
    requires |values| == |perms|
    ensures |s| == |values| && forall i :: 0 <= i < |s| ==> s[i] == Pair(values[i], perms[i])
  {
    seq(|values|, i requires 0 <= i < |values| => Pair(values[i], perms[i]))
  }

  // ----- distribution -----

  /** The pairs s are queued at their buckets, and there is room for more. */
  ghost predicate Queued(q: MultiQueue<Pair>, s: seq<Pair>, idxLen: nat, n: nat, room: nat)
    requires idxLen > 0
    reads q, q.data, q.blocks
  {
    && q.Valid() && q.numQueues == n && q.Free() >= room
    && forall b :: 0 <= b < n ==> q.Queue(b) == Select(s, 0, idxLen, n, b)
  }

  /** One pair goes to the queue of its bucket; there is a free block. */
  method SendPair(q: MultiQueue<Pair>, e: Pair, ghost s: seq<Pair>, idxLen: nat, n: nat, ghost room: nat)
    requires 0 < n && 0 < idxLen && 0 <= e.perm && 0 < room && Queued(q, s, idxLen, n, room)
    modifies q`lists, q.data, q.blocks
    ensures Queued(q, s + [e], idxLen, n, room - 1)
  {
    hide MultiQueue.Queue, PackedLists.Store, PackedLists.IsMove, Select, BucketIndex;
    IndexInRange(e.perm, idxLen, n);
    var bucketIdx := BucketIndex(e.perm, 0, idxLen, n);
    var full := q.Full();
    assert !full;
    q.PushBack(bucketIdx, e);
    SelectSteps(s, e, idxLen, n);
  }

  /** The first leaky section: the chunk goes to the queues.  The "queue full" abort is unreachable. */
  method FillQueue(arrIn: array<int>, permIn: array<int>, start: nat, q: MultiQueue<Pair>, n: nat, idxLen: nat)
    returns (readIdx: nat)
    requires arrIn.Length == permIn.Length && start <= arrIn.Length && idxLen > 0
    requires forall i :: 0 <= i < permIn.Length ==> 0 <= permIn[i]
    requires q.Valid() && q.numQueues == n && 0 < n <= q.Free() && forall b :: 0 <= b < n ==> q.Queue(b) == []
    requires arrIn != q.data && permIn != q.data
    modifies q`lists, q.data, q.blocks
    ensures readIdx == Min(start + n, arrIn.Length)
    ensures Queued(q, Zip(arrIn[..], permIn[..])[start..readIdx], idxLen, n, 0)
  {
    hide Zip, Queued;
    ghost var s := Zip(arrIn[..], permIn[..]);
    readIdx := start;
    var i := 0;
    NothingQueued(q, s[start..readIdx], idxLen, n);
    while i < n && readIdx < arrIn.Length
      invariant readIdx == start + i <= arrIn.Length && i <= n && s == Zip(arrIn[..], permIn[..])
      invariant Queued(q, s[start..readIdx], idxLen, n, n - i)
    {
      var e := Pair(arrIn[readIdx], permIn[readIdx]);
      SendPair(q, e, s[start..readIdx], idxLen, n, n - i);
      OneMore(s, start, readIdx);
      readIdx := readIdx + 1;
      i := i + 1;
    }
    QueuedStill(q, s[start..readIdx], idxLen, n, n - i);
  }

  lemma OneMore(s: seq<Pair>, start: nat, i: nat)
    requires start <= i < |s|
    ensures s[start..i + 1] == s[start..i] + [s[i]]
  {}

  lemma QueuedStill(q: MultiQueue<Pair>, s: seq<Pair>, idxLen: nat, n: nat, room: nat)
    requires idxLen > 0 && Queued(q, s, idxLen, n, room)
    ensures Queued(q, s, idxLen, n, 0)
  {}

  lemma IndexInRange(perm: int, idxLen: nat, n: nat)
    requires idxLen > 0 && n > 0 && perm >= 0
    ensures 0 <= BucketIndex(perm, 0, idxLen, n) < n
  {}

  lemma NothingQueued(q: MultiQueue<Pair>, s: seq<Pair>, idxLen: nat, n: nat)
    requires s == [] && idxLen > 0
    requires q.Valid() && q.numQueues == n <= q.Free() && forall b :: 0 <= b < n ==> q.Queue(b) == []
    ensures Queued(q, s, idxLen, n, n)
  {
    hide MultiQueue.Queue;
  }

  lemma SelectSteps(s: seq<Pair>, x: Pair, idxLen: nat, n: nat)
    requires idxLen > 0 && x.perm != DUMMY
    ensures forall b {:trigger Select(s + [x], 0, idxLen, n, b)} :: 0 <= b < n ==>
      Select(s + [x], 0, idxLen, n, b) ==
        if BucketIndex(x.perm, 0, idxLen, n) == b then Select(s, 0, idxLen, n, b) + [x] else Select(s, 0, idxLen, n, b)
  {
    forall b | 0 <= b < n
      ensures Select(s + [x], 0, idxLen, n, b) ==
        if BucketIndex(x.perm, 0, idxLen, n) == b then Select(s, 0, idxLen, n, b) + [x] else Select(s, 0, idxLen, n, b)
    {
      SelectStep(s, x, 0, idxLen, n, b);
    }
  }

  /** The front of a queue, removed, or a dummy if it is empty. */
  method TakeOrDummy(q: MultiQueue<Pair>, b: nat) returns (e: Pair)
    requires q.Valid() && b < q.numQueues
    modifies q`lists, q.data
    ensures q.Valid() && forall c :: 0 <= c < q.numQueues && c != b ==> q.Queue(c) == old(q.Queue(c))
    ensures if old(q.Queue(b)) == [] then e == NO_PAIR && q.Queue(b) == []
            else e == old(q.Queue(b))[0] && q.Queue(b) == old(q.Queue(b))[1..]
  {
    hide MultiQueue.Queue, PackedLists.Store, PackedLists.IsMove;
    e := Pair(-1, -1);
    var empty := q.Empty(b);
    if !empty {
      e := q.Front(b);
      q.PopFront(b);
    }
  }

  /** One pair of the output: the front of a queue, or a dummy. */
  method WritePlace(q: MultiQueue<Pair>, b: nat, output: array<int>, at: nat, ghost row: seq<Pair>) returns (e: Pair)
    requires q.Valid() && b < q.numQueues && output != q.data && |row| == at && 2 * at + 1 < output.Length
    requires Holds(output[..], row)
    modifies q`lists, q.data, output
    ensures q.Valid() && forall c :: 0 <= c < q.numQueues && c != b ==> q.Queue(c) == old(q.Queue(c))
    ensures if old(q.Queue(b)) == [] then e == NO_PAIR && q.Queue(b) == []
            else e == old(q.Queue(b))[0] && q.Queue(b) == old(q.Queue(b))[1..]
    ensures Holds(output[..], row + [e])
  {
    hide MultiQueue.Queue, Holds, MultiQueue.Valid;
    e := TakeOrDummy(q, b);
    ghost var w := output[..];
    output[2 * at], output[2 * at + 1] := e.value, e.perm;
    HoldsStep(w, output[..], row, e);
  }

  /** The second leaky section for one bucket: p pairs go to the output, real ones first. */
  method WriteRow(q: MultiQueue<Pair>, b: nat, p: nat, output: array<int>, at: nat, ghost share: seq<Pair>,
                  ghost done: seq<Pair>)
    returns (fits: bool)
    requires q.Valid() && b < q.numQueues && q.Queue(b) == share
    requires output != q.data && |done| == at && 2 * (at + p) <= output.Length && Holds(output[..], done)
    modifies q`lists, q.data, output
    ensures q.Valid() && (fits <==> |share| <= p)
    ensures Holds(output[..], done + Pad(share, p))
    ensures forall c :: 0 <= c < q.numQueues && c != b ==> q.Queue(c) == old(q.Queue(c))
  {
    hide MultiQueue.Queue, Holds, Pad, MultiQueue.Valid;
    ghost var row := done;
    RowStep(share, p, 0);
    for i := 0 to p
      invariant q.Valid() && q.Queue(b) == Rest(share, i)
      invariant forall c :: 0 <= c < q.numQueues && c != b ==> q.Queue(c) == old(q.Queue(c))
      invariant row == done + Pad(share, p)[..i] && Holds(output[..], row)
    {
      RowStep(share, p, i);
      hide Rest;
      var e := WritePlace(q, b, output, at + i, row);
      row := row + [e];
    }
    RowStep(share, p, p);
    fits := q.Empty(b);
  }

  function Rest(share: seq<Pair>, i: nat): seq<Pair> {
    if i <= |share| then share[i..] else []
  }

  /** Place i of a padded row. */
  lemma RowStep(share: seq<Pair>, p: nat, i: nat)
    requires i <= p
    ensures Pad(share, p)[..0] == [] && Pad(share, p)[..p] == Pad(share, p)
    ensures i < p ==> Pad(share, p)[..i + 1] == Pad(share, p)[..i] + [if i < |share| then share[i] else NO_PAIR]
    ensures i < |share| ==> Rest(share, i) != [] && Rest(share, i)[0] == share[i] && Rest(share, i)[1..] == Rest(share, i + 1)
    ensures i >= |share| ==> Rest(share, i) == [] == Rest(share, i + 1)
  {}

  lemma HoldsStep(w: seq<int>, w': seq<int>, pairs: seq<Pair>, e: Pair)
    requires Holds(w, pairs) && 2 * |pairs| + 1 < |w|
    requires w' == w[2 * |pairs| := e.value][2 * |pairs| + 1 := e.perm]
    ensures Holds(w', pairs + [e])
  {}

  /** The second leaky section; the "queue is not empty" abort ends it. */
  method DrainQueue(q: MultiQueue<Pair>, n: nat, p: nat, output: array<int>, ghost shares: seq<seq<Pair>>)
    returns (ok: bool)
    requires q.Valid() && q.numQueues == n == |shares| && forall b :: 0 <= b < n ==> q.Queue(b) == shares[b]
    requires output != q.data && output.Length == 2 * (n * p)
    modifies q`lists, q.data, output
    ensures ok <==> forall b :: 0 <= b < n ==> |shares[b]| <= p
    ensures ok ==> Holds(output[..], Rows(shares, p, n))
  {
    hide MultiQueue.Queue, PackedLists.Store, Rows, Pad;
    RowsNext(shares, p, 0);
    for b := 0 to n
      invariant q.Valid() && forall c :: b <= c < n ==> q.Queue(c) == shares[c]
      invariant forall c :: 0 <= c < b ==> |shares[c]| <= p
      invariant Holds(output[..], Rows(shares, p, b))
    {
      RowsNext(shares, p, b);
      Mul(p, b + 1, n);
      assert (b + 1) * p == b * p + p;
      var fits := WriteRow(q, b, p, output, b * p, shares[b], Rows(shares, p, b));
      if !fits {
        return false;
      }
    }
    ok := true;
  }

  lemma RowsNext(shares: seq<seq<Pair>>, p: nat, b: nat)
    requires b <= |shares|
    ensures Rows(shares, p, 0) == []
    ensures b < |shares| ==> Rows(shares, p, b + 1) == Rows(shares, p, b) + Pad(shares[b], p)
  {}

  /** Copies one row of the output to its place in a bucket. */
  method CopyRow(output: array<int>, from: nat, bucket: ShuffleBucket, at: nat, p: nat, ghost row: seq<Pair>)
    requires bucket.Valid() && at + p <= bucket.len && output != bucket.data
    requires |row| == p && 2 * (from + p) <= output.Length
    requires forall i :: 0 <= i < p ==> row[i] == Pair(output[2 * (from + i)], output[2 * (from + i) + 1])
    modifies bucket.data
    ensures bucket.Pairs()[..at] == old(bucket.Pairs()[..at]) && bucket.Pairs()[at..at + p] == row
  {
    for i := 0 to p
      invariant bucket.Pairs()[..at] == old(bucket.Pairs()[..at]) && bucket.Pairs()[at..at + i] == row[..i]
    {
      ghost var before := bucket.Pairs();
      bucket.Put(at + i, Pair(output[2 * (from + i)], output[2 * (from + i) + 1]));
      assert bucket.Pairs()[at..at + i + 1] == before[at..at + i] + [row[i]];
      assert row[..i + 1] == row[..i] + [row[i]];
      assert bucket.Pairs()[..at] == before[..at];
    }
  }

  /** Copies the output to the buckets. */
  method CopyOut(output: array<int>, buckets: seq<ShuffleBucket>, at: nat, p: nat, ghost shares: seq<seq<Pair>>)
    requires Disjoint(buckets) && |shares| == |buckets| && output !in Arrays(buckets)
    requires forall b :: 0 <= b < |buckets| ==> at + p <= buckets[b].len
    requires output.Length == 2 * (|buckets| * p) && Holds(output[..], Rows(shares, p, |shares|))
    modifies Arrays(buckets)
    ensures forall b :: 0 <= b < |buckets| ==>
      buckets[b].Pairs()[..at] == old(buckets[b].Pairs()[..at]) && buckets[b].Pairs()[at..at + p] == Pad(shares[b], p)
  {
    hide Rows, Pad, Holds;
    ghost var w := output[..];
    for b := 0 to |buckets|
      invariant output[..] == w
      invariant forall a :: 0 <= a < |buckets| ==> buckets[a].Pairs()[..at] == old(buckets[a].Pairs()[..at])
      invariant forall a :: 0 <= a < b ==> buckets[a].Pairs()[at..at + p] == Pad(shares[a], p)
    {
      RowsRead(w, shares, p, b);
      CopyRow(output, b * p, buckets[b], at, p, Pad(shares[b], p));
    }
  }

  lemma RowsRead(w: seq<int>, shares: seq<seq<Pair>>, p: nat, b: nat)
    requires |w| == 2 * (|shares| * p) && b < |shares| && Holds(w, Rows(shares, p, |shares|))
    ensures 2 * (b * p + p) <= |w|
    ensures forall i :: 0 <= i < p ==> Pad(shares[b], p)[i] == Pair(w[2 * (b * p + i)], w[2 * (b * p + i) + 1])
  {
    hide Rows;
    Mul(p, b + 1, |shares|);
    assert (b + 1) * p == b * p + p;
    forall i | 0 <= i < p ensures Pad(shares[b], p)[i] == Pair(w[2 * (b * p + i)], w[2 * (b * p + i) + 1]) {
      RowsAt(shares, p, b, i);
    }
  }

  /** The words of the queue of a round. */
  function QueueWords(n: nat): nat { 3 + n + 3 * n }

  /** One round of the distribution: the pairs of chunk c go to their buckets, or the run aborts.  Its
      leaky sections, in which the queue is a nob array, open for up to 1219 buckets. */
  method SendChunk(arrIn: array<int>, permIn: array<int>, readIdx: nat, output: array<int>,
                   buckets: seq<ShuffleBucket>, writeIdx: nat, p: nat, idxLen: nat, ghost c: nat)
    returns (ok: bool, next: nat)
    requires arrIn.Length == permIn.Length && idxLen > 0 && 2 <= |buckets|
    requires forall i :: 0 <= i < permIn.Length ==> 0 <= permIn[i]
    requires readIdx < arrIn.Length && readIdx == c * |buckets|
    requires Disjoint(buckets) && output !in Arrays(buckets) && output.Length == 2 * (|buckets| * p)
    requires arrIn !in Arrays(buckets) && permIn !in Arrays(buckets) && arrIn != output && permIn != output
    requires forall b :: 0 <= b < |buckets| ==> writeIdx + p <= buckets[b].len
    modifies Arrays(buckets), output
    ensures ok ==> next == Min(readIdx + |buckets|, arrIn.Length)
    ensures var s := Zip(arrIn[..], permIn[..]); var n := |buckets|;
      && (ok <==> n <= 1219 && forall b :: 0 <= b < n ==> |Share(s, n, idxLen, c, b)| <= p)
      && (ok ==> forall b :: 0 <= b < n ==>
            buckets[b].Pairs()[..writeIdx] == old(buckets[b].Pairs()[..writeIdx])
            && buckets[b].Pairs()[writeIdx..writeIdx + p] == Pad(Share(s, n, idxLen, c, b), p))
  {
    hide MultiQueue.Queue, PackedLists.Store, PackedLists.Stored, PackedLists.AlwaysWorks, PackedLists.IsList, Pad, Select, Rows, Holds, CeilDiv, Share, MultiQueue.Valid, Opens;
    var n := |buckets|;
    var readLen := Min(arrIn.Length - readIdx, n);
    ghost var s := Zip(arrIn[..], permIn[..]);
    ChunkAt(s, n, c);
    OpensOneWay(QueueWords(n), 2 * readLen);
    if !Opens(Lengths(QueueWords(n), 0, 2 * readLen, 0)) {
      return false, readIdx;
    }
    var q := new MultiQueue<Pair>(n, n, 2);
    next := FillQueue(arrIn, permIn, readIdx, q, n, idxLen);
    ghost var shares := seq(n, b requires 0 <= b < n => Share(s, n, idxLen, c, b));
    ShareIs(s, n, idxLen, c);
    q.RegisteredLength();
    OpensIff(QueueWords(n), 0, output.Length);
    Mul(output.Length, 1, 61 - QueueWords(n) / 80);
    if !Opens(Lengths(q.data[0], 0, 0, output.Length)) {
      return false, next;
    }
    ok := DrainQueue(q, n, p, output, shares);
    if ok {
      CopyOut(output, buckets, writeIdx, p, shares);
    }
  }

  /** The first c chunks are in the buckets. */
  ghost predicate RoutedSoFar(buckets: seq<ShuffleBucket>, s: seq<Pair>, idxLen: nat, p: nat, c: nat)
    requires Disjoint(buckets) && idxLen > 0
    reads Arrays(buckets)
  {
    forall b :: 0 <= b < |buckets| ==>
      c * p <= buckets[b].len && buckets[b].Pairs()[..c * p] == Routed(s, |buckets|, idxLen, p, c, b)
  }

  ghost predicate ChunkFits(s: seq<Pair>, n: nat, idxLen: nat, p: nat, c: nat)
    requires idxLen > 0
  {
    forall b :: 0 <= b < n ==> |Share(s, n, idxLen, c, b)| <= p
  }

  /** One more round. */
  method SendNext(arrIn: array<int>, permIn: array<int>, readIdx: nat, output: array<int>,
                  buckets: seq<ShuffleBucket>, writeIdx: nat, p: nat, idxLen: nat, ghost s: seq<Pair>, ghost c: nat)
    returns (ok: bool, next: nat)
    requires arrIn.Length == permIn.Length && idxLen > 0 && 2 <= |buckets| && s == Zip(arrIn[..], permIn[..])
    requires forall i :: 0 <= i < permIn.Length ==> 0 <= permIn[i]
    requires readIdx < arrIn.Length && readIdx == ChunkStart(s, |buckets|, c) && writeIdx == c * p
    requires Disjoint(buckets) && output !in Arrays(buckets) && output.Length == 2 * (|buckets| * p)
    requires arrIn !in Arrays(buckets) && permIn !in Arrays(buckets) && arrIn != output && permIn != output
    requires forall b :: 0 <= b < |buckets| ==> buckets[b].len == CeilDiv(arrIn.Length, |buckets|) * p
    requires RoutedSoFar(buckets, s, idxLen, p, c)
    modifies Arrays(buckets), output
    ensures ok <==> |buckets| <= 1219 && ChunkFits(s, |buckets|, idxLen, p, c)
    ensures ok ==> next == ChunkStart(s, |buckets|, c + 1) > readIdx && c < CeilDiv(|s|, |buckets|)
    ensures ok ==> RoutedSoFar(buckets, s, idxLen, p, c + 1)
  {
    hide Pad, Zip, CeilDiv, Share, Routed;
    ChunkAt(s, |buckets|, c);
    Mul(p, c + 1, CeilDiv(|s|, |buckets|));
    Distributes(p, c, 1);
    RoutedNext(s, |buckets|, idxLen, p, c);
    ok, next := SendChunk(arrIn, permIn, readIdx, output, buckets, writeIdx, p, idxLen, c);
    if ok {
      forall b | 0 <= b < |buckets|
        ensures buckets[b].Pairs()[..writeIdx + p] == Routed(s, |buckets|, idxLen, p, c, b) + Pad(Share(s, |buckets|, idxLen, c, b), p)
      {
        Concatenated(buckets[b].Pairs(), writeIdx, writeIdx + p);
      }
    }
  }

  lemma Concatenated(s: seq<Pair>, i: nat, j: nat)
    requires i <= j <= |s|
    ensures s[..j] == s[..i] + s[i..j]
  {}

  lemma FitsNext(s: seq<Pair>, n: nat, idxLen: nat, p: nat, c: nat, chunks: nat)
    requires idxLen > 0
    ensures Fits(s, n, idxLen, p, 0) && (Fits(s, n, idxLen, p, c + 1) <==> Fits(s, n, idxLen, p, c) && ChunkFits(s, n, idxLen, p, c))
    ensures c < chunks && !ChunkFits(s, n, idxLen, p, c) ==> !Fits(s, n, idxLen, p, chunks)
  {
    hide Share;
  }

  lemma RoutedNone(buckets: seq<ShuffleBucket>, s: seq<Pair>, idxLen: nat, p: nat)
    requires Disjoint(buckets) && idxLen > 0
    ensures RoutedSoFar(buckets, s, idxLen, p, 0)
  {}

  lemma RoutedAll(buckets: seq<ShuffleBucket>, s: seq<Pair>, idxLen: nat, p: nat, c: nat)
    requires Disjoint(buckets) && idxLen > 0 && RoutedSoFar(buckets, s, idxLen, p, c)
    requires forall b :: 0 <= b < |buckets| ==> buckets[b].len == c * p
    ensures forall b :: 0 <= b < |buckets| ==> buckets[b].Pairs() == Routed(s, |buckets|, idxLen, p, c, b)
  {
    hide Routed;
    forall b | 0 <= b < |buckets| ensures buckets[b].Pairs() == Routed(s, |buckets|, idxLen, p, c, b) {
      assert buckets[b].Pairs()[..c * p] == buckets[b].Pairs();
    }
  }

  /** `_melbourne_shuffle_distribute`: aborts exactly when there are too many buckets or some chunk sends
      too many pairs to one bucket, and otherwise leaves every bucket routed. */
  method Distribute(arrIn: array<int>, permIn: array<int>, buckets: seq<ShuffleBucket>, p: nat, idxLen: nat)
    returns (ok: bool)
    requires arrIn.Length == permIn.Length && idxLen > 0 && 2 <= |buckets|
    requires forall i :: 0 <= i < permIn.Length ==> 0 <= permIn[i]
    requires Disjoint(buckets) && arrIn !in Arrays(buckets) && permIn !in Arrays(buckets)
    requires forall b :: 0 <= b < |buckets| ==> buckets[b].len == CeilDiv(arrIn.Length, |buckets|) * p
    modifies Arrays(buckets)
    ensures ok <==>
      && (arrIn.Length > 0 ==> |buckets| <= 1219)
      && Fits(Zip(arrIn[..], permIn[..]), |buckets|, idxLen, p, CeilDiv(arrIn.Length, |buckets|))
    ensures ok ==> forall b :: 0 <= b < |buckets| ==>
      buckets[b].Pairs() == Routed(Zip(arrIn[..], permIn[..]), |buckets|, idxLen, p, CeilDiv(arrIn.Length, |buckets|), b)
  {
    hide Zip, CeilDiv, Routed, RoutedSoFar, Fits, ChunkFits, ChunkStart;
    var n, len := |buckets|, arrIn.Length;
    ghost var s, chunks := Zip(arrIn[..], permIn[..]), CeilDiv(len, n);
    var output := new int[2 * (n * p)];
    var readIdx, writeIdx: nat := 0, 0;
    ghost var c: nat := 0;
    ChunkZero(s, n);
    RoutedNone(buckets, s, idxLen, p);
    FitsNext(s, n, idxLen, p, c, chunks);
    while readIdx < len
      invariant s == Zip(arrIn[..], permIn[..]) && c <= chunks && readIdx <= len
      invariant readIdx == ChunkStart(s, n, c) && writeIdx == c * p && RoutedSoFar(buckets, s, idxLen, p, c)
      invariant Fits(s, n, idxLen, p, c) && (readIdx > 0 ==> n <= 1219)
      decreases len - readIdx
    {
      FitsNext(s, n, idxLen, p, c, chunks);
      ChunkAt(s, n, c);
      Distributes(p, c, 1);
      ok, readIdx := SendNext(arrIn, permIn, readIdx, output, buckets, writeIdx, p, idxLen, s, c);
      if !ok {
        return;
      }
      ChunkZero(s, n, c + 1);
      writeIdx := writeIdx + p;
      c := c + 1;
    }
    ChunksDone(s, n, c);
    RoutedAll(buckets, s, idxLen, p, c);
    ok := true;
  }

  lemma ChunkZero(s: seq<Pair>, n: nat, c: nat := 0)
    ensures ChunkStart(s, n, 0) == 0 && ChunkStart(s, n, c) <= |s|
  {}

  lemma ChunksDone(s: seq<Pair>, n: nat, c: nat)
    requires n > 0 && c <= CeilDiv(|s|, n) && |s| <= ChunkStart(s, n, c)
    ensures c == CeilDiv(|s|, n)
  {
    CeilDivLeast(|s|, n, c);
  }

  lemma ChunkAt(s: seq<Pair>, n: nat, c: nat)
    requires n > 0 && ChunkStart(s, n, c) < |s|
    ensures ChunkStart(s, n, c) == c * n && c < CeilDiv(|s|, n)
    ensures ChunkStart(s, n, c + 1) == Min(c * n + n, |s|)
    ensures Chunk(s, n, c) == s[c * n..Min(c * n + n, |s|)]
  {
    hide CeilDiv;
    assert (c + 1) * n == c * n + n;
    Mul(n, CeilDiv(|s|, n), c);
  }

  lemma ShareIs(s: seq<Pair>, n: nat, idxLen: nat, c: nat)
    requires idxLen > 0
    ensures forall b :: 0 <= b < n ==> Share(s, n, idxLen, c, b) == Select(Chunk(s, n, c), 0, idxLen, n, b)
  {}

  lemma RoutedNext(s: seq<Pair>, n: nat, idxLen: nat, p: nat, c: nat)
    requires idxLen > 0
    ensures forall b :: 0 <= b < n ==> Routed(s, n, idxLen, p, 0, b) == []
    ensures forall b :: 0 <= b < n ==> Routed(s, n, idxLen, p, c + 1, b) == Routed(s, n, idxLen, p, c, b) + Pad(Share(s, n, idxLen, c, b), p)
  {}

  // ----- clean-up -----

  predicate IsPermutation(perm: seq<int>) {
    && (forall i :: 0 <= i < |perm| ==> 0 <= perm[i] < |perm|)
    && (forall i, j :: 0 <= i < j < |perm| ==> perm[i] != perm[j])
  }

  /** Every real pair is an input pair, so the value for a target index is determined. */
  ghost predicate FromInput(pairs: seq<Pair>, arrIn: seq<int>, permIn: seq<int>)
    requires |arrIn| == |permIn|
  {
    forall x :: x in pairs && x.perm != DUMMY ==> x in Zip(arrIn, permIn)
  }

  lemma SameTarget(x: Pair, y: Pair, arrIn: seq<int>, permIn: seq<int>)
    requires |arrIn| == |permIn| && IsPermutation(permIn)
    requires x in Zip(arrIn, permIn) && y in Zip(arrIn, permIn) && x.perm == y.perm
    ensures x == y
  {
    var i :| 0 <= i < |permIn| && x == Zip(arrIn, permIn)[i];
    var j :| 0 <= j < |permIn| && y == Zip(arrIn, permIn)[j];
    assert permIn[i] == permIn[j];
    assert i == j;
  }

  /** The pairs have been delivered. */
  ghost predicate Delivered(out: seq<int>, pairs: seq<Pair>) {
    forall x :: x in pairs && x.perm != DUMMY ==> 0 <= x.perm < |out| && out[x.perm] == x.value
  }

  /** Only the targets of the pairs have changed. */
  ghost predicate OnlyTargets(before: seq<int>, after: seq<int>, pairs: seq<Pair>) {
    |before| == |after| && forall k :: 0 <= k < |before| && (forall x :: x in pairs ==> x.perm != k) ==> after[k] == before[k]
  }

  lemma OnlyTargetsStep(before: seq<int>, after: seq<int>, pairs: seq<Pair>, x: Pair)
    requires OnlyTargets(before, after, pairs)
    ensures 0 <= x.perm < |after| ==> OnlyTargets(before, after[x.perm := x.value], pairs + [x])
    ensures OnlyTargets(before, after, pairs + [x])
  {
    forall k | 0 <= k < |before| && forall y :: y in pairs + [x] ==> y.perm != k
      ensures k != x.perm && after[k] == before[k]
    {
      assert x in pairs + [x];
      assert forall y :: y in pairs ==> y in pairs + [x];
    }
  }

  lemma DeliverStep(out: seq<int>, pairs: seq<Pair>, x: Pair, arrIn: seq<int>, permIn: seq<int>)
    requires |out| == |arrIn| == |permIn| && IsPermutation(permIn)
    requires Delivered(out, pairs) && FromInput(pairs, arrIn, permIn)
    requires x in Zip(arrIn, permIn) && 0 <= x.perm < |out|
    ensures Delivered(out[x.perm := x.value], pairs)
    ensures Delivered(out[x.perm := x.value], [x])
  {
    hide Zip, IsPermutation;
    forall y | y in pairs && y.perm != DUMMY ensures 0 <= y.perm < |out| && out[x.perm := x.value][y.perm] == y.value {
      if y.perm == x.perm {
        SameTarget(x, y, arrIn, permIn);
      }
    }
  }

  /** The last phase of both shuffles for one bucket: each pair is written to its target index. */
  method DeliverBucket(bucket: ShuffleBucket, arrOut: array<int>, ghost arrIn: seq<int>, ghost permIn: seq<int>,
                       ghost done: seq<Pair>)
    requires bucket.Valid() && bucket.data != arrOut && arrOut.Length == |arrIn| == |permIn| && IsPermutation(permIn)
    requires FromInput(bucket.Pairs(), arrIn, permIn) && FromInput(done, arrIn, permIn) && Delivered(arrOut[..], done)
    requires forall x :: x in bucket.Pairs() && x.perm != DUMMY ==> bucket.beginIdx <= x.perm < bucket.endIdx
    requires 0 <= bucket.beginIdx && bucket.endIdx <= arrOut.Length
    modifies arrOut
    ensures Delivered(arrOut[..], done + bucket.Pairs())
    ensures OnlyTargets(old(arrOut[..]), arrOut[..], bucket.Pairs())
  {
    hide Zip, IsPermutation, OnlyTargets;
    ghost var pairs := bucket.Pairs();
    OnlyTargetsNone(arrOut[..], pairs[..0]);
    assert done + pairs[..0] == done;
    for i := 0 to bucket.len
      invariant bucket.Pairs() == pairs && FromInput(done + pairs[..i], arrIn, permIn)
      invariant Delivered(arrOut[..], done + pairs[..i])
      invariant OnlyTargets(old(arrOut[..]), arrOut[..], pairs[..i])
    {
      var e := Pair(bucket.data[2 * i], bucket.data[2 * i + 1]);
      assert e == pairs[i] && e in pairs;
      assert done + pairs[..i + 1] == (done + pairs[..i]) + [e];
      assert pairs[..i + 1] == pairs[..i] + [e];
      ghost var out := arrOut[..];
      OnlyTargetsStep(old(arrOut[..]), out, pairs[..i], e);
      if e.perm != DUMMY {
        ZipRange(e, arrIn, permIn);
        DeliverStep(out, done + pairs[..i], e, arrIn, permIn);
        // the array is registered from beginIdx on
        arrOut[bucket.beginIdx + (e.perm - bucket.beginIdx)] := e.value;
        assert arrOut[..] == out[e.perm := e.value];
      }
    }
    assert pairs[..bucket.len] == pairs;
  }

  lemma OnlyTargetsNone(out: seq<int>, pairs: seq<Pair>)
    ensures OnlyTargets(out, out, pairs)
  {}

  lemma ZipRange(x: Pair, arrIn: seq<int>, permIn: seq<int>)
    requires |arrIn| == |permIn| && IsPermutation(permIn) && x in Zip(arrIn, permIn)
    ensures 0 <= x.perm < |permIn|
  {}

  /** `_melbourne_shuffle_cleanup`, and the last loop of `cache_shuffle`.  In the section of a bucket its
      range of the output is a nob array. */
  method Deliver(buckets: seq<ShuffleBucket>, arrOut: array<int>, ghost arrIn: seq<int>, ghost permIn: seq<int>)
    returns (ok: bool)
    requires Disjoint(buckets) && arrOut !in Arrays(buckets)
    requires arrOut.Length == |arrIn| == |permIn| && IsPermutation(permIn)
    requires forall b :: 0 <= b < |buckets| ==> FromInput(buckets[b].Pairs(), arrIn, permIn)
    requires forall b :: 0 <= b < |buckets| ==>
      0 <= buckets[b].beginIdx <= buckets[b].endIdx <= arrOut.Length && 0 < buckets[b].len
    requires forall b, x :: 0 <= b < |buckets| && x in buckets[b].Pairs() && x.perm != DUMMY ==>
      buckets[b].beginIdx <= x.perm < buckets[b].endIdx
    modifies arrOut
    ensures ok <==> forall b :: 0 <= b < |buckets| ==> buckets[b].endIdx - buckets[b].beginIdx < 4880
    ensures ok ==> forall b :: 0 <= b < |buckets| ==> Delivered(arrOut[..], buckets[b].Pairs())
    ensures ok ==> forall k :: 0 <= k < arrOut.Length && (forall b, x :: 0 <= b < |buckets| && x in buckets[b].Pairs() ==> x.perm != k) ==>
      arrOut[k] == old(arrOut[k])
  {
    hide Zip, IsPermutation, Opens, OnlyTargets, Delivered, FromInput, Joined;
    ghost var views, out := PairsOf(buckets), arrOut[..];
    JoinedNone(views, out, arrIn, permIn);
    for b := 0 to |buckets|
      invariant PairsOf(buckets) == views
      invariant FromInput(Joined(views, b), arrIn, permIn) && Delivered(arrOut[..], Joined(views, b))
      invariant OnlyTargets(out, arrOut[..], Joined(views, b))
      invariant forall a :: 0 <= a < b ==> buckets[a].endIdx - buckets[a].beginIdx < 4880
    {
      var range := buckets[b].endIdx - buckets[b].beginIdx;
      OpensOneWay(range, 2 * buckets[b].len);
      if !Opens(Lengths(range, 0, 2 * buckets[b].len, 0)) {
        return false;
      }
      assert views[b] == buckets[b].Pairs();
      ghost var w := arrOut[..];
      DeliverBucket(buckets[b], arrOut, arrIn, permIn, Joined(views, b));
      JoinedNext(views, b, out, w, arrOut[..], arrIn, permIn);
    }
    JoinedAll(views, out, arrOut[..]);
    ok := true;
  }

  ghost function PairsOf(buckets: seq<ShuffleBucket>): (views: seq<seq<Pair>>)
    requires Disjoint(buckets)
    reads Arrays(buckets)
    ensures |views| == |buckets| && forall b :: 0 <= b < |buckets| ==> views[b] == buckets[b].Pairs()
  {
    seq(|buckets|, b requires 0 <= b < |buckets| && buckets[b].Valid() reads Arrays(buckets) => buckets[b].Pairs())
  }

  /** The pairs of the first n buckets. */
  ghost function Joined(views: seq<seq<Pair>>, n: nat): (pairs: seq<Pair>)
    requires n <= |views|
  {
    if n == 0 then [] else Joined(views, n - 1) + views[n - 1]
  }

  lemma {:induction false} JoinedMembers(views: seq<seq<Pair>>, n: nat)
    requires n <= |views|
    ensures forall b, x :: 0 <= b < n && x in views[b] ==> x in Joined(views, n)
    ensures forall x :: x in Joined(views, n) ==> exists b :: 0 <= b < n && x in views[b]
  {
    if n > 0 {
      JoinedMembers(views, n - 1);
    }
  }

  lemma JoinedNone(views: seq<seq<Pair>>, out: seq<int>, arrIn: seq<int>, permIn: seq<int>)
    requires |arrIn| == |permIn|
    ensures FromInput(Joined(views, 0), arrIn, permIn) && Delivered(out, Joined(views, 0))
    ensures OnlyTargets(out, out, Joined(views, 0))
  {}

  lemma JoinedNext(views: seq<seq<Pair>>, b: nat, out: seq<int>, w: seq<int>, w': seq<int>, arrIn: seq<int>, permIn: seq<int>)
    requires |arrIn| == |permIn| && b < |views| && OnlyTargets(out, w, Joined(views, b)) && OnlyTargets(w, w', views[b])
    requires FromInput(Joined(views, b), arrIn, permIn) && FromInput(views[b], arrIn, permIn)
    ensures Joined(views, b + 1) == Joined(views, b) + views[b]
    ensures OnlyTargets(out, w', Joined(views, b + 1)) && FromInput(Joined(views, b + 1), arrIn, permIn)
  {
    hide Zip;
    forall k | 0 <= k < |out| && forall x :: x in Joined(views, b + 1) ==> x.perm != k ensures w'[k] == out[k] {
      assert forall x :: x in Joined(views, b) ==> x in Joined(views, b + 1);
      assert forall x :: x in views[b] ==> x in Joined(views, b + 1);
    }
  }

  lemma JoinedAll(views: seq<seq<Pair>>, out: seq<int>, w: seq<int>)
    requires OnlyTargets(out, w, Joined(views, |views|)) && Delivered(w, Joined(views, |views|))
    ensures forall b :: 0 <= b < |views| ==> Delivered(w, views[b])
    ensures forall k :: 0 <= k < |w| && (forall b, x :: 0 <= b < |views| && x in views[b] ==> x.perm != k) ==> w[k] == out[k]
  {
    hide Joined;
    JoinedMembers(views, |views|);
    forall b | 0 <= b < |views| ensures Delivered(w, views[b]) {
      assert forall x :: x in views[b] ==> x in Joined(views, |views|);
    }
    forall k | 0 <= k < |w| && forall b, x :: 0 <= b < |views| && x in views[b] ==> x.perm != k ensures w[k] == out[k] {
      assert forall x :: x in Joined(views, |views|) ==> x.perm != k;
    }
  }

  /** Delivering buckets that hold all input pairs permutes the input. */
  lemma AllDelivered(out: seq<int>, arrIn: seq<int>, permIn: seq<int>, n: nat, idxLen: nat, p: nat, c: nat)
    requires |out| == |arrIn| == |permIn| && IsPermutation(permIn) && idxLen > 0 && n > 0
    requires Fits(Zip(arrIn, permIn), n, idxLen, p, c) && c * n >= |arrIn|
    requires forall b :: 0 <= b < n ==> Delivered(out, Routed(Zip(arrIn, permIn), n, idxLen, p, c, b))
    ensures forall i {:trigger permIn[i]} :: 0 <= i < |arrIn| ==> out[permIn[i]] == arrIn[i]
  {
    hide Routed, Select, Fits;
    var s := Zip(arrIn, permIn);
    assert s[..ChunkStart(s, n, c)] == s;
    forall i | 0 <= i < |arrIn| ensures out[permIn[i]] == arrIn[i] {
      var x := s[i];
      var b := BucketIndex(x.perm, 0, idxLen, n);
      IndexInRange(x.perm, idxLen, n);
      RoutedElements(s, n, idxLen, p, c, b);
      assert x in s;
      assert x in Routed(s, n, idxLen, p, c, b);
    }
  }

  // ----- the whole shuffle -----

  lemma NumOfBucketRange(len: nat)
    requires 2 <= len
    ensures 2 <= CeilSqrt(len) <= len
    ensures 2 <= FindSuitablePartitions(len, CeilSqrt(len)) <= CeilSqrt(len)
  {
    hide CeilSqrt, FindSuitablePartitions, Suitable;
    var r := CeilSqrt(len);
    assert r != 0 && r != 1;
    Mul(r - 1, 1, r - 1);
    var _ := SuitablePartitions(len, r);
  }

  function NumOfBucket(len: nat): (n: nat)
    requires 2 <= len
    ensures 2 <= n <= len && n <= CeilSqrt(len) && Suitable(n, len, CeilSqrt(len))
  {
    NumOfBucketRange(len);
    FindSuitablePartitions(len, CeilSqrt(len))
  }

  /** q is a / n, rounded down. */
  predicate Quotient(q: nat, a: nat, n: nat) {
    n * q <= a < n * q + n
  }

  lemma IdxLenPositive(len: nat, n: nat)
    requires 0 < n <= len
    ensures len / n > 0 && (n - 1) * (len / n) < len && Quotient(len / n, len, n)
  {
    var q := len / n;
    assert len == n * q + len % n;
    Mul(n, q, 0);
    assert (n - 1) * q == n * q - q;
  }

  /** len / num_of_bucket */
  function BucketIdxLen(len: nat): (idxLen: nat)
    requires 2 <= len
    ensures idxLen > 0 && (NumOfBucket(len) - 1) * idxLen < len && Quotient(idxLen, len, NumOfBucket(len))
  {
    var n := NumOfBucket(len);
    IdxLenPositive(len, n);
    len / n
  }

  /** How many pairs of a chunk a bucket has room for. */
  function PLogLen(len: nat, blowUpFactor: nat): (p: nat)
    ensures exists r: nat :: LeastLog(r, len) && p == blowUpFactor * r
  {
    assert LeastLog(CeilLog2(len), len);
    blowUpFactor * CeilLog2(len)
  }

  /** r is the least number with 2^r >= n. */
  predicate LeastLog(r: nat, n: nat) {
    n <= Pow2(r) && (r > 0 ==> Pow2(r - 1) < n)
  }

  function NumOfChunks(len: nat): (c: nat)
    requires 2 <= len
    ensures LeastCover(c, NumOfBucket(len), len)
  {
    CeilDiv(len, NumOfBucket(len))
  }

  /** All leaky sections open: the queue of a round has room, and so has the longest range of a bucket, which
      is the last one. */
  predicate SectionsOpen(len: nat)
    requires 2 <= len
  {
    NumOfBucket(len) <= 1219 && len - (NumOfBucket(len) - 1) * BucketIdxLen(len) < 4880
  }

  /** All arrays of up to 4879 elements can be shuffled, none of 1219 * 4880 or more. */
  lemma SectionsOpenBounds(len: nat)
    requires 2 <= len
    ensures len < 4880 ==> SectionsOpen(len)
    ensures SectionsOpen(len) ==> len < 1219 * 4880
  {
    hide CeilSqrt, NumOfBucket;
    var n, idxLen := NumOfBucket(len), BucketIdxLen(len);
    if len < 4880 {
      var r := CeilSqrt(len) - 1;
      Mul(r, 70, r);
      Mul(70, 70, r);
      Mul(idxLen, 0, n - 1);
    } else if SectionsOpen(len) {
      BucketRanges(len);
      assert BucketEnd(0, len, idxLen, n, 0) - BucketBegin(0, idxLen, 0) == idxLen;
      Distributes(idxLen, n - 1, 1);
      Mul(n - 1, idxLen, 4880);
    }
  }

  lemma BucketRanges(len: nat)
    requires 2 <= len
    ensures var n, idxLen := NumOfBucket(len), BucketIdxLen(len);
      && (forall b: nat :: b < n ==> BucketBegin(0, idxLen, b) <= BucketEnd(0, len, idxLen, n, b))
      && ((forall b: nat :: b < n ==> BucketEnd(0, len, idxLen, n, b) - BucketBegin(0, idxLen, b) < 4880)
          <==> len - (n - 1) * idxLen < 4880)
  {
    hide NumOfBucket;
    var n, idxLen := NumOfBucket(len), BucketIdxLen(len);
    DivMod(len, n);
    Distributes(idxLen, n - 1, 1);
    forall b: nat | b < n
      ensures BucketBegin(0, idxLen, b) <= BucketEnd(0, len, idxLen, n, b)
      ensures BucketEnd(0, len, idxLen, n, b) - BucketBegin(0, idxLen, b) <= len - (n - 1) * idxLen
    {
      Distributes(idxLen, b, 1);
    }
    assert BucketEnd(0, len, idxLen, n, n - 1) - BucketBegin(0, idxLen, n - 1) == len - (n - 1) * idxLen;
  }

  /** The condition under which no chunk overflows: it depends on the permutation only. */
  ghost predicate NoBucketOverflows(permIn: seq<int>, blowUpFactor: nat)
    requires 2 <= |permIn|
  {
    var len := |permIn|;
    Fits(Zip(permIn, permIn), NumOfBucket(len), BucketIdxLen(len), PLogLen(len, blowUpFactor), NumOfChunks(len))
  }

  // ----- the condition in terms of places -----

  /** The places of chunk k, of n elements, that hold a target index of range b. */
  ghost function SentTo(perm: seq<int>, n: nat, idxLen: nat, k: nat, b: nat): set<nat> {
    set i: nat | i < |perm| && k * n <= i < (k + 1) * n
                 && b * idxLen <= perm[i] < if b == n - 1 then |perm| else (b + 1) * idxLen
  }

  lemma {:induction false} SelectCount(s: seq<Pair>, idxLen: nat, n: nat, b: int, lo: nat, hi: nat) returns (places: set<nat>)
    requires idxLen > 0 && lo <= hi <= |s|
    ensures forall i :: i in places <==> lo <= i < hi && s[i].perm != DUMMY && BucketIndex(s[i].perm, 0, idxLen, n) == b
    ensures |places| == |Select(s[lo..hi], 0, idxLen, n, b)|
    decreases hi
  {
    hide Select, BucketIndex;
    if lo == hi {
      places := {};
      SelectNothing(s[lo..hi], idxLen, n, b);
    } else {
      places := SelectCount(s, idxLen, n, b, lo, hi - 1);
      assert s[lo..hi] == s[lo..hi - 1] + [s[hi - 1]];
      SelectStep(s[lo..hi - 1], s[hi - 1], 0, idxLen, n, b);
      if s[hi - 1].perm != DUMMY && BucketIndex(s[hi - 1].perm, 0, idxLen, n) == b {
        places := places + {hi - 1};
      }
    }
  }

  lemma SelectNothing(s: seq<Pair>, idxLen: nat, n: nat, b: int)
    requires s == [] && idxLen > 0
    ensures Select(s, 0, idxLen, n, b) == []
  {}

  /** What a chunk sends to a bucket are the elements at these places. */
  lemma ShareCount(perm: seq<int>, idxLen: nat, n: nat, k: nat, b: nat)
    requires idxLen > 0 && b < n && forall i :: 0 <= i < |perm| ==> 0 <= perm[i] < |perm|
    ensures |Share(Zip(perm, perm), n, idxLen, k, b)| == |SentTo(perm, n, idxLen, k, b)|
  {
    hide Select, BucketIndex;
    var s := Zip(perm, perm);
    Mul(n, k, k + 1);
    var places := SelectCount(s, idxLen, n, b, ChunkStart(s, n, k), ChunkStart(s, n, k + 1));
    forall i: nat ensures i in places <==> i in SentTo(perm, n, idxLen, k, b) {
      if i < |perm| {
        BucketOfIndex(perm[i], 0, |perm|, idxLen, n, b);
      }
    }
    assert places == SentTo(perm, n, idxLen, k, b);
  }

  /** No chunk overflows a bucket if and only if at most p_log_len places of any chunk hold target indices of any range. */
  lemma NoOverflowIs(perm: seq<int>, blowUpFactor: nat)
    requires 2 <= |perm| && forall i :: 0 <= i < |perm| ==> 0 <= perm[i] < |perm|
    ensures var n, idxLen := NumOfBucket(|perm|), BucketIdxLen(|perm|);
      NoBucketOverflows(perm, blowUpFactor) <==>
        forall k: nat, b: nat :: b < n ==> |SentTo(perm, n, idxLen, k, b)| <= PLogLen(|perm|, blowUpFactor)
  {
    hide NumOfBucket, BucketIdxLen, PLogLen, CeilDiv, Share, SentTo;
    var len := |perm|;
    var n, idxLen, p, c := NumOfBucket(len), BucketIdxLen(len), PLogLen(len, blowUpFactor), NumOfChunks(len);
    forall k: nat, b: nat | b < n
      ensures |Share(Zip(perm, perm), n, idxLen, k, b)| == |SentTo(perm, n, idxLen, k, b)|
      ensures k >= c ==> SentTo(perm, n, idxLen, k, b) == {}
    {
      ShareCount(perm, idxLen, n, k, b);
      if k >= c {
        Covered(len, n);
        NothingSent(perm, n, idxLen, k, b, c);
      }
    }
    if NoBucketOverflows(perm, blowUpFactor) {
      forall k: nat, b: nat | b < n ensures |SentTo(perm, n, idxLen, k, b)| <= p {
        if k < c {
          assert |Share(Zip(perm, perm), n, idxLen, k, b)| <= p;
        }
      }
    }
  }

  lemma NothingSent(perm: seq<int>, n: nat, idxLen: nat, k: nat, b: nat, c: nat)
    requires c * n >= |perm| && k >= c
    ensures SentTo(perm, n, idxLen, k, b) == {}
  {
    Mul(n, c, k);
  }

  /** Where pairs go depends on their target indices only. */
  lemma {:induction false} SelectByPerm(s: seq<Pair>, t: seq<Pair>, idxLen: nat, n: nat, b: int)
    requires idxLen > 0 && |s| == |t| && forall i :: 0 <= i < |s| ==> s[i].perm == t[i].perm
    ensures |Select(s, 0, idxLen, n, b)| == |Select(t, 0, idxLen, n, b)|
  {
    if s != [] {
      SelectByPerm(s[..|s| - 1], t[..|t| - 1], idxLen, n, b);
    }
  }

  lemma FitsByPerm(s: seq<Pair>, t: seq<Pair>, n: nat, idxLen: nat, p: nat, c: nat)
    requires idxLen > 0 && |s| == |t| && forall i :: 0 <= i < |s| ==> s[i].perm == t[i].perm
    ensures Fits(s, n, idxLen, p, c) <==> Fits(t, n, idxLen, p, c)
  {
    hide Select;
    forall k: nat, b | 0 <= b < n ensures |Share(s, n, idxLen, k, b)| == |Share(t, n, idxLen, k, b)| {
      SelectByPerm(Chunk(s, n, k), Chunk(t, n, k), idxLen, n, b);
    }
  }

  /** For every permutation: aborts exactly when a leaky section does not open or some chunk sends more than
      p_log_len pairs to one bucket, and otherwise puts every element at its target index. */
  method MelbourneShuffle(arrIn: array<int>, permIn: array<int>, arrOut: array<int>, blowUpFactor: nat)
    returns (ok: bool)
    requires 2 <= arrIn.Length == permIn.Length == arrOut.Length && arrIn != arrOut && permIn != arrOut
    requires IsPermutation(permIn[..]) && 1 <= blowUpFactor
    modifies arrOut
    ensures ok <==> SectionsOpen(arrIn.Length) && NoBucketOverflows(permIn[..], blowUpFactor)
    ensures ok ==> forall i {:trigger permIn[i]} :: 0 <= i < arrIn.Length ==> arrOut[permIn[i]] == arrIn[i]
  {
    hide Zip, Routed, Fits, CeilDiv, NumOfBucket, BucketIdxLen, BucketIndex, PLogLen, LeastLog, Quotient, Suitable, IsPermutation,
         BucketBegin, BucketEnd;
    var len := arrIn.Length;
    ghost var a, perm := arrIn[..], permIn[..];
    var numOfBucket := NumOfBucket(len);
    var pLogLen := PLogLen(len, blowUpFactor);
    var bucketIdxLen := BucketIdxLen(len);
    var bucketLen := CeilDiv(len, numOfBucket) * pLogLen;
    var buckets := InitEmptyShuffleBuckets(numOfBucket, bucketLen, 0, len, bucketIdxLen);
    PermRange(perm);
    ok := Distribute(arrIn, permIn, buckets, pLogLen, bucketIdxLen);
    ghost var s := Zip(a, perm);
    ZipPerms(a, perm);
    FitsByPerm(s, Zip(perm, perm), numOfBucket, bucketIdxLen, pLogLen, CeilDiv(len, numOfBucket));
    if ok {
      BucketsNotEmpty(len, numOfBucket, blowUpFactor);
      ok := CleanUp(buckets, arrOut, pLogLen, a, perm);
    }
  }

  lemma BucketsNotEmpty(len: nat, n: nat, blowUpFactor: nat)
    requires 2 <= len && 0 < n && 1 <= blowUpFactor
    ensures CeilDiv(len, n) * PLogLen(len, blowUpFactor) > 0
  {
    hide CeilDiv;
    assert CeilDiv(len, n) != 0 && CeilLog2(len) != 0;
    Mul(blowUpFactor, 1, CeilLog2(len));
    Mul(CeilDiv(len, n), 1, PLogLen(len, blowUpFactor));
  }

  /** The clean-up of the routed buckets. */
  method CleanUp(buckets: seq<ShuffleBucket>, arrOut: array<int>, p: nat, ghost a: seq<int>, ghost perm: seq<int>) returns (ok: bool)
    requires 2 <= arrOut.Length == |a| == |perm| && IsPermutation(perm) && |buckets| == NumOfBucket(arrOut.Length)
    requires Disjoint(buckets) && arrOut !in Arrays(buckets)
    requires var n, idxLen, c := |buckets|, BucketIdxLen(arrOut.Length), CeilDiv(arrOut.Length, |buckets|);
      && Fits(Zip(a, perm), n, idxLen, p, c)
      && forall b :: 0 <= b < n ==>
        && buckets[b].beginIdx == BucketBegin(0, idxLen, b) && buckets[b].endIdx == BucketEnd(0, arrOut.Length, idxLen, n, b)
        && buckets[b].len > 0 && buckets[b].Pairs() == Routed(Zip(a, perm), n, idxLen, p, c, b)
    modifies arrOut
    ensures ok <==> arrOut.Length - (|buckets| - 1) * BucketIdxLen(arrOut.Length) < 4880
    ensures ok ==> forall i {:trigger perm[i]} :: 0 <= i < |a| ==> arrOut[perm[i]] == a[i]
  {
    hide Zip, Routed, Fits, CeilDiv, NumOfBucket, BucketIdxLen, BucketBegin, BucketEnd, Delivered, FromInput, IsPermutation;
    PermRange(perm);
    var len := arrOut.Length;
    ghost var n, idxLen, c := |buckets|, BucketIdxLen(len), CeilDiv(len, |buckets|);
    BucketRanges(len);
    RoutedDeliverable(a, perm, n, idxLen, p, c);
    ok := Deliver(buckets, arrOut, a, perm);
    if ok {
      Covered(len, n);
      AllDelivered(arrOut[..], a, perm, n, idxLen, p, c);
    }
  }

  lemma PermRange(perm: seq<int>)
    requires IsPermutation(perm)
    ensures forall i :: 0 <= i < |perm| ==> 0 <= perm[i] < |perm|
  {}

  lemma Covered(len: nat, n: nat)
    requires 0 < n
    ensures CeilDiv(len, n) * n >= len
  {
    assert CeilDiv(len, n) * n == n * CeilDiv(len, n);
  }

  lemma ZipPerms(a: seq<int>, perm: seq<int>)
    requires |a| == |perm|
    ensures forall i :: 0 <= i < |perm| ==> Zip(a, perm)[i].perm == Zip(perm, perm)[i].perm
  {}

  /** The routed buckets meet what the clean-up needs. */
  lemma RoutedDeliverable(arrIn: seq<int>, permIn: seq<int>, n: nat, idxLen: nat, p: nat, c: nat)
    requires |arrIn| == |permIn| && IsPermutation(permIn) && idxLen > 0 && n > 0 && (n - 1) * idxLen < |arrIn|
    requires Fits(Zip(arrIn, permIn), n, idxLen, p, c)
    ensures forall b :: 0 <= b < n ==>
      && FromInput(Routed(Zip(arrIn, permIn), n, idxLen, p, c, b), arrIn, permIn)
      && 0 <= BucketBegin(0, idxLen, b) && BucketEnd(0, |arrIn|, idxLen, n, b) <= |arrIn|
    ensures forall b, x :: 0 <= b < n && x in Routed(Zip(arrIn, permIn), n, idxLen, p, c, b) && x.perm != DUMMY ==>
      BucketBegin(0, idxLen, b) <= x.perm < BucketEnd(0, |arrIn|, idxLen, n, b)
  {
    hide Routed, Fits, Select, BucketIndex;
    var s := Zip(arrIn, permIn);
    forall b: nat | b < n
      ensures FromInput(Routed(s, n, idxLen, p, c, b), arrIn, permIn)
      ensures 0 <= BucketBegin(0, idxLen, b) && BucketEnd(0, |arrIn|, idxLen, n, b) <= |arrIn|
      ensures forall x :: x in Routed(s, n, idxLen, p, c, b) && x.perm != DUMMY ==>
        BucketBegin(0, idxLen, b) <= x.perm < BucketEnd(0, |arrIn|, idxLen, n, b)
    {
      RoutedElements(s, n, idxLen, p, c, b);
      Mul(idxLen, b + 1, n - 1);
      Mul(idxLen, 0, b);
      assert b * idxLen == idxLen * b && (b + 1) * idxLen == idxLen * (b + 1) && (n - 1) * idxLen == idxLen * (n - 1);
      forall x | x in Routed(s, n, idxLen, p, c, b) && x.perm != DUMMY
        ensures x in s && BucketBegin(0, idxLen, b) <= x.perm < BucketEnd(0, |arrIn|, idxLen, n, b)
      {
        assert x in s[..ChunkStart(s, n, c)];
        ZipRange(x, arrIn, permIn);
        BucketOfIndex(x.perm, 0, |arrIn|, idxLen, n, b);
      }
    }
  }
}
