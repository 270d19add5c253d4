/** `_cache_shuffle_spray` of src/algo/cache_shuffle.cpp: routing pairs to buckets in rounds of bounded memory. */
module Sprays {
  import opened Arithmetic
  import opened ShuffleBuckets
  import opened MultiQueues
  import opened MelbourneShuffles
  import opened ShadowLayouts

  /** The pairs of s that are no dummies, in order. */
  function Reals(s: seq<Pair>): (r: seq<Pair>)
    ensures |r| <= |s|
  {
    if s == [] then []
    else if s[|s| - 1].perm != DUMMY then Reals(s[..|s| - 1]) + [s[|s| - 1]]
    else Reals(s[..|s| - 1])
  }

  lemma RealsStep(s: seq<Pair>, x: Pair)
    ensures Reals(s + [x]) == if x.perm != DUMMY then Reals(s) + [x] else Reals(s)
  {
    assert (s + [x])[..|s|] == s;
  }

  lemma {:induction false} RealsConcat(a: seq<Pair>, b: seq<Pair>)
    ensures Reals(a + b) == Reals(a) + Reals(b)
    decreases |b|
  {
    if b == [] {
      assert a + b == a;
    } else {
      RealsConcat(a, b[..|b| - 1]);
      assert (a + b)[..|a + b| - 1] == a + b[..|b| - 1];
    }
  }

  lemma {:induction false} RealsOfDummies(s: seq<Pair>)
    requires forall i :: 0 <= i < |s| ==> s[i].perm == DUMMY
    ensures Reals(s) == []
  {
    if s != [] {
      RealsOfDummies(s[..|s| - 1]);
    }
  }

  lemma {:induction false} RealsOfReals(s: seq<Pair>)
    requires forall i :: 0 <= i < |s| ==> s[i].perm != DUMMY
    ensures Reals(s) == s
  {
    if s != [] {
      RealsOfReals(s[..|s| - 1]);
      assert s == s[..|s| - 1] + [s[|s| - 1]];
    }
  }

  lemma {:induction false} RealsElements(s: seq<Pair>)
    ensures forall x :: x in Reals(s) <==> (x in s && x.perm != DUMMY)
  {
    if s != [] {
      RealsElements(s[..|s| - 1]);
      assert s == s[..|s| - 1] + [s[|s| - 1]];
    }
  }

  /** Replacing a dummy by a real pair adds that pair. */
  lemma RealsReplace(s: seq<Pair>, i: nat, x: Pair)
    requires i < |s| && s[i].perm == DUMMY && x.perm != DUMMY
    ensures multiset(Reals(s[i := x])) == multiset(Reals(s)) + multiset{x}
  {
    var a, b := s[..i], s[i + 1..];
    assert s == a + [s[i]] + b && s[i := x] == a + [x] + b;
    RealsStep(a, s[i]);
    RealsStep(a, x);
    RealsConcat(a + [s[i]], b);
    RealsConcat(a + [x], b);
  }

  // ----- spraying -----

  /** One pair of the reading half. */
  method PushPair(q: MultiQueue<Pair>, e: Pair, begin: int, idxLen: nat, n: nat) returns (ok: bool)
    requires q.Valid() && q.numQueues == n > 0 && idxLen > 0 && (e.perm != DUMMY ==> begin <= e.perm)
    modifies q`lists, q.data, q.blocks
    ensures ok <==> e.perm == DUMMY || old(q.Free()) > 0
    ensures ok ==> q.Valid() && q.Free() == old(q.Free()) - if e.perm != DUMMY then 1 else 0
    ensures ok ==> forall b :: 0 <= b < n ==>
      q.Queue(b) == if e.perm != DUMMY && BucketIndex(e.perm, begin, idxLen, n) == b then old(q.Queue(b)) + [e] else old(q.Queue(b))
  {
    hide MultiQueue.Queue, PackedLists.Store, PackedLists.IsMove;
    if e.perm != DUMMY {
      BucketInRange(e.perm, begin, idxLen, n);
      var bucketIdx := BucketIndex(e.perm, begin, idxLen, n);
      var full := q.Full();
      if full {
        return false;
      }
      q.PushBack(bucketIdx, e);
    }
    ok := true;
  }

  /** The queues, as they were, have received the pairs s, each the ones that go to its bucket. */
  ghost predicate Received(q: MultiQueue<Pair>, queues: seq<seq<Pair>>, s: seq<Pair>, begin: int, idxLen: nat, room: nat)
    requires idxLen > 0
    reads q, q.data, q.blocks
  {
    && q.Valid() && q.numQueues == |queues| > 0 && q.Free() + |Reals(s)| == room
    && forall b :: 0 <= b < |queues| ==> q.Queue(b) == queues[b] + Select(s, begin, idxLen, |queues|, b)
  }

  method PushNext(q: MultiQueue<Pair>, e: Pair, begin: int, idxLen: nat, ghost queues: seq<seq<Pair>>, ghost s: seq<Pair>,
                  ghost room: nat)
    returns (ok: bool)
    requires idxLen > 0 && Received(q, queues, s, begin, idxLen, room) && (e.perm != DUMMY ==> begin <= e.perm)
    modifies q`lists, q.data, q.blocks
    ensures ok <==> |Reals(s + [e])| <= room
    ensures ok ==> Received(q, queues, s + [e], begin, idxLen, room)
  {
    hide MultiQueue.Queue, Select, BucketIndex, Reals;
    RealsStep(s, e);
    SelectAll(s, e, begin, idxLen, q.numQueues);
    ok := PushPair(q, e, begin, idxLen, q.numQueues);
  }

  ghost function QueuesOf(q: MultiQueue<Pair>): (queues: seq<seq<Pair>>)
    requires q.Valid()
    reads q, q.data, q.blocks
    ensures |queues| == q.numQueues && forall b :: 0 <= b < |queues| ==> queues[b] == q.Queue(b)
  {
    seq(q.numQueues, b requires 0 <= b < q.numQueues && q.Valid() reads q, q.data, q.blocks => q.Queue(b))
  }

  /** The reading half of a round: every real pair goes to the queue of its bucket. */
  method PushPairs(input: ShuffleBucket, start: nat, s: nat, q: MultiQueue<Pair>, n: nat, idxLen: nat)
    returns (ok: bool, readIdx: nat)
    requires input.Valid() && start <= input.len && idxLen > 0 && q.Valid() && q.numQueues == n && n > 0
    requires input.data != q.data
    requires forall x :: x in input.Pairs() && x.perm != DUMMY ==> input.beginIdx <= x.perm
    modifies q`lists, q.data, q.blocks
    ensures ok <==> |Reals(input.Pairs()[start..Min(start + s, input.len)])| <= old(q.Free())
    ensures ok ==> q.Valid() && readIdx == Min(start + s, input.len)
    ensures ok ==> forall b :: 0 <= b < n ==>
      q.Queue(b) == old(q.Queue(b)) + Select(input.Pairs()[start..readIdx], input.beginIdx, idxLen, n, b)
  {
    hide MultiQueue.Queue, Select, Reals;
    ghost var queues := QueuesOf(q);
    ok, readIdx := PushAll(input, start, s, q, idxLen, queues, q.Free());
  }

  method ReadPair(input: ShuffleBucket, i: nat) returns (e: Pair)
    requires input.Valid() && i < input.len
    ensures e == input.Pairs()[i]
  {
    e := Pair(input.data[2 * i], input.data[2 * i + 1]);
  }

  lemma OneMorePair(pairs: seq<Pair>, start: nat, i: nat, e: Pair)
    requires start <= i < |pairs| && pairs[i] == e
    ensures e in pairs && pairs[start..i + 1] == pairs[start..i] + [e]
  {}

  method PushAt(input: ShuffleBucket, i: nat, q: MultiQueue<Pair>, idxLen: nat, ghost queues: seq<seq<Pair>>, ghost part: seq<Pair>,
                ghost room: nat, ghost start: nat)
    returns (ok: bool)
    requires input.Valid() && start <= i < input.len && idxLen > 0 && input.data != q.data
    requires part == input.Pairs()[start..i] && Received(q, queues, part, input.beginIdx, idxLen, room)
    requires forall x :: x in input.Pairs() && x.perm != DUMMY ==> input.beginIdx <= x.perm
    modifies q`lists, q.data, q.blocks
    ensures input.Pairs() == old(input.Pairs())
    ensures ok <==> |Reals(old(input.Pairs())[start..i + 1])| <= room
    ensures ok ==> Received(q, queues, old(input.Pairs())[start..i + 1], input.beginIdx, idxLen, room)
  {
    hide Reals, Received;
    var e := ReadPair(input, i);
    OneMorePair(input.Pairs(), start, i, e);
    ok := PushNext(q, e, input.beginIdx, idxLen, queues, part, room);
  }

  method PushAll(input: ShuffleBucket, start: nat, s: nat, q: MultiQueue<Pair>, idxLen: nat, ghost queues: seq<seq<Pair>>,
                 ghost room: nat)
    returns (ok: bool, readIdx: nat)
    requires input.Valid() && start <= input.len && idxLen > 0 && input.data != q.data
    requires forall x :: x in input.Pairs() && x.perm != DUMMY ==> input.beginIdx <= x.perm
    requires Received(q, queues, [], input.beginIdx, idxLen, room)
    modifies q`lists, q.data, q.blocks
    ensures ok <==> |Reals(input.Pairs()[start..Min(start + s, input.len)])| <= room
    ensures ok ==> readIdx == Min(start + s, input.len)
    ensures ok ==> Received(q, queues, input.Pairs()[start..readIdx], input.beginIdx, idxLen, room)
  {
    hide Reals, Received, ShuffleBucket.Pairs, ShuffleBucket.Valid;
    ghost var pairs, part := input.Pairs(), [];
    ghost var last := Min(start + s, input.len);
    readIdx := start;
    var i := 0;
    while i < s && readIdx < input.len
      invariant readIdx == start + i <= input.len && i <= s && pairs == input.Pairs()
      invariant part == pairs[start..readIdx] && Received(q, queues, part, input.beginIdx, idxLen, room)
    {
      RealsPrefix(pairs, start, readIdx + 1, last);
      ok := PushAt(input, readIdx, q, idxLen, queues, part, room, start);
      if !ok {
        return;
      }
      readIdx := readIdx + 1;
      i := i + 1;
      part := pairs[start..readIdx];
    }
    ReceivedFits(q, queues, part, input.beginIdx, idxLen, room);
    ok := true;
  }

  lemma ReceivedFits(q: MultiQueue<Pair>, queues: seq<seq<Pair>>, s: seq<Pair>, begin: int, idxLen: nat, room: nat)
    requires idxLen > 0 && Received(q, queues, s, begin, idxLen, room)
    ensures |Reals(s)| <= room
  {}

  lemma RealsPrefix(s: seq<Pair>, start: nat, m: nat, n: nat)
    requires start <= m <= n <= |s|
    ensures |Reals(s[start..m])| <= |Reals(s[start..n])|
  {
    RealsConcat(s[start..m], s[m..n]);
    assert s[start..n] == s[start..m] + s[m..n];
  }

  lemma BucketInRange(perm: int, begin: int, idxLen: nat, n: nat)
    requires idxLen > 0 && n > 0 && perm >= begin
    ensures 0 <= BucketIndex(perm, begin, idxLen, n) < n
  {}

  lemma SelectAll(s: seq<Pair>, x: Pair, begin: int, idxLen: nat, n: nat)
    requires idxLen > 0
    ensures forall b {:trigger Select(s + [x], begin, idxLen, n, b)} :: 0 <= b < n ==>
      Select(s + [x], begin, idxLen, n, b) ==
        if x.perm != DUMMY && BucketIndex(x.perm, begin, idxLen, n) == b then Select(s, begin, idxLen, n, b) + [x]
        else Select(s, begin, idxLen, n, b)
  {
    forall b | 0 <= b < n
      ensures Select(s + [x], begin, idxLen, n, b) ==
        if x.perm != DUMMY && BucketIndex(x.perm, begin, idxLen, n) == b then Select(s, begin, idxLen, n, b) + [x]
        else Select(s, begin, idxLen, n, b)
    {
      SelectStep(s, x, begin, idxLen, n, b);
    }
  }

  lemma {:induction false} SelectConcat(a: seq<Pair>, c: seq<Pair>, begin: int, idxLen: nat, n: nat, b: int)
    requires idxLen > 0
    ensures Select(a + c, begin, idxLen, n, b) == Select(a, begin, idxLen, n, b) + Select(c, begin, idxLen, n, b)
    decreases |c|
  {
    if c == [] {
      assert a + c == a;
    } else {
      SelectConcat(a, c[..|c| - 1], begin, idxLen, n, b);
      assert (a + c)[..|a + c| - 1] == a + c[..|c| - 1];
    }
  }

  /** What the writing half of a round takes from a queue. */
  function FrontOf(s: seq<Pair>): Pair { if s == [] then NO_PAIR else s[0] }

  function RestOf(s: seq<Pair>): seq<Pair> { if s == [] then [] else s[1..] }

  /** The writing half of a round: the fronts of the queues go to the output, one after the other. */
  method TakeFronts(q: MultiQueue<Pair>, output: array<int>) returns (ghost row: seq<Pair>)
    requires q.Valid() && output.Length == 2 * q.numQueues && output != q.data
    modifies q`lists, q.data, output
    ensures q.Valid() && |row| == q.numQueues && Holds(output[..], row)
    ensures forall b :: 0 <= b < q.numQueues ==> q.Queue(b) == RestOf(old(q.Queue(b))) && row[b] == FrontOf(old(q.Queue(b)))
  {
    hide MultiQueue.Queue, MultiQueue.Valid, Holds;
    row := [];
    HoldsNothing(output[..]);
    for b := 0 to q.numQueues
      invariant q.Valid() && |row| == b && Holds(output[..], row)
      invariant forall c :: b <= c < q.numQueues ==> q.Queue(c) == old(q.Queue(c))
      invariant forall c :: 0 <= c < b ==> q.Queue(c) == RestOf(old(q.Queue(c))) && row[c] == FrontOf(old(q.Queue(c)))
    {
      var e := TakeOrDummy(q, b);
      ghost var w := output[..];
      output[2 * b], output[2 * b + 1] := e.value, e.perm;
      HoldsStep(w, output[..], row, e);
      row := row + [e];
    }
  }

  /** Place r of every bucket receives its pair of the output. */
  method PlaceRow(output: array<int>, buckets: seq<ShuffleBucket>, r: nat, ghost row: seq<Pair>)
    requires Disjoint(buckets) && |row| == |buckets| && output !in Arrays(buckets) && Holds(output[..], row)
    requires forall b :: 0 <= b < |buckets| ==> r < buckets[b].len
    modifies Arrays(buckets)
    ensures forall b :: 0 <= b < |buckets| ==> buckets[b].Pairs() == old(buckets[b].Pairs())[r := row[b]]
  {
    hide Holds;
    for b := 0 to |buckets|
      invariant output[..] == old(output[..])
      invariant forall c :: 0 <= c < b ==> buckets[c].Pairs() == old(buckets[c].Pairs())[r := row[c]]
      invariant forall c :: b <= c < |buckets| ==> buckets[c].Pairs() == old(buckets[c].Pairs())
    {
      HoldsAt(output[..], row, b);
      buckets[b].Put(r, Pair(output[2 * b], output[2 * b + 1]));
    }
  }

  lemma HoldsNothing(w: seq<int>)
    ensures Holds(w, [])
  {}

  lemma HoldsAt(w: seq<int>, pairs: seq<Pair>, k: nat)
    requires Holds(w, pairs) && k < |pairs|
    ensures 2 * k + 1 < |w| && Pair(w[2 * k], w[2 * k + 1]) == pairs[k]
  {}

  /** After r rounds: the r places hold the pairs that left the queue, first in first out, and the
      others are still empty. */
  ghost predicate Rounds(pairs: seq<Pair>, queue: seq<Pair>, share: seq<Pair>, r: nat) {
    && r <= |pairs| && Reals(pairs[..r]) + queue == share
    && forall i :: r <= i < |pairs| ==> pairs[i].perm == DUMMY
  }

  lemma RoundStep(pairs: seq<Pair>, queue: seq<Pair>, share: seq<Pair>, r: nat)
    requires Rounds(pairs, queue, share, r) && r < |pairs| && forall x :: x in queue ==> x.perm != DUMMY
    ensures Rounds(pairs[r := FrontOf(queue)], RestOf(queue), share, r + 1)
  {
    hide Reals;
    RealsStep(pairs[..r], FrontOf(queue));
    assert pairs[r := FrontOf(queue)][..r + 1] == pairs[..r] + [FrontOf(queue)];
  }

  /** Reading more pairs appends them to the queue of their bucket. */
  lemma RoundPush(pairs: seq<Pair>, queue: seq<Pair>, input: seq<Pair>, start: nat, next: nat, r: nat,
                  begin: int, idxLen: nat, n: nat, b: int)
    requires idxLen > 0 && start <= next <= |input|
    requires Rounds(pairs, queue, Select(input[..start], begin, idxLen, n, b), r)
    ensures Rounds(pairs, queue + Select(input[start..next], begin, idxLen, n, b), Select(input[..next], begin, idxLen, n, b), r)
    ensures forall x :: x in queue + Select(input[start..next], begin, idxLen, n, b) ==> x.perm != DUMMY
  {
    hide Reals, BucketIndex, Select;
    assert input[..next] == input[..start] + input[start..next];
    SelectConcat(input[..start], input[start..next], begin, idxLen, n, b);
    SelectElements(input[..next], begin, idxLen, n, b);
    forall x | x in queue + Select(input[start..next], begin, idxLen, n, b) ensures x.perm != DUMMY {
      assert x in Select(input[..next], begin, idxLen, n, b);
    }
  }

  /** One round: up to s pairs are read and queued, then every queue gives one pair to its bucket.  In both
      leaky sections the queues are a nob array. */
  method SprayRound(input: ShuffleBucket, readIdx: nat, s: nat, q: MultiQueue<Pair>, output: array<int>,
                    buckets: seq<ShuffleBucket>, r: nat, idxLen: nat)
    returns (ok: bool, next: nat)
    requires input.Valid() && readIdx < input.len && idxLen > 0 && s > 0
    requires forall x :: x in input.Pairs() && x.perm != DUMMY ==> input.beginIdx <= x.perm
    requires q.Valid() && q.numQueues == |buckets| > 0 && output.Length == 2 * |buckets| && Disjoint(buckets)
    requires input.data != q.data && input.data != output && output != q.data
    requires input.data !in Arrays(buckets) && output !in Arrays(buckets) && q.data !in Arrays(buckets)
    requires forall b :: 0 <= b < |buckets| ==> r < buckets[b].len
    requires forall b :: 0 <= b < |buckets| ==>
      Rounds(buckets[b].Pairs(), q.Queue(b), Select(input.Pairs()[..readIdx], input.beginIdx, idxLen, |buckets|, b), r)
    modifies q`lists, q.data, q.blocks, output, Arrays(buckets)
    ensures ok <==> q.data.Length < 4880 && |Reals(input.Pairs()[readIdx..Min(readIdx + s, input.len)])| <= old(q.Free())
    ensures ok ==> q.Valid() && next == Min(readIdx + s, input.len)
    ensures ok ==> forall b :: 0 <= b < |buckets| ==>
      q.Queue(b) == RestOf(old(q.Queue(b)) + Select(input.Pairs()[readIdx..next], input.beginIdx, idxLen, |buckets|, b))
    ensures ok ==> forall b :: 0 <= b < |buckets| ==>
      Rounds(buckets[b].Pairs(), q.Queue(b), Select(input.Pairs()[..next], input.beginIdx, idxLen, |buckets|, b), r + 1)
  {
    hide MultiQueue.Queue, Holds, Rounds, Select, Reals, MultiQueue.Valid, Opens;
    var n := |buckets|;
    ghost var pairs := input.Pairs();
    var readLen := Min(input.len - readIdx, s);
    q.RegisteredLength();
    OpensOneWay(q.data.Length, 2 * readLen);
    OpensOneWay(q.data.Length, 2 * n);
    if !Opens(Lengths(q.data[0], 0, 2 * readLen, 0)) {
      return false, readIdx;
    }
    ok, next := PushPairs(input, readIdx, s, q, n, idxLen);
    if ok {
      q.RegisteredLength();
      ok := Opens(Lengths(q.data[0], 0, 0, 2 * n));
    }
    if ok {
      forall b | 0 <= b < n
        ensures Rounds(buckets[b].Pairs(), q.Queue(b), Select(pairs[..next], input.beginIdx, idxLen, n, b), r)
        ensures forall x :: x in q.Queue(b) ==> x.perm != DUMMY
      {
        RoundPush(buckets[b].Pairs(), old(q.Queue(b)), pairs, readIdx, next, r, input.beginIdx, idxLen, n, b);
      }
      label pushed:
      ghost var row := TakeFronts(q, output);
      PlaceRow(output, buckets, r, row);
      forall b | 0 <= b < n
        ensures Rounds(buckets[b].Pairs(), q.Queue(b), Select(pairs[..next], input.beginIdx, idxLen, n, b), r + 1)
      {
        RoundStep(old@pushed(buckets[b].Pairs()), old@pushed(q.Queue(b)), Select(pairs[..next], input.beginIdx, idxLen, n, b), r);
      }
    }
  }

  // ----- filling the gaps from the queues -----

  /** A waiting pair moves into a gap. */
  lemma FillStep(pairs: seq<Pair>, i: nat, queue: seq<Pair>)
    requires i < |pairs| && pairs[i].perm == DUMMY && queue != [] && queue[0].perm != DUMMY
    ensures multiset(Reals(pairs[i := queue[0]])) + multiset(queue[1..]) == multiset(Reals(pairs)) + multiset(queue)
  {
    hide Reals;
    RealsReplace(pairs, i, queue[0]);
    assert queue == [queue[0]] + queue[1..];
  }

  /** The pairs of a bucket after a visit of the fill pass to place i. */
  function Visited(pairs: seq<Pair>, i: nat, queue: seq<Pair>): (r: seq<Pair>)
    requires i < |pairs|
    ensures |r| == |pairs|
  {
    if pairs[i].perm == DUMMY && queue != [] then pairs[i := queue[0]] else pairs
  }

  /** A dummy is replaced by the pair waiting first, if there is one. */
  method FillGap(q: MultiQueue<Pair>, b: nat, e0: Pair) returns (e: Pair)
    requires q.Valid() && b < q.numQueues
    modifies q`lists, q.data
    ensures q.Valid() && forall c :: 0 <= c < q.numQueues && c != b ==> q.Queue(c) == old(q.Queue(c))
    ensures e == if e0.perm == DUMMY && old(q.Queue(b)) != [] then old(q.Queue(b))[0] else e0
    ensures q.Queue(b) == if e0.perm == DUMMY then RestOf(old(q.Queue(b))) else old(q.Queue(b))
  {
    hide MultiQueue.Queue, PackedLists.Store, PackedLists.IsMove;
    e := e0;
    var empty := q.Empty(b);
    if e.perm == DUMMY && !empty {
      e := q.Front(b);
      q.PopFront(b);
    }
  }

  /** One place of the bucket is read and written: both its words are read before they are written, so the
      write iterator stays behind the read iterator. */
  method FillPlace(bucket: ShuffleBucket, q: MultiQueue<Pair>, b: nat, i: nat)
    requires bucket.Valid() && i < bucket.len && q.Valid() && b < q.numQueues && bucket.data != q.data
    modifies q`lists, q.data, bucket.data
    ensures q.Valid() && forall c :: 0 <= c < q.numQueues && c != b ==> q.Queue(c) == old(q.Queue(c))
    ensures bucket.Pairs() == old(Visited(bucket.Pairs(), i, q.Queue(b)))
    ensures q.Queue(b) == if old(bucket.Pairs()[i].perm) == DUMMY then RestOf(old(q.Queue(b))) else old(q.Queue(b))
  {
    hide MultiQueue.Queue, MultiQueue.Valid;
    ghost var pairs := bucket.Pairs();
    var e := FillGap(q, b, Pair(bucket.data[2 * i], bucket.data[2 * i + 1]));
    bucket.Put(i, e);
    assert pairs[i := pairs[i]] == pairs;
  }

  /** What a pass keeps, and what it has achieved on the first i places. */
  ghost predicate PassedTo(pairs: seq<Pair>, queue: seq<Pair>, all: multiset<Pair>, i: nat) {
    && i <= |pairs| && multiset(Reals(pairs)) + multiset(queue) == all
    && (forall x :: x in queue ==> x.perm != DUMMY)
    && (queue == [] || forall k :: 0 <= k < i ==> pairs[k].perm != DUMMY)
  }

  lemma VisitPlace(pairs: seq<Pair>, i: nat, queue: seq<Pair>, all: multiset<Pair>)
    requires i < |pairs| && PassedTo(pairs, queue, all, i)
    ensures PassedTo(Visited(pairs, i, queue), if pairs[i].perm == DUMMY then RestOf(queue) else queue, all, i + 1)
  {
    hide Reals;
    if pairs[i].perm == DUMMY && queue != [] {
      FillStep(pairs, i, queue);
    }
  }

  /** One pass over a bucket: dummies are replaced by the pairs waiting in its queue, until it is empty.
      The bucket is both read and written through iterators, the queue is a nob array. */
  method FillPass(bucket: ShuffleBucket, q: MultiQueue<Pair>, b: nat) returns (ok: bool)
    requires bucket.Valid() && q.Valid() && b < q.numQueues && bucket.data != q.data && bucket.len > 0
    requires forall x :: x in q.Queue(b) ==> x.perm != DUMMY
    modifies q`lists, q.data, bucket.data
    ensures ok <==> q.data.Length < 4800
    ensures q.Valid() && forall c :: 0 <= c < q.numQueues && c != b ==> q.Queue(c) == old(q.Queue(c))
    ensures ok ==>
      PassedTo(bucket.Pairs(), q.Queue(b), old(multiset(Reals(bucket.Pairs())) + multiset(q.Queue(b))), bucket.len)
  {
    hide MultiQueue.Queue, MultiQueue.Valid, PassedTo, Visited, Opens;
    ghost var all := multiset(Reals(bucket.Pairs())) + multiset(q.Queue(b));
    PassStart(bucket.Pairs(), q.Queue(b));
    q.RegisteredLength();
    OpensBothWays(q.data.Length, 2 * bucket.len);
    ok := Opens(Lengths(q.data[0], 0, 2 * bucket.len, 2 * bucket.len));
    if !ok {
      return;
    }
    for i := 0 to bucket.len
      invariant q.Valid() && forall c :: 0 <= c < q.numQueues && c != b ==> q.Queue(c) == old(q.Queue(c))
      invariant PassedTo(bucket.Pairs(), q.Queue(b), all, i)
    {
      VisitPlace(bucket.Pairs(), i, q.Queue(b), all);
      FillPlace(bucket, q, b, i);
    }
  }

  lemma PassStart(pairs: seq<Pair>, queue: seq<Pair>)
    requires forall x :: x in queue ==> x.perm != DUMMY
    ensures PassedTo(pairs, queue, multiset(Reals(pairs)) + multiset(queue), 0)
  {}

  lemma PassEnd(pairs: seq<Pair>, queue: seq<Pair>, all: multiset<Pair>)
    requires PassedTo(pairs, queue, all, |pairs|)
    ensures multiset(Reals(pairs)) + multiset(queue) == all && (queue == [] || Reals(pairs) == pairs)
    ensures forall x :: x in queue ==> x.perm != DUMMY
  {
    if queue != [] {
      RealsOfReals(pairs);
    }
  }

  /** As many passes as the bucket has places. */
  method FillBucket(bucket: ShuffleBucket, q: MultiQueue<Pair>, b: nat) returns (ok: bool)
    requires bucket.Valid() && q.Valid() && b < q.numQueues && bucket.data != q.data && bucket.len > 0
    requires forall x :: x in q.Queue(b) ==> x.perm != DUMMY
    modifies q`lists, q.data, bucket.data
    ensures ok <==> q.data.Length < 4800
    ensures q.Valid() && forall c :: 0 <= c < q.numQueues && c != b ==> q.Queue(c) == old(q.Queue(c))
    ensures ok ==>
      && multiset(Reals(bucket.Pairs())) + multiset(q.Queue(b)) == old(multiset(Reals(bucket.Pairs())) + multiset(q.Queue(b)))
      && (q.Queue(b) == [] || Reals(bucket.Pairs()) == bucket.Pairs())
  {
    hide MultiQueue.Queue, MultiQueue.Valid, Reals, PassedTo;
    ghost var all := multiset(Reals(bucket.Pairs())) + multiset(q.Queue(b));
    PassStart(bucket.Pairs(), q.Queue(b));
    for w := 0 to bucket.len
      invariant q.Valid() && forall c :: 0 <= c < q.numQueues && c != b ==> q.Queue(c) == old(q.Queue(c))
      invariant PassedTo(bucket.Pairs(), q.Queue(b), all, if w > 0 then bucket.len else 0)
      invariant w > 0 ==> q.data.Length < 4800
    {
      PassStarted(bucket.Pairs(), q.Queue(b), all, if w > 0 then bucket.len else 0);
      ok := FillPass(bucket, q, b);
      if !ok {
        return;
      }
    }
    PassEnd(bucket.Pairs(), q.Queue(b), all);
    ok := true;
  }

  lemma PassStarted(pairs: seq<Pair>, queue: seq<Pair>, all: multiset<Pair>, i: nat)
    requires PassedTo(pairs, queue, all, i)
    ensures multiset(Reals(pairs)) + multiset(queue) == all && forall x :: x in queue ==> x.perm != DUMMY
  {}

  /** The bucket is filled as far as its share goes, and the queue holds what is left over. */
  ghost predicate Filled(pairs: seq<Pair>, left: seq<Pair>, share: seq<Pair>) {
    && multiset(Reals(pairs)) + multiset(left) == multiset(share)
    && |left| == Max(0, |share| - |pairs|)
  }

  lemma FilledIntro(pairs: seq<Pair>, left: seq<Pair>, share: seq<Pair>)
    requires multiset(Reals(pairs)) + multiset(left) == multiset(share)
    requires left == [] || Reals(pairs) == pairs
    ensures Filled(pairs, left, share)
  {
    hide Reals;
    assert |multiset(Reals(pairs)) + multiset(left)| == |Reals(pairs)| + |left|;
    assert |multiset(share)| == |share|;
  }

  lemma RoundsDone(pairs: seq<Pair>, queue: seq<Pair>, share: seq<Pair>, r: nat)
    requires Rounds(pairs, queue, share, r)
    ensures multiset(Reals(pairs)) + multiset(queue) == multiset(share)
  {
    hide Reals;
    assert pairs == pairs[..r] + pairs[r..];
    RealsConcat(pairs[..r], pairs[r..]);
    RealsOfDummies(pairs[r..]);
    assert multiset(Reals(pairs[..r]) + queue) == multiset(share);
  }

  /** The last loop of the spray, over all buckets. */
  method FillBuckets(buckets: seq<ShuffleBucket>, q: MultiQueue<Pair>, ghost shares: seq<seq<Pair>>)
    returns (ok: bool, ghost left: seq<seq<Pair>>)
    requires q.Valid() && q.numQueues == |buckets| == |shares| > 0 && Disjoint(buckets) && q.data !in Arrays(buckets)
    requires forall b :: 0 <= b < |buckets| ==> buckets[b].len > 0
    requires forall b, x :: 0 <= b < |buckets| && x in q.Queue(b) ==> x.perm != DUMMY
    requires forall b :: 0 <= b < |buckets| ==>
      multiset(Reals(buckets[b].Pairs())) + multiset(q.Queue(b)) == multiset(shares[b])
    modifies q`lists, q.data, Arrays(buckets)
    ensures ok <==> q.data.Length < 4800
    ensures ok ==> q.Valid() && |left| == |buckets|
    ensures ok ==> forall b :: 0 <= b < |buckets| ==> left[b] == q.Queue(b) && Filled(buckets[b].Pairs(), left[b], shares[b])
  {
    hide MultiQueue.Queue, MultiQueue.Valid, Reals, Filled;
    left := [];
    for b := 0 to |buckets|
      invariant q.Valid() && |left| == b && (b > 0 ==> q.data.Length < 4800)
      invariant forall c :: b <= c < |buckets| ==>
        buckets[c].Pairs() == old(buckets[c].Pairs()) && q.Queue(c) == old(q.Queue(c))
      invariant forall c :: 0 <= c < b ==> left[c] == q.Queue(c) && Filled(buckets[c].Pairs(), left[c], shares[c])
    {
      ok := FillBucket(buckets[b], q, b);
      if !ok {
        return;
      }
      FilledIntro(buckets[b].Pairs(), q.Queue(b), shares[b]);
      left := left + [q.Queue(b)];
    }
    ok := true;
  }

  /** The length of every bucket of a spray. */
  function SprayLen(len: nat, s: nat, n: nat): (l: nat)
    requires s > 0 && n > 0
    ensures s * l >= len && n * l >= len && (l > 0 ==> s * (l - 1) < len || n * (l - 1) < len)
  {
    Mul(s, CeilDiv(len, s), CeilDiv(len, n));
    Mul(n, CeilDiv(len, n), CeilDiv(len, s));
    Max(CeilDiv(len, s), CeilDiv(len, n))
  }

  lemma RoundFits(len: nat, s: nat, n: nat, r: nat)
    requires s > 0 && n > 0 && r * s < len
    ensures r < SprayLen(len, s, n)
  {
    hide CeilDiv;
    Mul(s, CeilDiv(len, s), r);
    assert r * s == s * r;
  }

  /** What is read in round r. */
  function RoundPairs(pairs: seq<Pair>, s: nat, r: nat): seq<Pair> {
    pairs[Min(r * s, |pairs|)..Min(Min(r * s, |pairs|) + s, |pairs|)]
  }

  /** Queue b after r rounds. */
  function QueueAt(pairs: seq<Pair>, s: nat, begin: int, idxLen: nat, n: nat, b: int, r: nat): seq<Pair>
    requires idxLen > 0
  {
    if r == 0 then []
    else RestOf(QueueAt(pairs, s, begin, idxLen, n, b, r - 1) + Select(RoundPairs(pairs, s, r - 1), begin, idxLen, n, b))
  }

  /** How many pairs wait in the first k queues after r rounds. */
  function WaitingAt(pairs: seq<Pair>, s: nat, begin: int, idxLen: nat, n: nat, r: nat, k: nat): nat
    requires idxLen > 0
  {
    if k == 0 then 0
    else WaitingAt(pairs, s, begin, idxLen, n, r, k - 1) + |QueueAt(pairs, s, begin, idxLen, n, k - 1, r)|
  }

  /** In every round what waits and what is read fit into the 2 * s blocks of the queues. */
  ghost predicate NeverFull(pairs: seq<Pair>, s: nat, begin: int, idxLen: nat, n: nat)
    requires idxLen > 0
  {
    forall r: nat {:trigger RoundPairs(pairs, s, r)} :: r * s < |pairs| ==>
      WaitingAt(pairs, s, begin, idxLen, n, r, n) + |Reals(RoundPairs(pairs, s, r))| <= 2 * s
  }

  lemma {:induction false} WaitingIs(q: MultiQueue<Pair>, pairs: seq<Pair>, s: nat, begin: int, idxLen: nat, r: nat,
                                     k: nat)
    requires idxLen > 0 && q.Valid() && k <= q.numQueues
    requires forall b :: 0 <= b < q.numQueues ==> q.Queue(b) == QueueAt(pairs, s, begin, idxLen, q.numQueues, b, r)
    ensures q.Waiting(k) == WaitingAt(pairs, s, begin, idxLen, q.numQueues, r, k)
  {
    hide QueueAt, MultiQueue.Queue, MultiQueue.Valid;
    if k > 0 {
      WaitingIs(q, pairs, s, begin, idxLen, r, k - 1);
    }
  }

  /** The first loop of the spray.  It aborts exactly when its sections do not open or the queues get full with
      more to come. */
  method SprayRounds(input: ShuffleBucket, s: nat, q: MultiQueue<Pair>, output: array<int>,
                     buckets: seq<ShuffleBucket>, idxLen: nat)
    returns (ok: bool)
    requires input.Valid() && 0 < input.len && idxLen > 0 && s > 0
    requires forall x :: x in input.Pairs() && x.perm != DUMMY ==> input.beginIdx <= x.perm
    requires q.Valid() && q.numQueues == |buckets| > 0 && output.Length == 2 * |buckets| && Disjoint(buckets)
    requires input.data != q.data && input.data != output && output != q.data
    requires input.data !in Arrays(buckets) && output !in Arrays(buckets) && q.data !in Arrays(buckets)
    requires forall b :: 0 <= b < |buckets| ==> buckets[b].len == SprayLen(input.len, s, |buckets|)
    requires q.capacity == 2 * s && forall b :: 0 <= b < |buckets| ==> q.Queue(b) == []
    requires forall b, i :: 0 <= b < |buckets| && 0 <= i < buckets[b].len ==> buckets[b].Pairs()[i].perm == DUMMY
    modifies q`lists, q.data, q.blocks, output, Arrays(buckets)
    ensures ok <==> q.data.Length < 4880 && NeverFull(input.Pairs(), s, input.beginIdx, idxLen, |buckets|)
    ensures ok ==> q.Valid()
    ensures ok ==> forall b :: 0 <= b < |buckets| ==>
      var share := Select(input.Pairs(), input.beginIdx, idxLen, |buckets|, b);
      && multiset(Reals(buckets[b].Pairs())) + multiset(q.Queue(b)) == multiset(share)
      && forall x :: x in q.Queue(b) ==> x.perm != DUMMY
  {
    hide MultiQueue.Queue, MultiQueue.Valid, Rounds, Select, SprayLen, Reals, QueueAt, WaitingAt, RoundPairs, NeverFull;
    var n := |buckets|;
    ghost var pairs := input.Pairs();
    var readIdx, r: nat := 0, 0;
    QueueStep(pairs, s, input.beginIdx, idxLen, n, 0);
    forall b | 0 <= b < n ensures Rounds(buckets[b].Pairs(), q.Queue(b), Select(pairs[..0], input.beginIdx, idxLen, n, b), 0) {
      RoundsStart(buckets[b].Pairs());
    }
    while readIdx < input.len
      invariant q.Valid() && readIdx == Min(r * s, input.len) && pairs == input.Pairs()
      invariant forall b :: 0 <= b < n ==>
        Rounds(buckets[b].Pairs(), q.Queue(b), Select(pairs[..readIdx], input.beginIdx, idxLen, n, b), r)
      invariant forall b :: 0 <= b < n ==> q.Queue(b) == QueueAt(pairs, s, input.beginIdx, idxLen, n, b, r)
      invariant NeverFullUpTo(pairs, s, input.beginIdx, idxLen, n, r) && (readIdx > 0 ==> q.data.Length < 4880)
      decreases input.len - readIdx
    {
      RoundFits(input.len, s, n, r);
      assert (r + 1) * s == r * s + s;
      QueueStep(pairs, s, input.beginIdx, idxLen, n, r);
      q.SharedCapacity();
      WaitingIs(q, pairs, s, input.beginIdx, idxLen, r, n);
      RoundPairsIs(pairs, s, r, readIdx);
      NeverFullStep(pairs, s, input.beginIdx, idxLen, n, r);
      ok, readIdx := SprayRound(input, readIdx, s, q, output, buckets, r, idxLen);
      if !ok {
        return;
      }
      r := r + 1;
    }
    assert pairs[..input.len] == pairs;
    NeverFullAll(pairs, s, input.beginIdx, idxLen, n, r);
    forall b | 0 <= b < n
      ensures multiset(Reals(buckets[b].Pairs())) + multiset(q.Queue(b)) == multiset(Select(pairs, input.beginIdx, idxLen, n, b))
      ensures forall x :: x in q.Queue(b) ==> x.perm != DUMMY
    {
      RoundsDone(buckets[b].Pairs(), q.Queue(b), Select(pairs, input.beginIdx, idxLen, n, b), r);
      RealOfShare(q.Queue(b), multiset(Reals(buckets[b].Pairs())), pairs, input.beginIdx, idxLen, n, b);
    }
    ok := true;
  }

  lemma QueueStep(pairs: seq<Pair>, s: nat, begin: int, idxLen: nat, n: nat, r: nat)
    requires idxLen > 0
    ensures forall b :: 0 <= b < n ==> QueueAt(pairs, s, begin, idxLen, n, b, 0) == []
    ensures forall b :: 0 <= b < n ==>
      QueueAt(pairs, s, begin, idxLen, n, b, r + 1)
        == RestOf(QueueAt(pairs, s, begin, idxLen, n, b, r) + Select(RoundPairs(pairs, s, r), begin, idxLen, n, b))
    ensures NeverFullUpTo(pairs, s, begin, idxLen, n, 0)
  {}

  lemma RoundPairsIs(pairs: seq<Pair>, s: nat, r: nat, at: nat)
    requires at == Min(r * s, |pairs|)
    ensures RoundPairs(pairs, s, r) == pairs[at..Min(at + s, |pairs|)]
  {}

  ghost predicate NeverFullUpTo(pairs: seq<Pair>, s: nat, begin: int, idxLen: nat, n: nat, m: nat)
    requires idxLen > 0
  {
    forall r: nat {:trigger RoundPairs(pairs, s, r)} :: r < m && r * s < |pairs| ==>
      WaitingAt(pairs, s, begin, idxLen, n, r, n) + |Reals(RoundPairs(pairs, s, r))| <= 2 * s
  }

  lemma NeverFullStep(pairs: seq<Pair>, s: nat, begin: int, idxLen: nat, n: nat, r: nat)
    requires idxLen > 0 && r * s < |pairs| && NeverFullUpTo(pairs, s, begin, idxLen, n, r)
    ensures var fits := WaitingAt(pairs, s, begin, idxLen, n, r, n) + |Reals(RoundPairs(pairs, s, r))| <= 2 * s;
      (fits ==> NeverFullUpTo(pairs, s, begin, idxLen, n, r + 1)) && (!fits ==> !NeverFull(pairs, s, begin, idxLen, n))
  {
    hide WaitingAt, Reals, RoundPairs;
    var round := RoundPairs(pairs, s, r);
  }

  lemma NeverFullAll(pairs: seq<Pair>, s: nat, begin: int, idxLen: nat, n: nat, r: nat)
    requires idxLen > 0 && r * s >= |pairs| && NeverFullUpTo(pairs, s, begin, idxLen, n, r)
    ensures NeverFull(pairs, s, begin, idxLen, n)
  {
    hide WaitingAt, Reals, RoundPairs;
    forall k: nat {:trigger RoundPairs(pairs, s, k)} | k * s < |pairs| ensures k < r {
      Mul(s, r, k);
      assert r * s == s * r && k * s == s * k;
    }
  }

  lemma RealOfShare(queue: seq<Pair>, rest: multiset<Pair>, pairs: seq<Pair>, begin: int, idxLen: nat, n: nat, b: int)
    requires idxLen > 0 && rest + multiset(queue) == multiset(Select(pairs, begin, idxLen, n, b))
    ensures forall x :: x in queue ==> x.perm != DUMMY
  {
    hide Select;
    SelectElements(pairs, begin, idxLen, n, b);
    forall x | x in queue ensures x.perm != DUMMY {
      assert x in multiset(queue);
      assert x in multiset(Select(pairs, begin, idxLen, n, b));
    }
  }

  /** The words of the queues of a spray. */
  function SprayWords(s: nat, n: nat): nat { 3 + n + 2 * s * 3 }

  /** The spray into buckets that are already there, all empty. */
  method SprayInto(input: ShuffleBucket, s: nat, buckets: seq<ShuffleBucket>, idxLen: nat)
    returns (ok: bool, ghost left: seq<seq<Pair>>)
    requires input.Valid() && 0 < input.len && 0 < s && 0 < |buckets| && idxLen > 0
    requires forall x :: x in input.Pairs() && x.perm != DUMMY ==> input.beginIdx <= x.perm
    requires Disjoint(buckets) && input.data !in Arrays(buckets)
    requires forall b :: 0 <= b < |buckets| ==> buckets[b].len == SprayLen(input.len, s, |buckets|)
    requires forall b, i :: 0 <= b < |buckets| && 0 <= i < buckets[b].len ==> buckets[b].Pairs()[i].perm == DUMMY
    modifies Arrays(buckets)
    ensures ok <==> SprayWords(s, |buckets|) < 4800 && NeverFull(input.Pairs(), s, input.beginIdx, idxLen, |buckets|)
    ensures ok ==> |left| == |buckets| && forall b :: 0 <= b < |buckets| ==>
      Filled(buckets[b].Pairs(), left[b], Select(input.Pairs(), input.beginIdx, idxLen, |buckets|, b))
  {
    hide MultiQueue.Queue, MultiQueue.Valid, Select, Filled, SprayLen, Reals, NeverFull, Opens;
    var n := |buckets|;
    ghost var pairs := input.Pairs();
    var output := new int[2 * n];
    left := [];
    // the first section of the first round
    OpensOneWay(SprayWords(s, n), 2 * Min(input.len, s));
    if !Opens(Lengths(SprayWords(s, n), 0, 2 * Min(input.len, s), 0)) {
      return false, left;
    }
    var q := new MultiQueue<Pair>(2 * s, n, 2);
    ok := SprayRounds(input, s, q, output, buckets, idxLen);
    if ok {
      SprayLenPositive(input.len, s, n);
      ghost var shares := seq(n, b requires 0 <= b < n => Select(pairs, input.beginIdx, idxLen, n, b));
      ok, left := FillBuckets(buckets, q, shares);
    }
  }

  lemma SprayLenPositive(len: nat, s: nat, n: nat)
    requires 0 < len && 0 < s && 0 < n
    ensures SprayLen(len, s, n) > 0
  {
    hide CeilDiv;
    CeilDivPositive(len, n);
  }

  /** `_cache_shuffle_spray`: every pair ends once in the bucket whose range contains its target index,
      or is left over in that bucket's queue, which happens exactly to what does not fit.  The spray
      aborts exactly when its leaky sections do not all open, which the queues decide, or the queues get full. */
  method Spray(input: ShuffleBucket, s: nat, n: nat)
    returns (ok: bool, buckets: seq<ShuffleBucket>, ghost left: seq<seq<Pair>>)
    requires input.Valid() && 0 < input.len && 0 < s && 0 < n
    requires input.beginIdx <= input.endIdx && RoundDiv(input.endIdx - input.beginIdx, n) > 0
    requires forall x :: x in input.Pairs() && x.perm != DUMMY ==> input.beginIdx <= x.perm < input.endIdx
    ensures ok <==>
      && SprayWords(s, n) < 4800
      && NeverFull(input.Pairs(), s, input.beginIdx, RoundDiv(input.endIdx - input.beginIdx, n), n)
    ensures ok ==> |buckets| == |left| == n && Disjoint(buckets) && forall b :: 0 <= b < n ==> fresh(buckets[b].data)
    ensures ok ==> var idxLen := RoundDiv(input.endIdx - input.beginIdx, n); forall b :: 0 <= b < n ==>
      && buckets[b].len == SprayLen(input.len, s, n)
      && buckets[b].beginIdx == BucketBegin(input.beginIdx, idxLen, b)
      && buckets[b].endIdx == BucketEnd(input.beginIdx, input.endIdx, idxLen, n, b)
      && Filled(buckets[b].Pairs(), left[b], Select(input.Pairs(), input.beginIdx, idxLen, n, b))
  {
    hide Select, Filled, CeilDiv, RoundDiv, BucketBegin, BucketEnd, NeverFull;
    var bucketLen := Max(CeilDiv(input.len, s), CeilDiv(input.len, n));
    var idxLen := RoundDiv(input.endIdx - input.beginIdx, n);
    buckets := InitEmptyShuffleBuckets(n, bucketLen, input.beginIdx, input.endIdx, idxLen);
    ok, left := SprayInto(input, s, buckets, idxLen);
  }

  lemma RoundsStart(pairs: seq<Pair>)
    requires forall i :: 0 <= i < |pairs| ==> pairs[i].perm == DUMMY
    ensures Rounds(pairs, [], [], 0)
  {}
}
