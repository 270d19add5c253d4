/** src/algo/merge_sort.cpp: merge sort whose merge step goes through two bounded queues. */
module MergeSorts {
  import opened Arithmetic
  import opened SimpleQueues
  import opened ShadowLayouts
  import opened Utils
  import PackedLists

  /** What a run ends with; the aborts end the program. */
  datatype Outcome = Done | Refused | QueueFull | QueueEmpty

  /** (int)sqrt((double)n) */
  function ISqrt(n: nat): (r: nat)
    ensures r * r <= n < (r + 1) * (r + 1)
  {
    if n == 0 then 0
    else
      var r := ISqrt(n - 1);
      if (r + 1) * (r + 1) <= n then r + 1 else r
  }

  lemma {:induction false} ISqrtMonotone(m: nat, n: nat)
    requires m <= n
    ensures ISqrt(m) <= ISqrt(n)
    decreases n - m
  {
    if m < n {
      ISqrtMonotone(m, n - 1);
    }
  }

  predicate Sorted(s: seq<int>) {
    forall i, j :: 0 <= i < j < |s| ==> s[i] <= s[j]
  }

  /** out is a merge of the first p elements of l and the first q of r, and nothing that is left is
      smaller than anything in it. */
  ghost predicate Merged(out: seq<int>, l: seq<int>, p: nat, r: seq<int>, q: nat) {
    && p <= |l| && q <= |r| && |out| == p + q
    && Sorted(out) && multiset(out) == multiset(l[..p]) + multiset(r[..q])
    && (p < |l| ==> forall i :: 0 <= i < |out| ==> out[i] <= l[p])
    && (q < |r| ==> forall i :: 0 <= i < |out| ==> out[i] <= r[q])
  }

  lemma TakeFromLeft(out: seq<int>, l: seq<int>, p: nat, r: seq<int>, q: nat)
    requires Sorted(l) && Sorted(r) && Merged(out, l, p, r, q) && p < |l|
    requires q < |r| ==> l[p] <= r[q]
    ensures Merged(out + [l[p]], l, p + 1, r, q)
  {
    assert l[..p + 1] == l[..p] + [l[p]];
  }

  lemma TakeFromRight(out: seq<int>, l: seq<int>, p: nat, r: seq<int>, q: nat)
    requires Sorted(l) && Sorted(r) && Merged(out, l, p, r, q) && q < |r|
    requires p < |l| ==> r[q] <= l[p]
    ensures Merged(out + [r[q]], l, p, r, q + 1)
  {
    assert r[..q + 1] == r[..q] + [r[q]];
  }

  lemma MergedAll(out: seq<int>, l: seq<int>, r: seq<int>, all: seq<int>)
    requires Merged(out, l, |l|, r, |r|) && multiset(l) + multiset(r) == multiset(all)
    ensures Sorted(out) && multiset(out) == multiset(all)
  {
    assert l[..|l|] == l && r[..|r|] == r;
  }

  // ----- the course of a merge step -----

  /** How many elements of an input have been read after i rounds. */
  function Read(i: nat, len: nat): nat {
    if i <= len then i else len
  }

  /** The round in which the k-th element is written, when the queues have s places. */
  function RoundOf(s: nat, k: nat): nat { s / 2 + k / 2 }

  /** The next element comes from the left: it is smaller, or equal and in the longer queue. */
  predicate GoesLeft(l: seq<int>, p: nat, r: seq<int>, q: nat, i: nat)
    requires p < |l| && q < |r|
  {
    l[p] < r[q] || (l[p] == r[q] && Read(i, |l|) - p > Read(i, |r|) - q)
  }

  /** How many of the first k elements that are written come from the left, without aborts. */
  function Taken(l: seq<int>, r: seq<int>, s: nat, k: nat): (p: nat)
    requires k <= |l| + |r|
    ensures p <= |l| && p <= k <= p + |r|
  {
    if k == 0 then 0
    else
      var p := Taken(l, r, s, k - 1);
      var q := k - 1 - p;
      if p == |l| then p
      else if q == |r| || GoesLeft(l, p, r, q, RoundOf(s, k - 1) + 1) then p + 1
      else p
  }

  /** Before round i reads, one queue is full, with an element for it left to read. */
  predicate FullBefore(l: seq<int>, p: nat, r: seq<int>, q: nat, s: nat, i: nat) {
    (i < |l| && i - p == s) || (i < |r| && i - q == s)
  }

  /** All that i rounds have read of one input has been written. */
  predicate EmptyAfter(l: seq<int>, p: nat, r: seq<int>, q: nat, i: nat) {
    p == Read(i, |l|) || q == Read(i, |r|)
  }

  /** When k elements have been written, something is waiting in both queues. */
  predicate StillFilled(l: seq<int>, r: seq<int>, s: nat, k: nat, i: nat) {
    k <= |l| + |r| && var p := Taken(l, r, s, k); !EmptyAfter(l, p, r, k - p, i)
  }

  predicate LopsidedAt(l: seq<int>, r: seq<int>, s: nat, k: nat)
    requires k <= |l| + |r|
  {
    var p := Taken(l, r, s, k);
    k % 2 == 0 && FullBefore(l, p, r, k - p, s, RoundOf(s, k))
  }

  predicate StarvedAt(l: seq<int>, r: seq<int>, s: nat, k: nat)
    requires k <= |l| + |r|
  {
    var p, i := Taken(l, r, s, k), RoundOf(s, k);
    (i < |l| || i < |r|) && EmptyAfter(l, p, r, k - p, i + 1)
  }

  /** The merge gets so far ahead in one input that s elements of the other one are waiting. */
  ghost predicate Lopsided(l: seq<int>, r: seq<int>, s: nat) {
    exists k: nat :: k <= |l| + |r| && LopsidedAt(l, r, s, k)
  }

  /** All that has been read of one input is merged while there is more of one to read. */
  ghost predicate Starved(l: seq<int>, r: seq<int>, s: nat) {
    exists k: nat :: k <= |l| + |r| && StarvedAt(l, r, s, k)
  }

  /** A point that a merge of l and r can pass: p elements of l and q of r have been taken. */
  ghost predicate MergePoint(l: seq<int>, p: nat, r: seq<int>, q: nat) {
    exists out :: Merged(out, l, p, r, q)
  }

  /** The course of the merge step passes through such points only. */
  lemma {:induction false} TakenMerges(l: seq<int>, r: seq<int>, s: nat, k: nat)
    requires Sorted(l) && Sorted(r) && k <= |l| + |r|
    ensures MergePoint(l, Taken(l, r, s, k), r, k - Taken(l, r, s, k))
  {
    hide Merged, Sorted, RoundOf;
    if k == 0 {
      NothingMerged(l, r);
    } else {
      TakenMerges(l, r, s, k - 1);
      var p := Taken(l, r, s, k - 1);
      var q := k - 1 - p;
      var out :| Merged(out, l, p, r, q);
      if Taken(l, r, s, k) == p + 1 {
        TakeFromLeft(out, l, p, r, q);
      } else {
        TakeFromRight(out, l, p, r, q);
      }
    }
  }

  lemma NothingMerged(l: seq<int>, r: seq<int>)
    ensures Merged([], l, 0, r, 0)
  {}

  /** If the inputs have no value in common, there is only one way to merge them, so the size of the queues
      does not matter for the course. */
  lemma OnlyPoint(l: seq<int>, p: nat, r: seq<int>, q: nat, s: nat)
    requires Sorted(l) && Sorted(r) && MergePoint(l, p, r, q) && forall i, j :: 0 <= i < |l| && 0 <= j < |r| ==> l[i] != r[j]
    ensures p + q <= |l| + |r| && p == Taken(l, r, s, p + q)
  {
    hide Taken, Sorted;
    TakenMerges(l, r, s, p + q);
    var p' := Taken(l, r, s, p + q);
    if p < p' {
      PointsCross(l, p, r, q, p', p + q - p');
    } else if p' < p {
      PointsCross(l, p', r, p + q - p', p, q);
    }
  }

  lemma PointsCross(l: seq<int>, p: nat, r: seq<int>, q: nat, p': nat, q': nat)
    requires MergePoint(l, p, r, q) && MergePoint(l, p', r, q') && p < p' && q' < q
    ensures l[p] == r[q']
  {
    var out :| Merged(out, l, p, r, q);
    var out' :| Merged(out', l, p', r, q');
    assert r[q'] in out by {
      assert r[..q][q'] in multiset(r[..q]);
      assert r[q'] in multiset(out);
    }
    assert l[p] in out' by {
      assert l[..p'][p] in multiset(l[..p']);
      assert l[p] in multiset(out');
    }
  }

  // ----- the operations of a merge step -----

  /** Moves the next element of an input, if there is one left, to its queue. */
  method Fetch(input: array<int>, i: nat, queue: SimpleQueue<int>, ghost p: nat) returns (r: Outcome)
    requires queue.Valid() && input != queue.header && input != queue.slots
    requires p <= Read(i, input.Length) && queue.Contents() == input[p..Read(i, input.Length)]
    modifies queue.header, queue.slots
    ensures r == Done || r == QueueFull
    ensures r == Done ==> queue.Valid() && queue.Contents() == input[p..Read(i + 1, input.Length)]
    ensures r == QueueFull <==> i < input.Length && i - p == queue.slots.Length
  {
    r := Done;
    if i < input.Length {
      var full := queue.Full();
      if full {
        return QueueFull;
      }
      queue.Enqueue(input[i]);
    }
  }

  /** Takes the smaller front element; between equal ones, from the longer queue. */
  method TakeSmaller(lhs: SimpleQueue<int>, rhs: SimpleQueue<int>) returns (outVal: int, fromLeft: bool)
    requires lhs.Valid() && rhs.Valid() && lhs.Contents() != [] && rhs.Contents() != []
    requires lhs.header != rhs.header && lhs.header != rhs.slots && rhs.header != lhs.slots
    modifies lhs.header, rhs.header
    ensures lhs.Valid() && rhs.Valid()
    ensures fromLeft <==> old(lhs.Contents()[0] < rhs.Contents()[0]
      || (lhs.Contents()[0] == rhs.Contents()[0] && |lhs.Contents()| > |rhs.Contents()|))
    ensures fromLeft ==> outVal == old(lhs.Contents()[0]) <= old(rhs.Contents()[0])
                         && lhs.Contents() == old(lhs.Contents())[1..] && rhs.Contents() == old(rhs.Contents())
    ensures !fromLeft ==> outVal == old(rhs.Contents()[0]) <= old(lhs.Contents()[0])
                          && lhs.Contents() == old(lhs.Contents()) && rhs.Contents() == old(rhs.Contents())[1..]
  {
    var lhsVal := lhs.Front();
    var rhsVal := rhs.Front();
    if lhsVal < rhsVal {
      outVal, fromLeft := lhsVal, true;
      lhs.Dequeue();
    } else if lhsVal == rhsVal {
      outVal := lhsVal;
      var lhsSize := lhs.Size();
      var rhsSize := rhs.Size();
      fromLeft := lhsSize > rhsSize;
      if fromLeft {
        lhs.Dequeue();
      } else {
        rhs.Dequeue();
      }
    } else {
      outVal, fromLeft := rhsVal, false;
      rhs.Dequeue();
    }
  }

  /** Moves the smaller front element to the output. */
  method Emit(lhs: SimpleQueue<int>, rhs: SimpleQueue<int>, out: array<int>, pos: nat,
              ghost l: seq<int>, ghost p: nat, ghost a: nat, ghost r: seq<int>, ghost q: nat, ghost b: nat)
    returns (fromLeft: bool)
    requires lhs.Valid() && rhs.Valid() && Sorted(l) && Sorted(r)
    requires p < a <= |l| && q < b <= |r| && lhs.Contents() == l[p..a] && rhs.Contents() == r[q..b]
    requires p + q == pos < out.Length && Merged(out[..pos], l, p, r, q)
    requires lhs.header != rhs.header && lhs.header != rhs.slots && rhs.header != lhs.slots
    requires out != lhs.header && out != lhs.slots && out != rhs.header && out != rhs.slots
    modifies lhs.header, rhs.header, out
    ensures lhs.Valid() && rhs.Valid()
    ensures fromLeft <==> l[p] < r[q] || (l[p] == r[q] && a - p > b - q)
    ensures fromLeft ==> lhs.Contents() == l[p + 1..a] && rhs.Contents() == r[q..b] && Merged(out[..pos + 1], l, p + 1, r, q)
    ensures !fromLeft ==> lhs.Contents() == l[p..a] && rhs.Contents() == r[q + 1..b] && Merged(out[..pos + 1], l, p, r, q + 1)
  {
    hide Merged, Sorted, SimpleQueue.Valid, SimpleQueue.Contents;
    ghost var done := out[..pos];
    WithoutFirst(l, p, a);
    WithoutFirst(r, q, b);
    var outVal;
    outVal, fromLeft := TakeSmaller(lhs, rhs);
    out[pos] := outVal;
    assert out[..pos + 1] == done + [outVal];
    Emitted(done, outVal, fromLeft, l, p, r, q);
  }

  lemma WithoutFirst(s: seq<int>, p: nat, a: nat)
    requires p < a <= |s|
    ensures s[p..a] != [] && |s[p..a]| == a - p && s[p..a][0] == s[p] && s[p..a][1..] == s[p + 1..a]
  {}

  lemma Emitted(done: seq<int>, outVal: int, fromLeft: bool, l: seq<int>, p: nat, r: seq<int>, q: nat)
    requires Sorted(l) && Sorted(r) && p < |l| && q < |r| && Merged(done, l, p, r, q)
    requires if fromLeft then outVal == l[p] <= r[q] else outVal == r[q] <= l[p]
    ensures if fromLeft then Merged(done + [outVal], l, p + 1, r, q) else Merged(done + [outVal], l, p, r, q + 1)
  {
    hide Merged, Sorted;
    if fromLeft {
      TakeFromLeft(done, l, p, r, q);
    } else {
      TakeFromRight(done, l, p, r, q);
    }
  }

  /** Moves what is left in a queue to the output. */
  method Drain(queue: SimpleQueue<int>, out: array<int>, start: nat) returns (pos: nat)
    requires queue.Valid() && out != queue.header && out != queue.slots
    requires start + |queue.Contents()| <= out.Length
    modifies queue.header, out
    ensures pos == start + |old(queue.Contents())| && out[..pos] == old(out[..start] + queue.Contents())
  {
    pos := start;
    var size := queue.Size();
    ghost var rest, done := queue.Contents(), out[..start];
    ghost var all := done + rest;
    while size > 0
      invariant queue.Valid() && size == |rest| && queue.Contents() == rest
      invariant start <= pos && pos + size <= out.Length && out[..pos] == done
      invariant done + rest == all
    {
      var outVal := queue.Front();
      queue.Dequeue();
      out[pos] := outVal;
      ShiftOne(done, rest);
      done, rest := done + [outVal], rest[1..];
      assert out[..pos + 1] == done;
      pos := pos + 1;
      size := queue.Size();
    }
  }

  lemma ShiftOne(done: seq<int>, rest: seq<int>)
    requires rest != []
    ensures (done + [rest[0]]) + rest[1..] == done + rest
  {}

  lemma {:induction false} RestOfLeft(out: seq<int>, l: seq<int>, p: nat, r: seq<int>, q: nat)
    requires Sorted(l) && Sorted(r) && p <= |l| && Merged(out, l, p, r, q) && (p == |l| || q == |r|)
    ensures Merged(out + l[p..], l, |l|, r, q)
    decreases |l| - p
  {
    hide Merged, Sorted;
    if p == |l| {
      assert out + l[p..] == out;
    } else {
      TakeFromLeft(out, l, p, r, q);
      RestOfLeft(out + [l[p]], l, p + 1, r, q);
      assert out + [l[p]] + l[p + 1..] == out + l[p..];
    }
  }

  lemma {:induction false} RestOfRight(out: seq<int>, l: seq<int>, p: nat, r: seq<int>, q: nat)
    requires Sorted(l) && Sorted(r) && q <= |r| && Merged(out, l, p, r, q) && (p == |l| || q == |r|)
    ensures Merged(out + r[q..], l, p, r, |r|)
    decreases |r| - q
  {
    hide Merged, Sorted;
    if q == |r| {
      assert out + r[q..] == out;
    } else {
      TakeFromRight(out, l, p, r, q);
      RestOfRight(out + [r[q]], l, p, r, q + 1);
      assert out + [r[q]] + r[q + 1..] == out + r[q..];
    }
  }

  /** The two queues and the output are six different arrays. */
  ghost predicate Apart(lhs: SimpleQueue<int>, rhs: SimpleQueue<int>, out: array<int>) {
    && lhs.header != rhs.header && lhs.header != rhs.slots && rhs.header != lhs.slots && lhs.slots != rhs.slots
    && out != lhs.header && out != lhs.slots && out != rhs.header && out != rhs.slots
  }

  /** The queues hold what has been read after i rounds and not been emitted, the output the rest. */
  ghost predicate Merging(lhs: SimpleQueue<int>, rhs: SimpleQueue<int>, out: array<int>, pos: nat,
                          l: seq<int>, p: nat, r: seq<int>, q: nat, i: nat)
    reads lhs.header, lhs.slots, rhs.header, rhs.slots, out
  {
    && Apart(lhs, rhs, out)
    && pos == p + q <= out.Length == |l| + |r| && p <= Read(i, |l|) && q <= Read(i, |r|)
    && Merged(out[..pos], l, p, r, q)
    && lhs.Valid() && lhs.Contents() == l[p..Read(i, |l|)]
    && rhs.Valid() && rhs.Contents() == r[q..Read(i, |r|)]
  }

  /** One round of reading, from both inputs. */
  method FetchBoth(lhsOut: array<int>, rhsOut: array<int>, lhs: SimpleQueue<int>, rhs: SimpleQueue<int>,
                   out: array<int>, pos: nat,
                   ghost p: nat, ghost q: nat, i: nat) returns (result: Outcome)
    requires Merging(lhs, rhs, out, pos, lhsOut[..], p, rhsOut[..], q, i)
    requires lhsOut != lhs.header && lhsOut != lhs.slots && lhsOut != rhs.header && lhsOut != rhs.slots
    requires rhsOut != lhs.header && rhsOut != lhs.slots && rhsOut != rhs.header && rhsOut != rhs.slots
    modifies lhs.header, lhs.slots, rhs.header, rhs.slots
    ensures result == Done || result == QueueFull
    ensures result == Done ==> Merging(lhs, rhs, out, pos, lhsOut[..], p, rhsOut[..], q, i + 1)
    ensures lhs.slots.Length == rhs.slots.Length ==>
      (result == QueueFull <==> FullBefore(lhsOut[..], p, rhsOut[..], q, lhs.slots.Length, i))
  {
    hide Merged;
    result := Fetch(lhsOut, i, lhs, p);
    if result == Done {
      result := Fetch(rhsOut, i, rhs, q);
    }
  }

  /** One value is written, unless a queue is empty. */
  method EmitOne(lhs: SimpleQueue<int>, rhs: SimpleQueue<int>, out: array<int>, start: nat, ghost s: nat,
                 ghost l: seq<int>, ghost p: nat, ghost r: seq<int>, ghost q: nat, ghost i: nat)
    returns (stopped: bool, ghost p': nat, ghost q': nat)
    requires Merging(lhs, rhs, out, start, l, p, r, q, i) && Sorted(l) && Sorted(r)
    requires i == RoundOf(s, start) + 1 && p == Taken(l, r, s, start)
    modifies lhs.header, rhs.header, out
    ensures stopped <==> EmptyAfter(l, p, r, q, i)
    ensures stopped ==> p' == p && q' == q && Merging(lhs, rhs, out, start, l, p, r, q, i)
    ensures !stopped ==> Merging(lhs, rhs, out, start + 1, l, p', r, q', i) && p' == Taken(l, r, s, start + 1)
  {
    hide Merged, Sorted, RoundOf;
    p', q' := p, q;
    var lhsSize := lhs.Size();
    var rhsSize := rhs.Size();
    stopped := !(lhsSize > 0 && rhsSize > 0);
    if !stopped {
      var fromLeft := Emit(lhs, rhs, out, start, l, p, Read(i, |l|), r, q, Read(i, |r|));
      p', q' := if fromLeft then p + 1 else p, if fromLeft then q else q + 1;
    }
  }

  /** One round of writing: up to two values, fewer if a queue is empty. */
  method EmitTwo(lhs: SimpleQueue<int>, rhs: SimpleQueue<int>, out: array<int>, start: nat, ghost s: nat,
                 ghost l: seq<int>, ghost p: nat, ghost r: seq<int>, ghost q: nat, ghost i: nat)
    returns (pos: nat, stopped: bool, ghost p': nat, ghost q': nat)
    requires Merging(lhs, rhs, out, start, l, p, r, q, i) && Sorted(l) && Sorted(r)
    requires i == RoundOf(s, start) + 1 && p == Taken(l, r, s, start) && start % 2 == 0
    modifies lhs.header, rhs.header, out
    ensures Merging(lhs, rhs, out, pos, l, p', r, q', i) && p' == Taken(l, r, s, pos)
    ensures !stopped ==> pos == start + 2
    ensures !stopped ==> StillFilled(l, r, s, start, i) && StillFilled(l, r, s, start + 1, i)
    ensures stopped ==> start <= pos <= start + 1 && EmptyAfter(l, p', r, q', i)
  {
    hide Merged, Sorted, Taken, EmptyAfter;
    pos, stopped, p', q' := start, false, p, q;
    var j := 0;
    while j < 2 && !stopped
      invariant j <= 2 && pos == start + j <= |l| + |r| && p' == Taken(l, r, s, pos)
      invariant Merging(lhs, rhs, out, pos, l, p', r, q', i)
      invariant forall k :: start <= k < pos ==> StillFilled(l, r, s, k, i)
      invariant stopped ==> j <= 1 && EmptyAfter(l, p', r, q', i)
      decreases 2 - j, !stopped
    {
      hide Merging;
      MergingLength(lhs, rhs, out, pos, l, p', r, q', i);
      stopped, p', q' := EmitOne(lhs, rhs, out, pos, s, l, p', r, q', i);
      if !stopped {
        pos := pos + 1;
        j := j + 1;
      }
    }
  }

  lemma MergingLength(lhs: SimpleQueue<int>, rhs: SimpleQueue<int>, out: array<int>, pos: nat,
                      l: seq<int>, p: nat, r: seq<int>, q: nat, i: nat)
    requires Merging(lhs, rhs, out, pos, l, p, r, q, i)
    ensures pos == p + q <= out.Length == |l| + |r| && p <= |l| && q <= |r|
  {}

  /** The first loop: both queues are filled up to half their capacity, so neither gets full. */
  method Prefill(lhsOut: array<int>, rhsOut: array<int>, lhs: SimpleQueue<int>, rhs: SimpleQueue<int>,
                 out: array<int>, halfS: nat)
    returns (i: nat)
    requires Merging(lhs, rhs, out, 0, lhsOut[..], 0, rhsOut[..], 0, 0)
    requires lhsOut != lhs.header && lhsOut != lhs.slots && lhsOut != rhs.header && lhsOut != rhs.slots
    requires rhsOut != lhs.header && rhsOut != lhs.slots && rhsOut != rhs.header && rhsOut != rhs.slots
    requires halfS == lhs.slots.Length / 2 && 1 <= lhs.slots.Length == rhs.slots.Length
    modifies lhs.header, lhs.slots, rhs.header, rhs.slots
    ensures i == halfS && Merging(lhs, rhs, out, 0, lhsOut[..], 0, rhsOut[..], 0, i)
  {
    hide Merged, Merging;
    ghost var l, r := lhsOut[..], rhsOut[..];
    i := 0;
    while i < halfS
      invariant i <= halfS && lhsOut[..] == l && rhsOut[..] == r
      invariant Merging(lhs, rhs, out, 0, l, 0, r, 0, i)
    {
      var result := FetchBoth(lhsOut, rhsOut, lhs, rhs, out, 0, 0, 0, i);
      assert result == Done;
      i := i + 1;
    }
  }

  /** With queues twice as long as the longer input the merge step never aborts. */
  lemma RoomForAll(l: seq<int>, r: seq<int>, s: nat)
    requires |l| <= |r| <= s / 2
    ensures !Lopsided(l, r, s) && !Starved(l, r, s)
  {
    hide Taken;
  }

  /** Nothing has gone wrong before the first n elements were written. */
  ghost predicate WentWell(l: seq<int>, r: seq<int>, s: nat, n: nat) {
    forall k: nat :: k < n && k <= |l| + |r| ==> !LopsidedAt(l, r, s, k) && !StarvedAt(l, r, s, k)
  }

  lemma NothingWrong(l: seq<int>, r: seq<int>, s: nat)
    ensures WentWell(l, r, s, 0) && Taken(l, r, s, 0) == 0
  {}

  /** A round in which neither queue was full and none got empty, or that had nothing more to read. */
  lemma RoundWentWell(l: seq<int>, r: seq<int>, s: nat, i: nat)
    requires s / 2 <= i && WentWell(l, r, s, 2 * (i - s / 2)) && 2 * (i - s / 2) <= |l| + |r|
    requires var p := Taken(l, r, s, 2 * (i - s / 2)); !FullBefore(l, p, r, 2 * (i - s / 2) - p, s, i)
    requires i < |l| || i < |r| ==>
      StillFilled(l, r, s, 2 * (i - s / 2), i + 1) && StillFilled(l, r, s, 2 * (i - s / 2) + 1, i + 1)
    ensures WentWell(l, r, s, 2 * (i + 1 - s / 2))
  {
    hide Taken, FullBefore, EmptyAfter;
    var m := i - s / 2;
    forall k: nat | 2 * m <= k < 2 * (m + 1) && k <= |l| + |r|
      ensures !LopsidedAt(l, r, s, k) && !StarvedAt(l, r, s, k)
    {
      assert RoundOf(s, k) == i;
      if k == 2 * m {
        assert !LopsidedAt(l, r, s, k);
      } else {
        assert k == 2 * m + 1 && k % 2 == 1;
      }
    }
  }

  /** After the last element has been read nothing can go wrong any more. */
  lemma AllWentWell(l: seq<int>, r: seq<int>, s: nat, i: nat)
    requires s / 2 <= i && |l| <= i && |r| <= i && WentWell(l, r, s, 2 * (i - s / 2))
    ensures !Lopsided(l, r, s) && !Starved(l, r, s)
  {
    hide Taken;
  }

  lemma FoundLopsided(l: seq<int>, r: seq<int>, s: nat, k: nat, i: nat)
    requires k <= |l| + |r| && k % 2 == 0 && i == RoundOf(s, k)
    requires var p := Taken(l, r, s, k); FullBefore(l, p, r, k - p, s, i)
    ensures Lopsided(l, r, s)
  {
    hide Taken;
    assert LopsidedAt(l, r, s, k);
  }

  lemma FoundStarved(l: seq<int>, r: seq<int>, s: nat, k: nat, i: nat)
    requires k <= |l| + |r| && i == RoundOf(s, k) && (i < |l| || i < |r|)
    requires var p := Taken(l, r, s, k); EmptyAfter(l, p, r, k - p, i + 1)
    ensures Starved(l, r, s)
  {
    hide Taken;
    assert StarvedAt(l, r, s, k);
  }

  /** The largest capacity with which the leaky section of a merge step opens: both queues are nob arrays. */
  const MAX_CAPACITY: nat := 2396

  /** The merge step of `_merge_sort`; s is the capacity of the queues.  It succeeds if and only if its section
      opens and neither queue gets full or empty too early. */
  method Merge(lhsOut: array<int>, rhsOut: array<int>, arrOut: array<int>, s: nat) returns (result: Outcome)
    requires arrOut.Length == lhsOut.Length + rhsOut.Length
    requires 1 <= lhsOut.Length <= rhsOut.Length <= lhsOut.Length + 1 && lhsOut != arrOut && rhsOut != arrOut
    requires 1 <= s
    requires Sorted(lhsOut[..]) && Sorted(rhsOut[..])
    modifies arrOut
    ensures result == Done ==> Sorted(arrOut[..]) && multiset(arrOut[..]) == multiset(lhsOut[..] + rhsOut[..])
    ensures result == Refused <==> s > MAX_CAPACITY
    ensures result == Done <==> s <= MAX_CAPACITY && !Lopsided(lhsOut[..], rhsOut[..], s) && !Starved(lhsOut[..], rhsOut[..], s)
    ensures result == QueueFull ==> Lopsided(lhsOut[..], rhsOut[..], s)
    ensures result == QueueEmpty ==> Starved(lhsOut[..], rhsOut[..], s)
  {
    hide Merged, Sorted, Merging, Lopsided, Starved, Opens;
    var len := arrOut.Length;
    OpensBothWays(2 * (3 + s), len);
    if !Opens(Lengths(2 * (3 + s), 0, len, len)) {
      return Refused;
    }
    ghost var l, r := lhsOut[..], rhsOut[..];
    var lhsQ := new SimpleQueue<int>(s, 1);
    var rhsQ := new SimpleQueue<int>(s, 1);
    MergingStart(lhsQ, rhsQ, arrOut, l, r);
    var i := Prefill(lhsOut, rhsOut, lhsQ, rhsQ, arrOut, s / 2);
    ghost var p: nat, q: nat;
    var pos;
    result, pos, i, p, q := MergeQueues(lhsOut, rhsOut, lhsQ, rhsQ, arrOut, s, l, r);
    if result == Done {
      DrainBoth(lhsQ, rhsQ, arrOut, pos, l, p, r, q, i);
    }
  }

  /** One round of the second loop: an element of each input is read, and up to two are written. */
  method MergeRound(lhsOut: array<int>, rhsOut: array<int>, lhsQ: SimpleQueue<int>, rhsQ: SimpleQueue<int>,
                    arrOut: array<int>, ghost s: nat, ghost l: seq<int>, ghost r: seq<int>,
                    start: nat, i: nat, ghost p: nat, ghost q: nat)
    returns (result: Outcome, pos: nat, stopped: bool, ghost p': nat, ghost q': nat)
    requires l == lhsOut[..] && r == rhsOut[..] && Sorted(l) && Sorted(r)
    requires Merging(lhsQ, rhsQ, arrOut, start, l, p, r, q, i) && lhsQ.slots.Length == rhsQ.slots.Length == s
    requires s / 2 <= i && start == 2 * (i - s / 2) <= |l| + |r| && p == Taken(l, r, s, start) && WentWell(l, r, s, start)
    requires lhsOut != lhsQ.header && lhsOut != lhsQ.slots && lhsOut != rhsQ.header && lhsOut != rhsQ.slots && lhsOut != arrOut
    requires rhsOut != lhsQ.header && rhsOut != lhsQ.slots && rhsOut != rhsQ.header && rhsOut != rhsQ.slots && rhsOut != arrOut
    modifies lhsQ.header, lhsQ.slots, rhsQ.header, rhsQ.slots, arrOut
    ensures result == Done || (result == QueueFull && Lopsided(l, r, s)) || (result == QueueEmpty && Starved(l, r, s))
    ensures result == Done ==>
      && Merging(lhsQ, rhsQ, arrOut, pos, l, p', r, q', i + 1) && pos <= |l| + |r| && p' == Taken(l, r, s, pos)
      && WentWell(l, r, s, 2 * (i + 1 - s / 2)) && (!stopped ==> pos == start + 2)
      && (stopped ==> |l| <= i && |r| <= i && (p' == |l| || q' == |r|))
  {
    hide Merged, Sorted, Merging, Lopsided, Starved, Taken, WentWell, FullBefore, StillFilled, SimpleQueue.Contents,
         SimpleQueue.Valid;
    pos, stopped, p', q' := start, false, p, q;
    MergingLength(lhsQ, rhsQ, arrOut, pos, l, p, r, q, i);
    result := FetchBoth(lhsOut, rhsOut, lhsQ, rhsQ, arrOut, pos, p, q, i);
    if result != Done {
      FoundLopsided(l, r, s, pos, i);
      return;
    }
    pos, stopped, p', q' := EmitTwo(lhsQ, rhsQ, arrOut, pos, s, l, p, r, q, i + 1);
    MergingLength(lhsQ, rhsQ, arrOut, pos, l, p', r, q', i + 1);
    if stopped && (i < lhsOut.Length || i < rhsOut.Length) {
      FoundStarved(l, r, s, pos, i);
      result := QueueEmpty;
      return;
    }
    RoundWentWell(l, r, s, i);
  }

  /** The second loop. */
  method MergeQueues(lhsOut: array<int>, rhsOut: array<int>, lhsQ: SimpleQueue<int>, rhsQ: SimpleQueue<int>,
                     arrOut: array<int>, s: nat, ghost l: seq<int>, ghost r: seq<int>)
    returns (result: Outcome, pos: nat, i: nat, ghost p: nat, ghost q: nat)
    requires l == lhsOut[..] && r == rhsOut[..] && Sorted(l) && Sorted(r) && |l| <= |r| <= |l| + 1
    requires Merging(lhsQ, rhsQ, arrOut, 0, l, 0, r, 0, s / 2) && lhsQ.slots.Length == rhsQ.slots.Length == s
    requires lhsOut != lhsQ.header && lhsOut != lhsQ.slots && lhsOut != rhsQ.header && lhsOut != rhsQ.slots && lhsOut != arrOut
    requires rhsOut != lhsQ.header && rhsOut != lhsQ.slots && rhsOut != rhsQ.header && rhsOut != rhsQ.slots && rhsOut != arrOut
    modifies lhsQ.header, lhsQ.slots, rhsQ.header, rhsQ.slots, arrOut
    ensures result == Done || (result == QueueFull && Lopsided(l, r, s)) || (result == QueueEmpty && Starved(l, r, s))
    ensures result == Done ==> !Lopsided(l, r, s) && !Starved(l, r, s)
    ensures result == Done ==> Merging(lhsQ, rhsQ, arrOut, pos, l, p, r, q, i) && |l| <= i && |r| <= i && (p == |l| || q == |r|)
  {
    hide Merged, Sorted, Merging, Lopsided, Starved, Taken, WentWell, SimpleQueue.Contents, SimpleQueue.Valid;
    var halfS, rhsLen := s / 2, rhsOut.Length;
    i, pos, p, q := halfS, 0, 0, 0;
    result := Done;
    var stopped := false;
    NothingWrong(l, r, s);
    while i < rhsLen + halfS && !stopped
      invariant halfS <= i <= rhsLen + halfS && lhsOut[..] == l && rhsOut[..] == r && result == Done
      invariant Merging(lhsQ, rhsQ, arrOut, pos, l, p, r, q, i)
      invariant pos <= |l| + |r| && p == Taken(l, r, s, pos)
      invariant WentWell(l, r, s, 2 * (i - halfS))
      invariant !stopped ==> pos == 2 * (i - halfS)
      invariant stopped ==> i > rhsLen && (p == |l| || q == |r|)
      decreases rhsLen + halfS - i
    {
      result, pos, stopped, p, q := MergeRound(lhsOut, rhsOut, lhsQ, rhsQ, arrOut, s, l, r, pos, i, p, q);
      if result != Done {
        return;
      }
      i := i + 1;
    }
    AllWentWell(l, r, s, i);
    MergingLength(lhsQ, rhsQ, arrOut, pos, l, p, r, q, i);
    if !stopped {
      MergingEnd(lhsQ, rhsQ, arrOut, pos, l, p, r, q, i);
      var lhsSize := lhsQ.Size();
      var rhsSize := rhsQ.Size();
      // "unprocessed data": 2 * rhs_len >= len values are out, nothing can be left in both queues
      assert !(lhsSize > 0 && rhsSize > 0);
    }
  }

  /** The last two loops, with one of the inputs used up. */
  method DrainBoth(lhs: SimpleQueue<int>, rhs: SimpleQueue<int>, out: array<int>, start: nat,
                   ghost l: seq<int>, ghost p: nat, ghost r: seq<int>, ghost q: nat, ghost i: nat)
    requires Merging(lhs, rhs, out, start, l, p, r, q, i) && i >= |l| && i >= |r| && Sorted(l) && Sorted(r)
    requires p == |l| || q == |r|
    modifies lhs.header, rhs.header, out
    ensures Sorted(out[..]) && multiset(out[..]) == multiset(l + r)
  {
    hide Merged, Sorted;
    MergingEnd(lhs, rhs, out, start, l, p, r, q, i);
    ghost var done := out[..start];
    RestOfLeft(done, l, p, r, q);
    RestOfRight(done + l[p..], l, |l|, r, q);
    var pos := Drain(lhs, out, start);
    pos := Drain(rhs, out, pos);
    assert out[..pos] == out[..];
    MergedAll(out[..], l, r, l + r);
  }

  lemma MergingStart(lhs: SimpleQueue<int>, rhs: SimpleQueue<int>, out: array<int>, l: seq<int>, r: seq<int>)
    requires Apart(lhs, rhs, out) && out.Length == |l| + |r|
    requires lhs.Valid() && lhs.Contents() == [] && rhs.Valid() && rhs.Contents() == []
    ensures Merging(lhs, rhs, out, 0, l, 0, r, 0, 0)
  {}

  /** What is known when everything has been read. */
  lemma MergingEnd(lhs: SimpleQueue<int>, rhs: SimpleQueue<int>, out: array<int>, pos: nat,
                   l: seq<int>, p: nat, r: seq<int>, q: nat, i: nat)
    requires Merging(lhs, rhs, out, pos, l, p, r, q, i) && i >= |l| && i >= |r|
    ensures pos == p + q <= out.Length && p <= |l| && q <= |r| && Merged(out[..pos], l, p, r, q)
    ensures lhs.Valid() && rhs.Valid() && lhs.Contents() == l[p..] && rhs.Contents() == r[q..]
  {}

  // ----- the whole sort -----

  function InsertSorted(x: int, s: seq<int>): (r: seq<int>)
    ensures multiset(r) == multiset(s) + multiset{x}
  {
    if s == [] || x <= s[0] then [x] + s
    else
      assert s == [s[0]] + s[1..];
      [s[0]] + InsertSorted(x, s[1..])
  }

  lemma {:induction false} InsertKeepsSorted(x: int, s: seq<int>)
    requires Sorted(s)
    ensures Sorted(InsertSorted(x, s))
  {
    if s != [] && x > s[0] {
      var rest := InsertSorted(x, s[1..]);
      InsertKeepsSorted(x, s[1..]);
      forall y | y in rest ensures s[0] <= y {
        assert y in multiset(rest);
        assert y == x || y in multiset(s[1..]);
      }
      PrependSorted(s[0], rest);
    }
  }

  lemma PrependSorted(x: int, s: seq<int>)
    requires Sorted(s) && forall y :: y in s ==> x <= y
    ensures Sorted([x] + s)
  {
    var t := [x] + s;
    forall i, j | 0 <= i < j < |t| ensures t[i] <= t[j] {
      assert t[j] == s[j - 1] && s[j - 1] in s;
    }
  }

  /** What sorting s has to yield. */
  function SortedOf(s: seq<int>): (r: seq<int>)
    ensures Sorted(r) && multiset(r) == multiset(s)
  {
    if s == [] then []
    else
      assert s == s[..|s| - 1] + [s[|s| - 1]];
      InsertKeepsSorted(s[|s| - 1], SortedOf(s[..|s| - 1]));
      InsertSorted(s[|s| - 1], SortedOf(s[..|s| - 1]))
  }

  lemma SortedTail(a: seq<int>)
    requires Sorted(a) && a != []
    ensures Sorted(a[1..]) && forall x :: x in multiset(a) ==> a[0] <= x
    ensures a[0] in multiset(a) && multiset(a[1..]) == multiset(a) - multiset{a[0]}
  {
    var t := a[1..];
    forall i, j | 0 <= i < j < |t| ensures t[i] <= t[j] {
      assert t[i] == a[i + 1] && t[j] == a[j + 1];
    }
    assert a == [a[0]] + t;
    forall x | x in multiset(a) ensures a[0] <= x {
      var i :| 0 <= i < |a| && a[i] == x;
    }
  }

  /** There is no other result. */
  lemma {:induction false} SortedOnce(a: seq<int>, b: seq<int>)
    requires Sorted(a) && Sorted(b) && multiset(a) == multiset(b)
    ensures a == b
  {
    hide Sorted;
    EmptyMultiset(a);
    EmptyMultiset(b);
    if a != [] {
      SortedTail(a);
      SortedTail(b);
      assert a[0] == b[0];
      SortedOnce(a[1..], b[1..]);
    }
  }

  lemma EmptyMultiset(a: seq<int>)
    ensures a == [] <==> multiset(a) == multiset{}
  {
    if a != [] {
      assert a[0] in multiset(a);
    }
  }

  /** r is the square root of n, rounded down. */
  predicate FloorRoot(r: nat, n: nat) {
    r * r <= n < (r + 1) * (r + 1)
  }

  /** The capacity of the queues of a merge step. */
  function Capacity(len: nat, blowUpFactor: nat): (c: nat)
    ensures exists r: nat :: FloorRoot(r, len) && c == blowUpFactor * r
  {
    Mul(ISqrt(len), 0, blowUpFactor);
    assert FloorRoot(ISqrt(len), len);
    blowUpFactor * ISqrt(len)
  }

  /** The sort of s goes through: all sections open, and no queue of any merge step gets full or empty too
      early. */
  ghost predicate Succeeds(s: seq<int>, blowUpFactor: nat)
    decreases |s|
  {
    |s| <= 1 || (
      var l, r, capacity := s[..|s| / 2], s[|s| / 2..], Capacity(|s|, blowUpFactor);
      && Succeeds(l, blowUpFactor) && Succeeds(r, blowUpFactor)
      && capacity <= MAX_CAPACITY && !Lopsided(SortedOf(l), SortedOf(r), capacity) && !Starved(SortedOf(l), SortedOf(r), capacity))
  }

  lemma SucceedsIs(s: seq<int>, l: seq<int>, r: seq<int>, blowUpFactor: nat)
    requires 2 <= |s| && l == s[..|s| / 2] && r == s[|s| / 2..]
    ensures var capacity := Capacity(|s|, blowUpFactor);
      Succeeds(s, blowUpFactor) <==>
        && Succeeds(l, blowUpFactor) && Succeeds(r, blowUpFactor)
        && capacity <= MAX_CAPACITY && !Lopsided(SortedOf(l), SortedOf(r), capacity) && !Starved(SortedOf(l), SortedOf(r), capacity)
  {
    hide Lopsided, Starved, SortedOf, Capacity;
  }

  /** The two recursive calls. */
  method SortHalves(arrIn: array<int>, start: nat, len: nat, blowUpFactor: nat, ghost s: seq<int>)
    returns (result: Outcome, lhsOut: array<int>, rhsOut: array<int>)
    requires 2 <= len && start + len <= arrIn.Length && 1 <= blowUpFactor && s == arrIn[start..start + len]
    ensures fresh(lhsOut) && fresh(rhsOut) && lhsOut.Length == len / 2 && rhsOut.Length == len - len / 2
    ensures result == Done ==> lhsOut[..] == SortedOf(s[..len / 2]) && rhsOut[..] == SortedOf(s[len / 2..])
    ensures result == Done <==> Succeeds(s[..len / 2], blowUpFactor) && Succeeds(s[len / 2..], blowUpFactor)
    ensures result == Refused ==> Capacity(len, blowUpFactor) > MAX_CAPACITY
    decreases len, 0
  {
    hide Capacity, Sorted, Succeeds, SortedOf;
    var lhsLen := len / 2;
    var rhsLen := len - lhsLen;
    ghost var input := arrIn[..];
    QueueCapacity(blowUpFactor, lhsLen, len);
    QueueCapacity(blowUpFactor, rhsLen, len);
    lhsOut := new int[lhsLen];
    rhsOut := new int[rhsLen];
    assert s == input[start..start + len] && arrIn[start..start + lhsLen] == input[start..start + lhsLen];
    result := MergeSortRec(arrIn, start, lhsLen, lhsOut, blowUpFactor, s[..lhsLen]);
    if result == Done {
      assert arrIn[start + lhsLen..start + len] == input[start + lhsLen..start + len];
      result := MergeSortRec(arrIn, start + lhsLen, rhsLen, rhsOut, blowUpFactor, s[lhsLen..]);
    }
  }

  /** Sorts the len elements from `start` on, s, into arrOut. */
  method MergeSortRec(arrIn: array<int>, start: nat, len: nat, arrOut: array<int>, blowUpFactor: nat, ghost s: seq<int>)
    returns (result: Outcome)
    requires 1 <= len && start + len <= arrIn.Length && arrOut.Length == len && arrIn != arrOut
    requires 1 <= blowUpFactor && s == arrIn[start..start + len]
    modifies arrOut
    ensures result == Done ==> arrOut[..] == SortedOf(s)
    ensures result == Done <==> Succeeds(s, blowUpFactor)
    ensures result == Refused ==> Capacity(len, blowUpFactor) > MAX_CAPACITY
    decreases len, 1
  {
    hide Capacity, Sorted, Lopsided, Starved, Succeeds, SortedOf;
    if len == 1 {
      arrOut[0] := arrIn[start];
      assert s == arrOut[..];
      Singleton(s, blowUpFactor);
      return Done;
    }
    QueueCapacity(blowUpFactor, len, len);
    ghost var l, r := s[..len / 2], s[len / 2..];
    SucceedsIs(s, l, r, blowUpFactor);
    var lhsOut, rhsOut;
    result, lhsOut, rhsOut := SortHalves(arrIn, start, len, blowUpFactor, s);
    if result == Done {
      result := Merge(lhsOut, rhsOut, arrOut, Capacity(len, blowUpFactor));
      if result == Done {
        assert s == l + r;
        MergedHalves(s, l, r, arrOut[..]);
      }
    }
  }

  lemma MergedHalves(s: seq<int>, l: seq<int>, r: seq<int>, out: seq<int>)
    requires s == l + r && Sorted(out) && multiset(out) == multiset(SortedOf(l) + SortedOf(r))
    ensures out == SortedOf(s)
  {
    hide SortedOf, Sorted;
    SortedOnce(out, SortedOf(s));
  }

  /** The blow-up factor is so large that no merge step can abort, whatever the data. */
  predicate NeverAborts(len: nat, blowUpFactor: nat) {
    len <= 1 || (
      && len - len / 2 <= Capacity(len, blowUpFactor) / 2
      && NeverAborts(len / 2, blowUpFactor) && NeverAborts(len - len / 2, blowUpFactor))
  }

  /** All leaky sections open. */
  predicate MergesOpen(len: nat, blowUpFactor: nat) {
    len <= 1 || Capacity(len, blowUpFactor) <= MAX_CAPACITY
  }

  /** Then the sort goes through if and only if its sections open. */
  lemma {:induction false} RoomForEverySort(s: seq<int>, blowUpFactor: nat)
    requires 1 <= blowUpFactor
    ensures Succeeds(s, blowUpFactor) ==> MergesOpen(|s|, blowUpFactor)
    ensures NeverAborts(|s|, blowUpFactor) && MergesOpen(|s|, blowUpFactor) ==> Succeeds(s, blowUpFactor)
    decreases |s|
  {
    hide Capacity, Lopsided, Starved, SortedOf;
    if |s| > 1 && NeverAborts(|s|, blowUpFactor) && MergesOpen(|s|, blowUpFactor) {
      var l, r := s[..|s| / 2], s[|s| / 2..];
      QueueCapacity(blowUpFactor, |l|, |s|);
      QueueCapacity(blowUpFactor, |r|, |s|);
      RoomForEverySort(l, blowUpFactor);
      RoomForEverySort(r, blowUpFactor);
      assert |multiset(SortedOf(l))| == |multiset(l)| && |multiset(SortedOf(r))| == |multiset(r)|;
      RoomForAll(SortedOf(l), SortedOf(r), Capacity(|s|, blowUpFactor));
    }
  }

  lemma Singleton(s: seq<int>, blowUpFactor: nat)
    requires |s| == 1
    ensures s == SortedOf(s) && Succeeds(s, blowUpFactor)
  {
    hide SortedOf;
    SortedOnce(s, SortedOf(s));
  }

  /** The queues of a recursive call are no larger. */
  lemma QueueCapacity(blowUpFactor: nat, m: nat, n: nat)
    requires 1 <= blowUpFactor && 1 <= m <= n
    ensures 1 <= Capacity(m, blowUpFactor) <= Capacity(n, blowUpFactor)
  {
    ISqrtMonotone(m, n);
    ISqrtMonotone(1, m);
    assert ISqrt(1) == 1;
    Mul(blowUpFactor, 1, ISqrt(m));
    Mul(blowUpFactor, ISqrt(m), ISqrt(n));
  }

  // ----- closed forms -----

  lemma RootIs(r: nat, q: nat, n: nat)
    requires FloorRoot(r, n) && FloorRoot(q, n)
    ensures r == q
  {
    if r < q {
      Mul(r + 1, r + 1, q);
      Mul(q, r + 1, q);
    } else if q < r {
      Mul(q + 1, q + 1, r);
      Mul(r, q + 1, r);
    }
  }

  /** With the blow-up factor 1 the queues of the smallest merge step have one place, and it starves: no sort of two elements
      or more goes through. */
  lemma {:induction false} FactorOne(s: seq<int>)
    requires 2 <= |s|
    ensures !Succeeds(s, 1)
    decreases |s|
  {
    hide Capacity, FloorRoot, Lopsided, Starved, SortedOf;
    var l, r := s[..|s| / 2], s[|s| / 2..];
    if |s| >= 4 {
      FactorOne(l);
    } else {
      OnePlaceEach(|s|);
      assert |multiset(SortedOf(l))| == |multiset(l)| && |multiset(SortedOf(r))| == |multiset(r)|;
      OnePlace(SortedOf(l), SortedOf(r));
    }
  }

  lemma OnePlaceEach(n: nat)
    requires 1 <= n <= 3
    ensures Capacity(n, 1) == 1
  {
    RootIs(ISqrt(n), 1, n);
  }

  lemma OnePlace(l: seq<int>, r: seq<int>)
    requires 1 <= |l| <= |r|
    ensures Starved(l, r, 1)
  {
    assert StarvedAt(l, r, 1, 1);
  }

  /** Everything in l is smaller than everything in r. */
  predicate AllBelow(l: seq<int>, r: seq<int>) {
    forall i, j :: 0 <= i < |l| && 0 <= j < |r| ==> l[i] < r[j]
  }

  lemma {:induction false} TakenBelow(l: seq<int>, r: seq<int>, s: nat, k: nat)
    requires AllBelow(l, r) && k <= |l| + |r|
    ensures Taken(l, r, s, k) == if k <= |l| then k else |l|
  {
    if k > 0 {
      TakenBelow(l, r, s, k - 1);
    }
  }

  /** When the inputs need no merging, a merge step goes through if and only if half of the queue's places are enough to have
      read the second input by the time the first one has been written. */
  lemma MergeBelow(l: seq<int>, r: seq<int>, s: nat)
    requires AllBelow(l, r) && 1 <= |l| <= |r| <= |l| + 1 && 1 <= s
    ensures !Lopsided(l, r, s) && !Starved(l, r, s) <==> |l| <= 2 * (s / 2) && |r| <= s / 2 + |l| / 2
  {
    hide Taken, AllBelow;
    var h := s / 2;
    if |l| <= 2 * h && |r| <= h + |l| / 2 {
      forall k: nat | k <= |l| + |r| ensures !LopsidedAt(l, r, s, k) && !StarvedAt(l, r, s, k) {
        TakenBelow(l, r, s, k);
        if h + k / 2 < |r| {
          assert k < |l|;
        }
      }
    } else if |l| > 2 * h {
      TakenBelow(l, r, s, 2 * h + 1);
      assert StarvedAt(l, r, s, 2 * h + 1);
    } else {
      TakenBelow(l, r, s, |l|);
      assert StarvedAt(l, r, s, |l|);
    }
  }

  /** The merge steps of an ascending input go through. */
  predicate AscendingFits(len: nat, blowUpFactor: nat) {
    len <= 1 || (
      var l, r, c := len / 2, len - len / 2, Capacity(len, blowUpFactor);
      && c <= 2396 && l <= 2 * (c / 2) && r <= c / 2 + l / 2
      && AscendingFits(l, blowUpFactor) && AscendingFits(r, blowUpFactor))
  }

  predicate Ascending(s: seq<int>) {
    forall i, j :: 0 <= i < j < |s| ==> s[i] < s[j]
  }

  /** For an input that is ascending after the shuffle the length and the blow-up factor decide. */
  lemma {:induction false} AscendingInput(s: seq<int>, blowUpFactor: nat)
    requires Ascending(s) && 1 <= blowUpFactor
    ensures Succeeds(s, blowUpFactor) <==> AscendingFits(|s|, blowUpFactor)
    decreases |s|
  {
    hide Capacity, Lopsided, Starved, SortedOf;
    if |s| > 1 {
      var l, r := s[..|s| / 2], s[|s| / 2..];
      AscendingInput(l, blowUpFactor);
      AscendingInput(r, blowUpFactor);
      SortedAlready(l);
      SortedAlready(r);
      QueueCapacity(blowUpFactor, |s|, |s|);
      MergeBelow(l, r, Capacity(|s|, blowUpFactor));
    }
  }

  lemma SortedAlready(s: seq<int>)
    requires Ascending(s)
    ensures SortedOf(s) == s
  {
    hide SortedOf;
    SortedOnce(SortedOf(s), s);
  }

  predicate Constant(s: seq<int>) {
    forall i, j :: 0 <= i < |s| && 0 <= j < |s| ==> s[i] == s[j]
  }

  /** As long as both inputs are being read, equal elements are taken from the right and the left in turn. */
  lemma {:induction false} TakenEqual(l: seq<int>, r: seq<int>, s: nat, k: nat)
    requires Constant(l + r) && |l| <= |r| && 2 <= s && s / 2 + k / 2 <= |l|
    ensures Taken(l, r, s, k) == k / 2
  {
    if k > 0 {
      TakenEqual(l, r, s, k - 1);
      var p := (k - 1) / 2;
      assert l[p] == (l + r)[p] && r[k - 1 - p] == (l + r)[|l| + (k - 1 - p)];
    }
  }

  /** The tie rule keeps the queues level: a merge step on equal elements only goes through, from two places on. */
  lemma MergeEqual(l: seq<int>, r: seq<int>, s: nat)
    requires Constant(l + r) && |l| <= |r| <= |l| + 1 && 2 <= s
    ensures !Lopsided(l, r, s) && !Starved(l, r, s)
  {
    hide Taken, Constant;
    forall k: nat | k <= |l| + |r| ensures !LopsidedAt(l, r, s, k) && !StarvedAt(l, r, s, k) {
      if s / 2 + k / 2 <= |l| {
        TakenEqual(l, r, s, k);
      }
    }
  }

  /** An input of equal elements needs queues of two places, and no more. */
  lemma {:induction false} ConstantInput(s: seq<int>, blowUpFactor: nat)
    requires Constant(s) && 1 <= blowUpFactor
    ensures Succeeds(s, blowUpFactor) <==> |s| <= 1 || (2 <= blowUpFactor && MergesOpen(|s|, blowUpFactor))
    decreases |s|
  {
    hide Capacity, Lopsided, Starved, SortedOf;
    if |s| > 1 && blowUpFactor == 1 {
      FactorOne(s);
    } else if |s| > 1 {
      var l, r := s[..|s| / 2], s[|s| / 2..];
      ConstantInput(l, blowUpFactor);
      ConstantInput(r, blowUpFactor);
      ConstantAlready(l);
      ConstantAlready(r);
      QueueCapacity(blowUpFactor, |l|, |s|);
      QueueCapacity(blowUpFactor, |r|, |s|);
      CapacityTwo(|s|, blowUpFactor);
      assert l + r == s;
      MergeEqual(l, r, Capacity(|s|, blowUpFactor));
    }
  }

  lemma CapacityTwo(len: nat, blowUpFactor: nat)
    requires 1 <= len && 2 <= blowUpFactor
    ensures 2 <= Capacity(len, blowUpFactor)
  {
    ISqrtMonotone(1, len);
    assert ISqrt(1) == 1;
    Mul(blowUpFactor, 1, ISqrt(len));
  }

  lemma ConstantAlready(s: seq<int>)
    requires Constant(s)
    ensures SortedOf(s) == s
  {
    hide SortedOf;
    SortedOnce(SortedOf(s), s);
  }

  /** Whatever the initial shuffle draws: the sort goes through if and only if no merge step of the shuffled
      input aborts, and then the output is the sorted input. */
  method MergeSort(arrIn: array<int>, arrOut: array<int>, blowUpFactor: nat, js: seq<nat>)
    returns (result: Outcome, ghost shuffled: seq<int>)
    requires 1 <= arrIn.Length == arrOut.Length && arrIn != arrOut && Draws(js, arrIn.Length)
    requires 1 <= blowUpFactor
    modifies arrOut
    ensures shuffled == Shuffled(arrIn[..], js) && (result == Done <==> Succeeds(shuffled, blowUpFactor))
    ensures result == Done ==> arrOut[..] == SortedOf(arrIn[..])
    ensures result == Done ==> MergesOpen(arrIn.Length, blowUpFactor)
    ensures NeverAborts(arrIn.Length, blowUpFactor) && MergesOpen(arrIn.Length, blowUpFactor) ==> result == Done
    ensures 2 <= arrIn.Length && blowUpFactor == 1 ==> result != Done
    ensures Ascending(shuffled) ==> (result == Done <==> AscendingFits(arrIn.Length, blowUpFactor))
    ensures Constant(shuffled) && 2 <= arrIn.Length ==>
      (result == Done <==> 2 <= blowUpFactor && MergesOpen(arrIn.Length, blowUpFactor))
  {
    hide Capacity, NeverAborts, Succeeds, SortedOf, Sorted, MergesOpen, Ascending, AscendingFits, Constant, Shuffled;
    var randomArrIn := new int[arrIn.Length];
    for i := 0 to arrIn.Length
      invariant randomArrIn[..i] == arrIn[..i]
    {
      randomArrIn[i] := arrIn[i];
    }
    assert randomArrIn[..] == arrIn[..];
    FisherYatesShuffle(randomArrIn, js);
    shuffled := randomArrIn[..];
    ShuffledKeeps(arrIn[..], js);
    assert randomArrIn[0..arrIn.Length] == shuffled;
    result := MergeSortRec(randomArrIn, 0, arrIn.Length, arrOut, blowUpFactor, shuffled);
    assert |multiset(shuffled)| == |shuffled| && |multiset(arrIn[..])| == arrIn.Length;
    RoomForEverySort(shuffled, blowUpFactor);
    if 2 <= arrIn.Length && blowUpFactor == 1 {
      FactorOne(shuffled);
    }
    if Ascending(shuffled) {
      AscendingInput(shuffled, blowUpFactor);
    }
    if Constant(shuffled) {
      ConstantInput(shuffled, blowUpFactor);
    }
    if result == Done {
      SortedOnce(arrOut[..], SortedOf(arrIn[..]));
    }
  }
}
