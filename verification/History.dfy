/** What a program over iterators and nob arrays has to read and to leave behind, said about the list of its accesses
    alone: every read yields what was last written at its place, or what the caller had there. */
module Histories {
  import opened ShadowLayouts
  import opened Runtimes

  /** An access to object i. */
  datatype Op = Read(i: nat) | Write(i: nat, x: int) | NobRead(i: nat, addr: nat) | NobWrite(i: nat, addr: nat, x: int)

  /** A program chooses its k-th access by what it has read so far. */
  type Program = (nat, seq<int>) -> Op

  /** The kinds of the objects, and the arrays they are on. */
  datatype Objects = Objects(kinds: seq<Kind>, arrs: seq<array<int>>)

  predicate IsRead(op: Op) { op.Read? || op.NobRead? }

  predicate IsWrite(op: Op) { op.Write? || op.NobWrite? }

  /** How many words the accesses have read. */
  function Outputs(ops: seq<Op>): nat {
    if ops == [] then 0 else Outputs(ops[..|ops| - 1]) + if IsRead(ops[|ops| - 1]) then 1 else 0
  }

  /** How many times they have used iterator i. */
  function Uses(ops: seq<Op>, i: nat): nat {
    if ops == [] then 0
    else
      var op := ops[|ops| - 1];
      Uses(ops[..|ops| - 1], i) + if (op.Read? || op.Write?) && op.i == i then 1 else 0
  }

  /** The place of an access in its array, after the accesses `before`: an iterator goes on from where it stood. */
  function Place(ps: seq<PlainObject>, before: seq<Op>, op: Op): nat
    requires op.i < |ps|
  {
    if op.Read? || op.Write? then ps[op.i].position + Uses(before, op.i) else op.addr
  }

  /** All accesses are to objects there are. */
  predicate Known(os: Objects, ps: seq<PlainObject>, ops: seq<Op>) {
    |ps| == |os.arrs| && forall k :: 0 <= k < |ops| ==> ops[k].i < |ps|
  }

  /** Access j writes to place p of an array. */
  predicate WritesTo(os: Objects, ps: seq<PlainObject>, ops: seq<Op>, j: nat, arr: array<int>, p: nat)
    requires Known(os, ps, ops) && j < |ops|
  {
    IsWrite(ops[j]) && os.arrs[ops[j].i] == arr && Place(ps, ops[..j], ops[j]) == p
  }

  /** The word v has been written last at place p of an array, or nothing has and it was there before. */
  ghost predicate Latest(os: Objects, ps: seq<PlainObject>, ops: seq<Op>, arr: array<int>, p: nat, before: int, v: int)
    requires Known(os, ps, ops)
  {
    || (exists j :: 0 <= j < |ops| && WritesTo(os, ps, ops, j, arr, p) && ops[j].x == v
                    && forall l :: j < l < |ops| ==> !WritesTo(os, ps, ops, l, arr, p))
    || ((forall j :: 0 <= j < |ops| ==> !WritesTo(os, ps, ops, j, arr, p)) && v == before)
  }

  /** The program chose access k by what it had read before. */
  ghost predicate Chosen(prog: Program, ops: seq<Op>, out: seq<int>, k: nat)
    requires k < |ops|
  {
    Outputs(ops[..k]) <= |out| && ops[k] == prog(k, out[..Outputs(ops[..k])])
  }

  /** Access k, if it reads, has read the latest word. */
  ghost predicate ReadsLatest(os: Objects, ps: seq<PlainObject>, ops: seq<Op>, out: seq<int>, k: nat)
    requires Known(os, ps, ops) && k < |ops|
  {
    IsRead(ops[k]) ==>
      var i, p, n := ops[k].i, Place(ps, ops[..k], ops[k]), Outputs(ops[..k]);
      p < |ps[i].content| && n < |out| && Latest(os, ps, ops[..k], os.arrs[i], p, ps[i].content[p], out[n])
  }

  /** Every word of object i is in the end the latest one. */
  ghost predicate LeavesLatest(os: Objects, ps: seq<PlainObject>, ops: seq<Op>, i: nat, after: seq<int>)
    requires Known(os, ps, ops) && i < |ps|
  {
    && |after| == |ps[i].content|
    && forall p :: 0 <= p < |after| ==> Latest(os, ps, ops, os.arrs[i], p, ps[i].content[p], after[p])
  }

  /** The accesses `ops` of a program, the words `out` they have read, and the arrays `after` they leave. */
  ghost predicate History(os: Objects, ps: seq<PlainObject>, prog: Program, ops: seq<Op>, out: seq<int>, after: seq<seq<int>>) {
    && Known(os, ps, ops) && |out| == Outputs(ops) && |after| == |ps|
    && (forall k :: 0 <= k < |ops| ==> Chosen(prog, ops, out, k) && ReadsLatest(os, ps, ops, out, k))
    && (forall i :: 0 <= i < |ps| ==> LeavesLatest(os, ps, ops, i, after[i]))
  }

  // ----- there is only one history -----

  lemma LatestOnce(os: Objects, ps: seq<PlainObject>, ops: seq<Op>, arr: array<int>, p: nat, before: int, v: int, w: int)
    requires Known(os, ps, ops) && Latest(os, ps, ops, arr, p, before, v) && Latest(os, ps, ops, arr, p, before, w)
    ensures v == w
  {
    hide WritesTo;
  }

  lemma OutputsNext(ops: seq<Op>, k: nat)
    requires k < |ops|
    ensures Outputs(ops[..k + 1]) == Outputs(ops[..k]) + if IsRead(ops[k]) then 1 else 0
  {
    assert ops[..k + 1][..k] == ops[..k];
  }

  /** Two histories with the same first k accesses, and the same words read by them, go on alike. */
  lemma SameNext(os: Objects, ps: seq<PlainObject>, prog: Program, ops: seq<Op>, out: seq<int>, ops': seq<Op>, out': seq<int>, k: nat)
    requires Known(os, ps, ops) && Known(os, ps, ops') && k < |ops| && k < |ops'| && ops[..k] == ops'[..k]
    requires Chosen(prog, ops, out, k) && Chosen(prog, ops', out', k)
    requires ReadsLatest(os, ps, ops, out, k) && ReadsLatest(os, ps, ops', out', k)
    requires out[..Outputs(ops[..k])] == out'[..Outputs(ops[..k])]
    ensures ops[..k + 1] == ops'[..k + 1] && Outputs(ops[..k + 1]) <= |out| && Outputs(ops[..k + 1]) <= |out'|
    ensures out[..Outputs(ops[..k + 1])] == out'[..Outputs(ops[..k + 1])]
  {
    hide Outputs, Place, Latest;
    var n := Outputs(ops[..k]);
    assert ops[..k + 1] == ops[..k] + [ops[k]] && ops'[..k + 1] == ops'[..k] + [ops'[k]];
    OutputsNext(ops, k);
    if IsRead(ops[k]) {
      var i, p := ops[k].i, Place(ps, ops[..k], ops[k]);
      LatestOnce(os, ps, ops[..k], os.arrs[i], p, ps[i].content[p], out[n], out'[n]);
      assert out[..n + 1] == out[..n] + [out[n]] && out'[..n + 1] == out'[..n] + [out'[n]];
    }
  }

  lemma {:induction false} SamePrefix(os: Objects, ps: seq<PlainObject>, prog: Program, ops: seq<Op>, out: seq<int>, after: seq<seq<int>>,
                                      ops': seq<Op>, out': seq<int>, after': seq<seq<int>>, k: nat)
    requires History(os, ps, prog, ops, out, after) && History(os, ps, prog, ops', out', after') && k <= |ops| == |ops'|
    ensures ops[..k] == ops'[..k] && Outputs(ops[..k]) <= |out| && Outputs(ops[..k]) <= |out'|
    ensures out[..Outputs(ops[..k])] == out'[..Outputs(ops[..k])]
  {
    hide Chosen, ReadsLatest, LeavesLatest;
    if k > 0 {
      SamePrefix(os, ps, prog, ops, out, after, ops', out', after', k - 1);
      SameNext(os, ps, prog, ops, out, ops', out', k - 1);
    }
  }

  /** The program, the arrays it starts with and the number of accesses determine everything. */
  lemma OneHistory(os: Objects, ps: seq<PlainObject>, prog: Program, ops: seq<Op>, out: seq<int>, after: seq<seq<int>>,
                   ops': seq<Op>, out': seq<int>, after': seq<seq<int>>)
    requires History(os, ps, prog, ops, out, after) && History(os, ps, prog, ops', out', after') && |ops| == |ops'|
    ensures ops == ops' && out == out' && after == after'
  {
    hide Outputs, Chosen, ReadsLatest, Latest;
    SamePrefix(os, ps, prog, ops, out, after, ops', out', after', |ops|);
    assert ops[..|ops|] == ops && ops'[..|ops|] == ops' && out[..|out|] == out && out'[..|out|] == out';
    forall i | 0 <= i < |ps| ensures after[i] == after'[i] {
      assert LeavesLatest(os, ps, ops, i, after[i]) && LeavesLatest(os, ps, ops, i, after'[i]);
      forall p | 0 <= p < |after[i]| ensures after[i][p] == after'[i][p] {
        LatestOnce(os, ps, ops, os.arrs[i], p, ps[i].content[p], after[i][p], after'[i][p]);
      }
    }
  }

  // ----- one more access -----

  /** What one more access does to the arrays and to the words read: `now` are the arrays before it, as the plain program has them. */
  ghost predicate NextWords(os: Objects, ps: seq<PlainObject>, ops: seq<Op>, op: Op, now: seq<seq<int>>, next: seq<seq<int>>,
                            more: seq<int>)
    requires Known(os, ps, ops) && op.i < |ps| && |now| == |next| == |ps|
  {
    && (forall i :: 0 <= i < |ps| ==> |next[i]| == |now[i]|)
    && (forall i, p :: 0 <= i < |ps| && 0 <= p < |now[i]| ==>
          next[i][p] == if IsWrite(op) && os.arrs[op.i] == os.arrs[i] && Place(ps, ops, op) == p then op.x else now[i][p])
    && (if IsRead(op) then Place(ps, ops, op) < |now[op.i]| && more == [now[op.i][Place(ps, ops, op)]] else more == [])
  }

  lemma NoAccess(os: Objects, ps: seq<PlainObject>, prog: Program)
    requires |ps| == |os.arrs|
    ensures History(os, ps, prog, [], [], seq(|ps|, i requires 0 <= i < |ps| => ps[i].content))
  {}

  /** An access that reads what the plain program has, or changes it, goes on with a history. */
  lemma HistoryNext(os: Objects, ps: seq<PlainObject>, prog: Program, ops: seq<Op>, out: seq<int>, now: seq<seq<int>>, op: Op,
                    next: seq<seq<int>>, more: seq<int>)
    requires History(os, ps, prog, ops, out, now) && op == prog(|ops|, out) && op.i < |ps| == |next|
    requires NextWords(os, ps, ops, op, now, next, more)
    ensures History(os, ps, prog, ops + [op], out + more, next)
  {
    hide Latest, Place, Chosen, ReadsLatest;
    var all, words := ops + [op], out + more;
    assert all[..|ops|] == ops && words[..|out|] == out;
    forall k | 0 <= k < |ops| ensures Chosen(prog, all, words, k) && ReadsLatest(os, ps, all, words, k) {
      EarlierSame(os, ps, prog, ops, op, out, more, k);
    }
    LastAccess(os, ps, prog, ops, out, now, op, more);
    forall i | 0 <= i < |ps| ensures LeavesLatest(os, ps, all, i, next[i]) {
      assert LeavesLatest(os, ps, ops, i, now[i]);
      forall p | 0 <= p < |next[i]| ensures Latest(os, ps, all, os.arrs[i], p, ps[i].content[p], next[i][p]) {
        LatestNext(os, ps, ops, op, os.arrs[i], p, ps[i].content[p], now[i][p]);
      }
    }
  }

  lemma LastAccess(os: Objects, ps: seq<PlainObject>, prog: Program, ops: seq<Op>, out: seq<int>, now: seq<seq<int>>, op: Op,
                   more: seq<int>)
    requires History(os, ps, prog, ops, out, now) && op == prog(|ops|, out) && op.i < |ps|
    requires if IsRead(op) then Place(ps, ops, op) < |now[op.i]| && more == [now[op.i][Place(ps, ops, op)]] else more == []
    ensures Chosen(prog, ops + [op], out + more, |ops|)
    ensures Known(os, ps, ops + [op]) && ReadsLatest(os, ps, ops + [op], out + more, |ops|)
  {
    hide Latest, Place;
    assert (ops + [op])[..|ops|] == ops && (out + more)[..|out|] == out;
    assert LeavesLatest(os, ps, ops, op.i, now[op.i]);
  }

  /** One more access, and the latest words. */
  lemma LatestNext(os: Objects, ps: seq<PlainObject>, ops: seq<Op>, op: Op, arr: array<int>, p: nat, before: int, v: int)
    requires Known(os, ps, ops) && op.i < |ps| && Latest(os, ps, ops, arr, p, before, v)
    ensures Known(os, ps, ops + [op])
    ensures Latest(os, ps, ops + [op], arr, p, before,
                   if IsWrite(op) && os.arrs[op.i] == arr && Place(ps, ops, op) == p then op.x else v)
  {
    hide Place;
    var all, n := ops + [op], |ops|;
    assert all[..n] == ops;
    forall j | 0 <= j < n ensures WritesTo(os, ps, all, j, arr, p) <==> WritesTo(os, ps, ops, j, arr, p) {
      assert all[..j] == ops[..j];
    }
    if WritesTo(os, ps, all, n, arr, p) {
    } else if j :| 0 <= j < n && WritesTo(os, ps, ops, j, arr, p) && ops[j].x == v
                   && forall l :: j < l < n ==> !WritesTo(os, ps, ops, l, arr, p) {
      assert WritesTo(os, ps, all, j, arr, p) && all[j].x == v;
    }
  }

  /** The earlier accesses are not concerned. */
  lemma EarlierSame(os: Objects, ps: seq<PlainObject>, prog: Program, ops: seq<Op>, op: Op, out: seq<int>, more: seq<int>, k: nat)
    requires Known(os, ps, ops + [op]) && Known(os, ps, ops) && k < |ops|
    requires Chosen(prog, ops, out, k) && ReadsLatest(os, ps, ops, out, k)
    ensures Chosen(prog, ops + [op], out + more, k) && ReadsLatest(os, ps, ops + [op], out + more, k)
  {
    hide Outputs, Place, Latest;
    assert (ops + [op])[..k] == ops[..k];
    assert (out + more)[..Outputs(ops[..k])] == out[..Outputs(ops[..k])];
  }
}
