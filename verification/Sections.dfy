/** Whole leaky sections of the CMO runtime: every program, with every interleaving of its accesses,
    computes what it computes on plain arrays, however often its transactions are aborted. */
module Sections {
  import opened ShadowLayouts
  import opened Coherence
  import opened Runtimes
  import opened Histories

  datatype PlainRun = PlainRun(ps: seq<PlainObject>, out: seq<int>)

  /** The access is inside the array, and what a writer overwrites has been read by all readers of its array. */
  ghost predicate Legal(os: Objects, ps: seq<PlainObject>, op: Op) {
    && op.i < |ps| == |os.kinds| == |os.arrs|
    && match op
       case Read(i) => os.kinds[i].ReadOb? && ps[i].position < |ps[i].content|
       case Write(i, _) => os.kinds[i].WriteOb? && ps[i].position < |ps[i].content| && WriterBehind(os, ps, i)
       case NobRead(i, addr) => (os.kinds[i].Nob? || os.kinds[i].ReadNob?) && addr < |ps[i].content|
       case NobWrite(i, addr, _) => os.kinds[i].Nob? && addr < |ps[i].content|
  }

  ghost predicate WriterBehind(os: Objects, ps: seq<PlainObject>, i: nat)
    requires i < |ps| == |os.kinds| == |os.arrs|
  {
    forall j :: 0 <= j < |ps| && os.kinds[j].ReadOb? && os.arrs[j] == os.arrs[i] ==> ps[i].position < ps[j].position
  }

  /** An access of the plain program; what is written is there for all objects on the array. */
  ghost function Step(os: Objects, r: PlainRun, op: Op): PlainRun
    requires Legal(os, r.ps, op)
  {
    var p := r.ps[op.i];
    match op
    case Read(i) => PlainRun(r.ps[i := PlainObject(p.content, p.position + 1)], r.out + [p.content[p.position]])
    case Write(i, x) => PlainRun(Updated(r.ps, os.arrs, i, p.content[p.position := x], p.position + 1), r.out)
    case NobRead(i, addr) => PlainRun(r.ps, r.out + [p.content[addr]])
    case NobWrite(i, addr, x) => PlainRun(Updated(r.ps, os.arrs, i, p.content[addr := x], p.position), r.out)
  }

  /** The plain program after n accesses; an access out of bounds does nothing. */
  ghost function Run(os: Objects, prog: Program, ps: seq<PlainObject>, n: nat): (r: PlainRun)
    ensures |r.ps| == |ps|
  {
    if n == 0 then PlainRun(ps, [])
    else
      var r := Run(os, prog, ps, n - 1);
      var op := prog(n - 1, r.out);
      if Legal(os, r.ps, op) then Step(os, r, op) else r
  }

  /** The program stays inside its arrays. */
  ghost predicate LegalRun(os: Objects, prog: Program, ps: seq<PlainObject>, n: nat) {
    forall k: nat :: k < n ==> var r := Run(os, prog, ps, k); Legal(os, r.ps, prog(k, r.out))
  }

  // ----- what the plain program computes -----

  /** The accesses of the plain program. */
  ghost function OpsOf(os: Objects, prog: Program, ps: seq<PlainObject>, n: nat): (ops: seq<Op>)
    ensures |ops| == n
  {
    if n == 0 then [] else OpsOf(os, prog, ps, n - 1) + [prog(n - 1, Run(os, prog, ps, n - 1).out)]
  }

  ghost function Contents(ps: seq<PlainObject>): (c: seq<seq<int>>)
    ensures |c| == |ps| && forall i :: 0 <= i < |c| ==> c[i] == ps[i].content
  {
    seq(|ps|, i requires 0 <= i < |ps| => ps[i].content)
  }

  /** Objects on one array have the same words, and iterators are where they got to. */
  ghost predicate Along(os: Objects, ps: seq<PlainObject>, ops: seq<Op>, now: seq<PlainObject>) {
    && |now| == |ps| == |os.arrs|
    && (forall i, j :: 0 <= i < |ps| && 0 <= j < |ps| && os.arrs[i] == os.arrs[j] ==> now[i].content == now[j].content)
    && (forall i: nat :: i < |ps| ==> now[i].position == ps[i].position + Uses(ops, i))
  }

  /** A word of an array is written, and object i moves on. */
  lemma UpdatedWords(os: Objects, ps: seq<PlainObject>, ops: seq<Op>, now: seq<PlainObject>, op: Op, p: nat, position: nat)
    requires Known(os, ps, ops) && Along(os, ps, ops, now) && op.i < |ps| && IsWrite(op)
    requires p == Place(ps, ops, op) < |now[op.i].content| && position == ps[op.i].position + Uses(ops + [op], op.i)
    ensures var next := Updated(now, os.arrs, op.i, now[op.i].content[p := op.x], position);
      Along(os, ps, ops + [op], next) && NextWords(os, ps, ops, op, Contents(now), Contents(next), [])
  {
    hide Place;
    assert (ops + [op])[..|ops|] == ops;
  }

  /** An access of the plain program reads and writes at its place. */
  lemma StepWords(os: Objects, ps: seq<PlainObject>, ops: seq<Op>, r: PlainRun, op: Op)
    requires Known(os, ps, ops) && Along(os, ps, ops, r.ps) && Legal(os, r.ps, op)
    ensures var r' := Step(os, r, op);
      && Along(os, ps, ops + [op], r'.ps) && r.out <= r'.out
      && NextWords(os, ps, ops, op, Contents(r.ps), Contents(r'.ps), r'.out[|r.out|..])
  {
    hide WriterBehind, Updated;
    assert (ops + [op])[..|ops|] == ops;
    if IsWrite(op) {
      var p := Place(ps, ops, op);
      UpdatedWords(os, ps, ops, r.ps, op, p, if op.Write? then p + 1 else r.ps[op.i].position);
    }
  }

  /** For every program that stays inside its arrays: a read yields what was last written at its place, or what was
      there at first; the arrays hold in the end what was last written at every place. */
  lemma {:induction false} RunHistory(os: Objects, prog: Program, ps: seq<PlainObject>, n: nat)
    requires LegalRun(os, prog, ps, n) && Along(os, ps, [], ps)
    ensures var r := Run(os, prog, ps, n);
      && Along(os, ps, OpsOf(os, prog, ps, n), r.ps)
      && History(os, ps, prog, OpsOf(os, prog, ps, n), r.out, Contents(r.ps))
  {
    hide Step, Chosen, ReadsLatest, LeavesLatest, WriterBehind;
    if n == 0 {
      NoAccess(os, ps, prog);
      assert Contents(ps) == seq(|ps|, i requires 0 <= i < |ps| => ps[i].content);
    } else {
      RunHistory(os, prog, ps, n - 1);
      var r, ops := Run(os, prog, ps, n - 1), OpsOf(os, prog, ps, n - 1);
      var op := prog(n - 1, r.out);
      var r' := Step(os, r, op);
      StepWords(os, ps, ops, r, op);
      HistoryNext(os, ps, prog, ops, r.out, Contents(r.ps), op, Contents(r'.ps), r'.out[|r.out|..]);
      assert r.out + r'.out[|r.out|..] == r'.out;
    }
  }

  /** The address computation of an access divides by the number of sets of its kind. */
  predicate Served(a: Alloc, os: Objects, op: Op) {
    op.i < |os.kinds| && Sets(os.kinds[op.i], a) > 0
  }

  ghost predicate ServedRun(a: Alloc, os: Objects, prog: Program, ps: seq<PlainObject>, n: nat) {
    forall k: nat :: k < n ==> Served(a, os, prog(k, Run(os, prog, ps, k).out))
  }

  ghost function ObjectsOf(objs: seq<ShadowObject>): (os: Objects)
    ensures |os.kinds| == |os.arrs| == |objs|
    ensures forall i :: 0 <= i < |objs| ==> os.kinds[i] == objs[i].kind && os.arrs[i] == objs[i].data
  {
    Objects(seq(|objs|, i requires 0 <= i < |objs| => objs[i].kind), seq(|objs|, i requires 0 <= i < |objs| => objs[i].data))
  }

  /** The plain program starts with the callers' arrays. */
  ghost function Initial(vs: seq<View>): (ps: seq<PlainObject>)
    ensures |ps| == |vs|
  {
    seq(|vs|, i requires 0 <= i < |vs| => PlainObject(vs[i].data, vs[i].pos))
  }

  /** One access; `renewed` tells that it has ended a transaction and begun another. */
  method Perform(rt: Runtime, op: Op, ghost out0: seq<int>) returns (out: seq<int>, renewed: bool)
    requires rt.Valid() && Legal(ObjectsOf(rt.objs), Plain(Views(rt.objs)), op) && Served(rt.alloc, ObjectsOf(rt.objs), op)
    modifies rt.objs, DataOf(rt.objs), rt.shadow
    ensures rt.Valid()
    ensures PlainRun(Plain(Views(rt.objs)), out0 + out) == old(Step(ObjectsOf(rt.objs), PlainRun(Plain(Views(rt.objs)), out0), op))
    ensures !renewed ==> SameTransaction(old(Views(rt.objs)), Views(rt.objs))
  {
    hide Runtime.Valid, SameTransaction, Updated, Arrs, WriterBehind, Behind, Plain;
    var ob := rt.objs[op.i];
    SameObjects(rt, op.i);
    SameItself(Views(rt.objs));
    out, renewed := [], false;
    match op {
      case Read(i) =>
        renewed := ob.iter + 1 == ob.winLen && ob.pos + ob.winLen < ob.data.Length;
        var x := rt.ReadNext(ob, i);
        out := [x];
      case Write(i, x) =>
        renewed := ob.iter + 1 == ob.winLen && ob.pos + ob.winLen < ob.data.Length;
        rt.WriteNext(ob, x, i);
      case NobRead(i, addr) =>
        var x := rt.NobReadAt(ob, addr, i);
        out := [x];
      case NobWrite(i, addr, x) =>
        rt.NobWriteAt(ob, addr, x, i);
    }
  }

  /** The runtime's object, as the plain program has it. */
  lemma SameObjects(rt: Runtime, i: nat)
    requires rt.Valid() && i < |rt.objs|
    ensures var v, ps := Views(rt.objs)[i], Plain(Views(rt.objs));
      && Arrs(Views(rt.objs)) == ObjectsOf(rt.objs).arrs
      && |v.content| == |v.data| && ps[i] == PlainObject(v.content, v.pos + v.iter)
      && (!v.Iterator() ==> v.pos == v.iter == 0)
      && (WriterBehind(ObjectsOf(rt.objs), ps, i) ==> Behind(Views(rt.objs), i))
  {
    hide AllReady, Runtime.Rooms, Packed, Fits, Holds;
    assert Coherent(rt.shadow[..], rt.alloc, Views(rt.objs)[i]);
    assert forall j :: 0 <= j < |rt.objs| ==> Plain(Views(rt.objs))[j].position == Views(rt.objs)[j].Position();
  }

  lemma SameItself(vs: seq<View>)
    ensures SameTransaction(vs, vs)
  {}

  lemma SameSteps(a: seq<View>, b: seq<View>, c: seq<View>)
    requires SameTransaction(a, b) && SameTransaction(b, c)
    ensures SameTransaction(a, c)
  {}

  /** What a transaction abort returns to: the state at the beginning of the transaction. */
  datatype Checkpoint = Checkpoint(at: nat, out: seq<int>, shadow: seq<int>, iters: seq<nat>)

  ghost predicate Restartable(c: Checkpoint, vs: seq<View>, a: Alloc, os: Objects, prog: Program, ps: seq<PlainObject>) {
    && |c.shadow| == SHADOW_SIZE && Good(c.shadow, a, vs) && AllReady(vs)
    && PlainRun(Plain(vs), c.out) == Run(os, prog, ps, c.at)
    && |c.iters| == |vs| && forall i :: 0 <= i < |vs| ==> c.iters[i] == vs[i].iter
  }

  method Begin(rt: Runtime, k: nat, out: seq<int>, ghost os: Objects, ghost prog: Program, ghost ps: seq<PlainObject>)
    returns (c: Checkpoint)
    requires rt.Valid() && PlainRun(Plain(Views(rt.objs)), out) == Run(os, prog, ps, k)
    ensures c.at == k && Restartable(c, Views(rt.objs), rt.alloc, os, prog, ps)
    ensures SameTransaction(Views(rt.objs), Views(rt.objs))
  {
    hide Good, AllReady, Run, SameTransaction;
    c := Checkpoint(k, out, rt.shadow[..], Positions(rt));
    SameItself(Views(rt.objs));
  }

  method Abort(rt: Runtime, c: Checkpoint, ghost vs: seq<View>, ghost os: Objects, ghost prog: Program,
               ghost ps: seq<PlainObject>)
    requires rt.Valid() && Restartable(c, vs, rt.alloc, os, prog, ps)
    requires SameTransaction(vs, Views(rt.objs))
    modifies rt.objs`iter, rt.objs`content, rt.shadow
    ensures rt.Valid() && Views(rt.objs) == vs
    ensures PlainRun(Plain(Views(rt.objs)), c.out) == Run(os, prog, ps, c.at)
    ensures SameTransaction(Views(rt.objs), Views(rt.objs))
  {
    hide Good, AllReady, Run, SameTransaction;
    rt.Rollback(c.shadow, c.iters, vs);
    SameItself(vs);
  }

  /** The k-th access of a program, unless it divides by 0. */
  method Access(rt: Runtime, prog: Program, k: nat, out: seq<int>, ghost os: Objects, ghost ps: seq<PlainObject>, ghost n: nat)
    returns (served: bool, next: seq<int>, renewed: bool)
    requires rt.Valid() && os == ObjectsOf(rt.objs) && LegalRun(os, prog, ps, n) && k < n
    requires PlainRun(Plain(Views(rt.objs)), out) == Run(os, prog, ps, k)
    modifies rt.objs, DataOf(rt.objs), rt.shadow
    ensures served <==> Served(rt.alloc, os, prog(k, Run(os, prog, ps, k).out))
    ensures served ==> rt.Valid() && PlainRun(Plain(Views(rt.objs)), next) == Run(os, prog, ps, k + 1)
    ensures served && !renewed ==> SameTransaction(old(Views(rt.objs)), Views(rt.objs))
  {
    hide SameTransaction, Run, Step, Legal, LegalRun, Runtime.Valid, Plain, ObjectsOf, Served;
    RunNext(os, prog, ps, k, n);
    var op := prog(k, out);
    served, next, renewed := HasSet(rt, op), out, false;
    if served {
      var more;
      more, renewed := Perform(rt, op, out);
      next := out + more;
    }
  }

  /** The accesses of a section, with every schedule of transaction aborts up to the last `end_tx`. */
  method Accesses(rt: Runtime, prog: Program, n: nat, schedule: seq<bool>, ghost os: Objects, ghost ps: seq<PlainObject>)
    returns (ok: bool, out: seq<int>)
    requires rt.Valid() && os == ObjectsOf(rt.objs) && Plain(Views(rt.objs)) == ps && LegalRun(os, prog, ps, n)
    modifies rt.objs, DataOf(rt.objs), rt.shadow
    ensures ok <==> ServedRun(rt.alloc, os, prog, ps, n)
    ensures ok ==> rt.Valid() && PlainRun(Plain(Views(rt.objs)), out) == Run(os, prog, ps, n)
  {
    hide SameTransaction, Run, LegalRun, Served, ServedRun, Restartable, Runtime.Valid, Plain, ObjectsOf;
    RunStart(rt.alloc, os, prog, ps);
    var k, t: nat := 0, 0;
    out := [];
    var c := Begin(rt, 0, out, os, prog, ps);
    ghost var vs := Views(rt.objs);
    while k < n || (t < |schedule| && schedule[t])
      invariant c.at <= k <= n && ServedRun(rt.alloc, os, prog, ps, k)
      invariant rt.Valid() && PlainRun(Plain(Views(rt.objs)), out) == Run(os, prog, ps, k)
      invariant Restartable(c, vs, rt.alloc, os, prog, ps) && SameTransaction(vs, Views(rt.objs))
      decreases if t < |schedule| then |schedule| - t else 0, n - k
    {
      if t < |schedule| && schedule[t] {
        Abort(rt, c, vs, os, prog, ps);
        ServedBefore(rt.alloc, os, prog, ps, c.at, k);
        k, out := c.at, c.out;
      } else {
        ghost var before := Views(rt.objs);
        var served, next, renewed := Access(rt, prog, k, out, os, ps, n);
        if !served {
          NotServed(rt.alloc, os, prog, ps, k, n);
          return false, out;
        }
        ServedNext(rt.alloc, os, prog, ps, k);
        k, out := k + 1, next;
        if renewed {
          c := Begin(rt, k, out, os, prog, ps);
          vs := Views(rt.objs);
        } else {
          SameSteps(vs, before, Views(rt.objs));
        }
      }
      t := t + 1;
    }
    ok := true;
  }

  /** The callers' arrays. */
  ghost function CallerArrays(objs: seq<ShadowObject>): (c: seq<seq<int>>)
    reads DataOf(objs)
    ensures |c| == |objs| && forall i :: 0 <= i < |objs| ==> c[i] == objs[i].data[..]
  {
    seq(|objs|, i requires 0 <= i < |objs| reads DataOf(objs) => objs[i].data[..])
  }

  /** For every program and every schedule of aborts: the section reads what the plain program reads, and
      ends with the plain program's arrays.  That is: every read yields what the program last wrote at its place, or
      what the caller had there, and so it is with the arrays at the end.  The section fails exactly when the
      allocation is refused, or an access needs a kind of object that got no set. */
  method RunSection(rt: Runtime, prog: Program, n: nat, schedule: seq<bool>) returns (ok: bool, out: seq<int>, ghost ops: seq<Op>)
    requires rt.Registered() && AllIdle(Views(rt.objs))
    requires LegalRun(ObjectsOf(rt.objs), prog, Initial(Views(rt.objs)), n)
    modifies rt`alloc, rt.objs, DataOf(rt.objs), rt.shadow
    ensures ok <==>
      && Accepted(LengthsOf(rt.objs))
      && old(ServedRun(AllocOf(LengthsOf(rt.objs)), ObjectsOf(rt.objs), prog, Initial(Views(rt.objs)), n))
    ensures ok ==> out == old(Run(ObjectsOf(rt.objs), prog, Initial(Views(rt.objs)), n)).out
    ensures ok ==> CallerArrays(rt.objs) == old(Contents(Run(ObjectsOf(rt.objs), prog, Initial(Views(rt.objs)), n).ps))
    ensures ok ==>
      |ops| == n && History(ObjectsOf(rt.objs), old(Initial(Views(rt.objs))), prog, ops, out, CallerArrays(rt.objs))
    ensures ok ==> AllIdle(Views(rt.objs))
  {
    hide Good, AllReady, AllIdle, Run, LegalRun, Accepted, LengthsOf, AllocOf, ServedRun, History, Along;
    ghost var ps := Initial(Views(rt.objs));
    out, ops := [], OpsOf(ObjectsOf(rt.objs), prog, ps, n);
    OneStart(rt);
    ok := rt.BeginLeakySec();
    if ok {
      assert Plain(Views(rt.objs)) == ps;
      ok, out := Accesses(rt, prog, n, schedule, ObjectsOf(rt.objs), ps);
      if ok {
        rt.EndLeakySec();
        RunHistory(ObjectsOf(rt.objs), prog, ps, n);
      }
    }
  }

  /** Objects on one array start with the same words. */
  lemma OneStart(rt: Runtime)
    requires AllIdle(Views(rt.objs))
    ensures var ps := Initial(Views(rt.objs)); Along(ObjectsOf(rt.objs), ps, [], ps)
  {}

  /** The divisor of the address computation is not 0. */
  predicate HasSet(rt: Runtime, op: Op)
    reads rt
    ensures HasSet(rt, op) <==> Served(rt.alloc, ObjectsOf(rt.objs), op)
  {
    op.i < |rt.objs| && Sets(rt.objs[op.i].kind, rt.alloc) > 0
  }

  /** Every object has as many words as its array. */
  ghost predicate FitArrays(os: Objects, ps: seq<PlainObject>) {
    |ps| == |os.arrs| && forall i :: 0 <= i < |ps| ==> |ps[i].content| == os.arrs[i].Length
  }

  lemma {:induction false} RunLengths(os: Objects, prog: Program, ps: seq<PlainObject>, n: nat)
    requires FitArrays(os, ps)
    ensures FitArrays(os, Run(os, prog, ps, n).ps)
  {
    if n > 0 {
      RunLengths(os, prog, ps, n - 1);
    }
  }

  /** A program that stays inside its arrays is served if every kind of iterator that has words has a window. */
  lemma OpenServes(objs: seq<ShadowObject>, prog: Program, ps: seq<PlainObject>, n: nat)
    requires Opens(LengthsOf(objs)) && LegalRun(ObjectsOf(objs), prog, ps, n)
    requires FitArrays(ObjectsOf(objs), ps)
    ensures ServedRun(AllocOf(LengthsOf(objs)), ObjectsOf(objs), prog, ps, n)
  {
    hide Run, AllocOf, Accepted, Total;
    var l, os := LengthsOf(objs), ObjectsOf(objs);
    forall k: nat | k < n ensures Served(AllocOf(l), os, prog(k, Run(os, prog, ps, k).out)) {
      RunLengths(os, prog, ps, k);
      var r := Run(os, prog, ps, k);
      var op := prog(k, r.out);
      assert Legal(os, r.ps, op);
      TotalNext(objs, op.i, os.kinds[op.i]);
      TotalGrows(objs, op.i + 1, |objs|, os.kinds[op.i]);
      assert objs[..|objs|] == objs;
      AllocSets(l);
    }
  }

  /** Where the iterators are in their windows. */
  function Positions(rt: Runtime): (iters: seq<nat>)
    reads rt.objs
    ensures |iters| == |rt.objs| && forall i :: 0 <= i < |iters| ==> iters[i] == rt.objs[i].iter
  {
    seq(|rt.objs|, i requires 0 <= i < |rt.objs| reads rt.objs => rt.objs[i].iter)
  }

  lemma RunStart(a: Alloc, os: Objects, prog: Program, ps: seq<PlainObject>)
    ensures Run(os, prog, ps, 0) == PlainRun(ps, []) && ServedRun(a, os, prog, ps, 0)
  {}

  lemma ServedNext(a: Alloc, os: Objects, prog: Program, ps: seq<PlainObject>, k: nat)
    requires ServedRun(a, os, prog, ps, k) && Served(a, os, prog(k, Run(os, prog, ps, k).out))
    ensures ServedRun(a, os, prog, ps, k + 1)
  {}

  lemma ServedBefore(a: Alloc, os: Objects, prog: Program, ps: seq<PlainObject>, j: nat, k: nat)
    requires j <= k && ServedRun(a, os, prog, ps, k)
    ensures ServedRun(a, os, prog, ps, j)
  {}

  lemma NotServed(a: Alloc, os: Objects, prog: Program, ps: seq<PlainObject>, k: nat, n: nat)
    requires k < n && !Served(a, os, prog(k, Run(os, prog, ps, k).out))
    ensures !ServedRun(a, os, prog, ps, n)
  {}

  lemma RunNext(os: Objects, prog: Program, ps: seq<PlainObject>, k: nat, n: nat)
    requires k < n && LegalRun(os, prog, ps, n)
    ensures var r := Run(os, prog, ps, k); var op := prog(k, r.out);
      Legal(os, r.ps, op) && Run(os, prog, ps, k + 1) == Step(os, r, op)
  {
    hide Legal, Step;
  }
}
