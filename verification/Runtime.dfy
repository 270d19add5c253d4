/** The CMO runtime of src/lib/cmo.cpp: iterators and nob arrays read and write windows in one shadow
    memory, which transactions copy in and out. */
module Runtimes {
  import opened Arithmetic
  import opened ShadowLayouts
  import opened Coherence

  /** `ReadObIterator`, `WriteObIterator`, `NobArray` and `ReadNobArray`; nob arrays have one window, the
      whole array. */
  class ShadowObject {
    const kind: Kind
    const data: array<int>
    var shadowMem: nat
    var winLen: nat   // shadow_mem_len
    var pos: nat      // shadow_mem_pos
    var iter: nat     // iter_pos
    ghost var room: nat
    ghost var content: seq<int>

    ghost function Snapshot(): View
      reads this, data
    {
      View(kind, data, shadowMem, room, winLen, pos, iter, data[..], content)
    }

    /** `init_read_ob_iterator`, `init_write_ob_iterator`, `init_nob_array`, `init_read_nob_array` */
    constructor (kind: Kind, data: array<int>)
      ensures this.kind == kind && this.data == data && content == data[..]
      ensures shadowMem == pos == iter == 0 && winLen == if kind.ReadOb? || kind.WriteOb? then 0 else data.Length
    {
      this.kind, this.data := kind, data;
      shadowMem, pos, iter, room := 0, 0, 0, 0;
      winLen := if kind.ReadOb? || kind.WriteOb? then 0 else data.Length;
      content := data[..];
    }
  }

  /** No object occurs twice, and an array that is written through one of the objects is that of no other
      object, apart from read iterators if it is written through a write iterator. */
  ghost predicate Separate(objs: seq<ShadowObject>, shadow: array<int>) {
    && shadow.Length == SHADOW_SIZE
    && (forall i :: 0 <= i < |objs| ==> objs[i].data != shadow)
    && (forall i, j :: 0 <= i < |objs| && 0 <= j < |objs| && i != j ==>
          objs[i] != objs[j] && (objs[i].data == objs[j].data ==> MayShare(objs[i].kind, objs[j].kind)))
  }

  ghost function DataOf(objs: seq<ShadowObject>): (s: set<array<int>>)
    ensures forall i :: 0 <= i < |objs| ==> objs[i].data in s
  {
    set i | 0 <= i < |objs| :: objs[i].data
  }

  ghost function Views(objs: seq<ShadowObject>): (vs: seq<View>)
    reads objs, DataOf(objs)
    ensures |vs| == |objs| && forall i :: 0 <= i < |objs| ==> vs[i] == objs[i].Snapshot()
  {
    seq(|objs|, i requires 0 <= i < |objs| reads objs, DataOf(objs) => objs[i].Snapshot())
  }

  // ----- moving windows -----

  /** The copy loops of `begin_leaky_sec` and `begin_tx` for one object. */
  method CopyIn(shadow: array<int>, a: Alloc, ob: ShadowObject, from: nat, n: nat)
    requires shadow.Length == SHADOW_SIZE && Packed(a) && ob.data != shadow && from + n <= ob.data.Length
    requires Fits(ob.kind, ob.shadowMem, n, a)
    modifies shadow
    ensures shadow[..] == Written(old(shadow[..]), ob.kind, ob.shadowMem, a, ob.data[from..from + n])
  {
    hide Address, Packed;
    ghost var before := shadow[..];
    ghost var s := ob.data[from..from + n];
    assert s[..0] == [];
    for i := 0 to n
      invariant ob.data[from..from + n] == s
      invariant Fits(ob.kind, ob.shadowMem, i, a) && shadow[..] == Written(before, ob.kind, ob.shadowMem, a, s[..i])
    {
      ghost var w := shadow[..];
      PartFits(ob.kind, ob.shadowMem, n, i + 1, a);
      assert s[i] == ob.data[from + i] && s[..i + 1][..i] == s[..i];
      shadow[Address(ob.kind, ob.shadowMem + i, a)] := ob.data[from + i];
      assert shadow[..] == w[Address(ob.kind, ob.shadowMem + i, a) := s[i]];
    }
    assert s[..n] == s;
  }

  /** The copy loops of `end_tx` and `end_leaky_sec`: a window goes back to the caller's array. */
  method CopyOut(shadow: array<int>, a: Alloc, ob: ShadowObject)
    requires shadow.Length == SHADOW_SIZE && Packed(a) && ob.data != shadow && Coherent(shadow[..], a, ob.Snapshot())
    requires !ob.kind.ReadOb?
    modifies ob.data
    ensures ob.data[..] == ob.content
  {
    hide Address, Packed, Holds, Fits;
    ghost var v := ob.Snapshot();
    for i := 0 to ob.winLen
      invariant forall j :: 0 <= j < |v.data| && !(v.pos + i <= j < v.pos + v.winLen) ==> ob.data[j] == v.content[j]
    {
      WindowWord(shadow[..], a, v, i);
      ob.data[ob.pos + i] := shadow[Address(ob.kind, ob.shadowMem + i, a)];
    }
  }

  /** How many of the objects are of the given kind. */
  function Count(objs: seq<ShadowObject>, kind: Kind): nat {
    if objs == [] then 0 else Count(objs[..|objs| - 1], kind) + if objs[|objs| - 1].kind == kind then 1 else 0
  }

  class Runtime {
    const shadow: array<int>
    const objs: seq<ShadowObject>   // r_obs, w_obs, nobs and r_nobs, told apart by their kind
    var alloc: Alloc

    ghost predicate Registered() {
      Separate(objs, shadow) && |objs| <= MAX_OBJECTS
    }

    /** The most words an iterator of the given kind gets at a time. */
    function MaxWindow(kind: Kind): nat
      requires Count(objs, kind) > 0
      reads `alloc
    {
      Window(Sets(kind, alloc), Count(objs, kind))
    }

    ghost predicate Rooms()
      reads `alloc, objs`room
    {
      forall i :: 0 <= i < |objs| && (objs[i].kind.ReadOb? || objs[i].kind.WriteOb?) ==>
        Count(objs, objs[i].kind) > 0 && objs[i].room == MaxWindow(objs[i].kind)
    }

    /** An iterator whose kind has a set has a window. */
    lemma HasRoom(i: nat)
      requires Rooms() && i < |objs| <= MAX_OBJECTS && (objs[i].kind.ReadOb? || objs[i].kind.WriteOb?)
      requires Sets(objs[i].kind, alloc) > 0
      ensures objs[i].room > 0
    {
      hide Count;
      CountBound(objs, objs[i].kind);
      WindowBounds(Sets(objs[i].kind, alloc), Count(objs, objs[i].kind));
    }

    /** Every window agrees with the plain program. */
    ghost predicate Consistent()
      reads this, shadow, objs, DataOf(objs)
    {
      Registered() && Rooms() && Good(shadow[..], alloc, Views(objs)) && AllInside(Views(objs))
    }

    /** Inside a section: besides, the next word of every iterator is in its window. */
    ghost predicate Valid()
      reads this, shadow, objs, DataOf(objs)
    {
      Consistent() && AllReady(Views(objs))
    }

    /** `end_tx`; the readers and the writers have a loop of their own in the source */
    method EndTx()
      requires Consistent()
      modifies objs, DataOf(objs)
      ensures Rooms() && Views(objs) == EndedAll(old(Views(objs)))
      ensures Good(shadow[..], alloc, Views(objs)) && AllPaused(Views(objs))
      ensures forall i :: 0 <= i < |objs| && (objs[i].kind.ReadOb? || objs[i].kind.WriteOb?) ==>
        objs[i].pos == old(objs[i].pos) + old(objs[i].iter) && objs[i].winLen == 0
    {
      hide Good, Coherent, Ready, Ended, Packed, Rooms, EndedUpTo, EndedAll, SameArrays;
      ghost var vs := Views(objs);
      EndedNone(vs);
      for i := 0 to |objs|
        invariant Rooms() && Views(objs) == EndedUpTo(vs, i)
      {
        EndedNext(shadow[..], alloc, vs, i);
        EndObject(objs[i], vs, i);
      }
      EndedEnd(shadow[..], alloc, vs);
      EndedGood(shadow[..], alloc, vs);
      EndedMoved(vs);
    }

    /** `end_tx` for one object; a writer's array may be that of readers, too. */
    method EndObject(ob: ShadowObject, ghost vs: seq<View>, ghost i: nat)
      requires Registered() && i < |objs| == |vs| && objs[i] == ob && Views(objs) == EndedUpTo(vs, i)
      requires Packed(alloc) && SameArrays(vs) && EndedUpTo(vs, i)[i] == vs[i].(data := EndedUpTo(vs, i)[i].data)
      requires ob.kind.WriteOb? ==> EndedUpTo(vs, i)[i] == vs[i] && Coherent(shadow[..], alloc, vs[i])
      modifies ob`pos, ob`winLen, ob.data
      ensures Views(objs) == EndedUpTo(vs, i + 1)
    {
      hide Holds, Fits, Packed, Coherent;
      if ob.kind.WriteOb? {
        CopyOut(shadow, alloc, ob);
      }
      if ob.kind.ReadOb? || ob.kind.WriteOb? {
        ob.pos := ob.pos + ob.iter;
        ob.winLen := 0;
      }
      forall j | 0 <= j < |objs| ensures objs[j].Snapshot() == EndedUpTo(vs, i + 1)[j] {
        assert vs[j].arr == vs[i].arr ==> vs[j].content == vs[i].content;
      }
    }

    /** `begin_tx` for one object */
    method BeginObject(ob: ShadowObject)
      requires shadow.Length == SHADOW_SIZE && Packed(alloc) && ob.data != shadow
      requires Paused(ob.Snapshot()) && Fits(ob.kind, ob.shadowMem, ob.room, alloc)
      requires ob.kind.ReadOb? || ob.kind.WriteOb? ==> Count(objs, ob.kind) > 0 && ob.room == MaxWindow(ob.kind)
      modifies ob`winLen, ob`iter, shadow
      ensures ob.Snapshot() == Begun(old(ob.Snapshot()))
      ensures shadow[..] == AfterBegin(old(shadow[..]), alloc, old(ob.Snapshot()))
    {
      hide Fits, Packed, Window;
      if ob.kind.ReadOb? || ob.kind.WriteOb? {
        var max := MaxWindow(ob.kind);
        ob.winLen := if max < ob.data.Length - ob.pos then max else ob.data.Length - ob.pos;
        ob.iter := 0;
        PartFits(ob.kind, ob.shadowMem, ob.room, ob.winLen, alloc);
        CopyIn(shadow, alloc, ob, ob.pos, ob.winLen);
      }
    }

    /** `begin_tx` */
    method BeginTx()
      requires Registered() && Rooms() && Good(shadow[..], alloc, Views(objs)) && AllPaused(Views(objs))
      modifies objs, shadow
      ensures Valid() && Views(objs) == BegunUpTo(old(Views(objs)), |objs|)
      ensures forall i :: 0 <= i < |objs| && (objs[i].kind.ReadOb? || objs[i].kind.WriteOb?) ==>
        && objs[i].iter == 0 && objs[i].pos == old(objs[i].pos)
        && objs[i].winLen == Min(MaxWindow(objs[i].kind), objs[i].data.Length - objs[i].pos)
    {
      hide Good, Coherent, Ready, Begun, Packed, Paused, Fits, AfterBegin;
      ghost var vs := Views(objs);
      for i := 0 to |objs|
        invariant Rooms() && Views(objs) == BegunUpTo(vs, i) && Good(shadow[..], alloc, BegunUpTo(vs, i))
        invariant forall j :: 0 <= j < i ==> Ready(Views(objs)[j])
      {
        BegunNext(shadow[..], alloc, vs, i);
        ghost var before := Views(objs);
        BeginObject(objs[i]);
        assert Views(objs) == before[i := objs[i].Snapshot()];
      }
      ReadyInside(Views(objs));
      BegunWindows(vs);
    }

    /** Both, as the iterators do it when a window is used up.  The plain program notices nothing. */
    method Refresh()
      requires Consistent()
      modifies objs, DataOf(objs), shadow
      ensures Valid() && Plain(Views(objs)) == old(Plain(Views(objs)))
    {
      hide Good, AllReady, AllPaused, EndedAll;
      ghost var vs := Views(objs);
      NobsStayPut(shadow[..], alloc, vs);
      EndTx();
      BeginTx();
      RefreshKeepsPlain(vs);
    }

    /** A window that is used up, with more to come, ends the transaction. */
    method NextTransaction(ob: ShadowObject, ghost i: nat)
      requires Consistent() && i < |objs| && objs[i] == ob && (Ready(ob.Snapshot()) ==> AllReady(Views(objs)))
      modifies objs, DataOf(objs), shadow
      ensures Valid() && Plain(Views(objs)) == old(Plain(Views(objs)))
      ensures !old(ob.iter == ob.winLen && ob.pos + ob.winLen < ob.data.Length) ==> Views(objs) == old(Views(objs))
    {
      hide Good, AllReady;
      if ob.iter == ob.winLen && ob.pos + ob.winLen < ob.data.Length {
        Refresh();
      } else {
        StillReady(shadow[..], alloc, Views(objs), i);
      }
    }

    // ----- the program's operations -----

    /** `ob_read_next`: the plain program's next word, whatever the window; `cal_ob` divides by the number
        of sets. */
    method ReadNext(ob: ShadowObject, ghost i: nat) returns (x: int)
      requires Valid() && i < |objs| && objs[i] == ob && ob.kind.ReadOb? && ob.pos + ob.iter < ob.data.Length
      requires Sets(ob.kind, alloc) > 0
      modifies objs, DataOf(objs), shadow
      ensures Valid()
      ensures x == old(ob.content[ob.pos + ob.iter])
      ensures Plain(Views(objs)) == old(Plain(Views(objs))[i := PlainObject(ob.content, ob.pos + ob.iter + 1)])
      ensures !old(UsesUpWindow(ob.Snapshot())) ==> SameTransaction(old(Views(objs)), Views(objs))
    {
      hide Good, AllReady, SameTransaction, Rooms, Plain, Ready, Coherent;
      x := WindowFront(ob, i);
      MoveOn(ob, i);
      NextTransaction(ob, i);
    }

    /** A reader moves on. */
    method MoveOn(ob: ShadowObject, ghost i: nat)
      requires Valid() && i < |objs| && objs[i] == ob && ob.kind.ReadOb? && ob.iter < ob.winLen
      modifies ob`iter
      ensures Consistent() && (Ready(ob.Snapshot()) ==> AllReady(Views(objs))) && ob.iter == old(ob.iter) + 1
      ensures Plain(Views(objs)) == old(Plain(Views(objs))[i := PlainObject(ob.content, ob.pos + ob.iter + 1)])
      ensures SameTransaction(old(Views(objs)), Views(objs))
    {
      hide Good, AllReady, SameTransaction, Rooms, Plain, Ready, Coherent;
      ghost var vs := Views(objs);
      SameButOne(vs, i, vs[i].(iter := vs[i].iter + 1));
      MovedOn(shadow[..], alloc, vs, i);
      ob.iter := ob.iter + 1;
      assert Views(objs) == vs[i := vs[i].(iter := vs[i].iter + 1)];
    }

    /** The word an iterator stands at. */
    method WindowFront(ob: ShadowObject, ghost i: nat) returns (x: int)
      requires Valid() && i < |objs| && objs[i] == ob && ob.kind.ReadOb? && ob.pos + ob.iter < ob.data.Length
      requires Sets(ob.kind, alloc) > 0
      ensures |ob.content| == ob.data.Length && ob.iter < ob.winLen && x == ob.content[ob.pos + ob.iter]
    {
      hide Good, AllReady, CalOb, CalObRw, CalNob, CalReadNob;
      HasRoom(i);
      NextInWindow(shadow[..], alloc, Views(objs), i);
      x := shadow[CalOb(ob.shadowMem + ob.iter, alloc)];
    }

    /** `ob_write_next`; if the array is read through iterators, too, the word has been read. */
    method WriteNext(ob: ShadowObject, x: int, ghost i: nat)
      requires Valid() && i < |objs| && objs[i] == ob && ob.kind.WriteOb? && ob.pos + ob.iter < ob.data.Length
      requires Sets(ob.kind, alloc) > 0 && Behind(Views(objs), i)
      modifies objs, DataOf(objs), shadow
      ensures Valid()
      ensures |old(ob.content)| == ob.data.Length
      ensures Plain(Views(objs))
        == old(Updated(Plain(Views(objs)), Arrs(Views(objs)), i, ob.content[ob.pos + ob.iter := x], ob.pos + ob.iter + 1))
      ensures !old(UsesUpWindow(ob.Snapshot())) ==> SameTransaction(old(Views(objs)), Views(objs))
    {
      hide Good, AllReady, SameTransaction, Rooms, Plain, Behind, Arrs, Updated, Changed, Coherent, Ready;
      StoreNext(ob, x, i);
      NextTransaction(ob, i);
    }

    /** The plain program's array changes: a word of every object on it. */
    ghost method SetContent(i: nat, content: seq<int>)
      requires Registered() && i < |objs|
      modifies objs`content
      ensures forall j :: 0 <= j < |objs| ==>
        objs[j].content == if objs[j].data == objs[i].data then content else old(objs[j].content)
    {
      forall j | 0 <= j < |objs| && objs[j].data == objs[i].data {
        objs[j].content := content;
      }
    }

    /** A word of the shadow memory is written, and the iterator moves on: the plain program's array changes
        for every object on it. */
    method PutWord(ob: ShadowObject, address: nat, x: int, iter: nat, ghost i: nat, ghost content: seq<int>)
      requires Registered() && i < |objs| && objs[i] == ob && address < SHADOW_SIZE
      modifies objs`content, ob`iter, shadow
      ensures shadow[..] == old(shadow[..])[address := x] && Views(objs) == Changed(old(Views(objs)), i, content, iter)
    {
      ghost var vs := Views(objs);
      shadow[address] := x;
      SetContent(i, content);
      ob.iter := iter;
      assert Views(objs) == Changed(vs, i, content, iter);
    }

    /** The word goes to the window, and the iterator moves on. */
    method StoreNext(ob: ShadowObject, x: int, ghost i: nat)
      requires Valid() && i < |objs| && objs[i] == ob && ob.kind.WriteOb? && ob.pos + ob.iter < ob.data.Length
      requires Sets(ob.kind, alloc) > 0 && Behind(Views(objs), i)
      modifies objs`content, ob`iter, shadow
      ensures Consistent() && (Ready(ob.Snapshot()) ==> AllReady(Views(objs))) && |old(ob.content)| == ob.data.Length
      ensures ob.iter == old(ob.iter) + 1 <= ob.winLen && SameTransaction(old(Views(objs)), Views(objs))
      ensures Plain(Views(objs))
        == old(Updated(Plain(Views(objs)), Arrs(Views(objs)), i, ob.content[ob.pos + ob.iter := x], ob.pos + ob.iter + 1))
    {
      hide Good, AllReady, AllInside, Ready, CalOb, CalObRw, CalNob, CalReadNob, Rooms, Plain, Behind, Arrs, Updated, Coherent, SameTransaction;
      ghost var vs := Views(objs);
      HasRoom(i);
      NextInWindow(shadow[..], alloc, vs, i);
      WrittenOn(shadow[..], alloc, vs, i, ob.iter, x, ob.iter + 1);
      ghost var content := ob.content[ob.pos + ob.iter := x];
      SameChanged(vs, i, content, ob.iter + 1);
      PutWord(ob, CalObRw(ob.shadowMem + ob.iter, alloc), x, ob.iter + 1, i, content);
      assert ob.Snapshot() == Views(objs)[i];
    }

    /** `nob_read_at`, for both kinds of nob array */
    method NobReadAt(ob: ShadowObject, addr: nat, ghost i: nat) returns (x: int)
      requires Valid() && i < |objs| && objs[i] == ob && (ob.kind.Nob? || ob.kind.ReadNob?) && addr < ob.data.Length
      ensures |ob.content| == ob.data.Length && x == ob.content[addr]
    {
      hide Good, AllReady, CalOb, CalObRw, CalNob, CalReadNob;
      NobWindow(shadow[..], alloc, Views(objs), i);
      WindowWord(shadow[..], alloc, Views(objs)[i], addr);
      x := shadow[Address(ob.kind, ob.shadowMem + addr, alloc)];
    }

    /** `nob_write_at`; the transaction goes on */
    method NobWriteAt(ob: ShadowObject, addr: nat, x: int, ghost i: nat)
      requires Valid() && i < |objs| && objs[i] == ob && ob.kind.Nob? && addr < ob.data.Length
      modifies objs`content, ob`iter, shadow
      ensures Valid() && |old(ob.content)| == ob.data.Length
      ensures Plain(Views(objs)) == old(Updated(Plain(Views(objs)), Arrs(Views(objs)), i, ob.content[addr := x], 0))
      ensures SameTransaction(old(Views(objs)), Views(objs))
    {
      hide Good, AllReady, SameTransaction, CalOb, CalObRw, CalNob, CalReadNob, Rooms, Plain, Arrs, Updated;
      ghost var vs := Views(objs);
      NobWindow(shadow[..], alloc, vs, i);
      WindowWord(shadow[..], alloc, vs[i], addr);
      WrittenOn(shadow[..], alloc, vs, i, addr, x, 0);
      SameChanged(vs, i, vs[i].content[addr := x], 0);
      PutWord(ob, CalNob(ob.shadowMem + addr, alloc), x, 0, i, ob.content[addr := x]);
    }

    // ----- sections -----

    /** The copy loop of `end_leaky_sec` */
    method SaveNobs()
      requires Registered() && Good(shadow[..], alloc, Views(objs)) && AllPaused(Views(objs))
      modifies DataOf(objs)
      ensures Views(objs) == SavedUpTo(old(Views(objs)), |objs|)
    {
      hide Good, Coherent, Packed, AllPaused;
      ghost var vs := Views(objs);
      for i := 0 to |objs|
        invariant Views(objs) == SavedUpTo(vs, i)
      {
        SavedNext(shadow[..], alloc, vs, i);
        ghost var before := Views(objs);
        if objs[i].kind.Nob? {
          CopyOut(shadow, alloc, objs[i]);
        }
        assert forall j :: 0 <= j < |objs| && j != i && objs[i].kind.Nob? ==> objs[j].data != objs[i].data;
        assert Views(objs) == before[i := objs[i].Snapshot()];
      }
    }

    /** `end_leaky_sec`: every array is what the plain program has. */
    method EndLeakySec()
      requires Valid()
      modifies objs, DataOf(objs)
      ensures AllIdle(Views(objs))
      ensures forall i :: 0 <= i < |objs| ==> Views(objs)[i].data == Views(objs)[i].content == old(Views(objs))[i].content
      ensures forall i :: 0 <= i < |objs| && Views(objs)[i].Iterator() ==> Views(objs)[i].pos == old(Views(objs))[i].Position()
    {
      hide Good, AllReady, AllIdle, AllPaused, SavedUpTo, EndedAll;
      ghost var vs := Views(objs);
      EndTx();
      SavedIdle(shadow[..], alloc, Views(objs));
      SaveNobs();
      SectionEnds(vs);
    }

    /** Numbers the nob arrays of one kind through, from `cur_nob` on. */
    method PlaceNobs(kind: Kind, start: nat) returns (cur: nat)
      modifies objs`shadowMem, objs`room
      requires Registered() && (kind.Nob? || kind.ReadNob?)
      ensures cur == start + Total(objs, kind)
      ensures forall i :: 0 <= i < |objs| ==>
        if objs[i].kind == kind then objs[i].shadowMem == start + Total(objs[..i], kind) && objs[i].room == objs[i].data.Length
        else objs[i].shadowMem == old(objs[i].shadowMem) && objs[i].room == old(objs[i].room)
    {
      hide Total;
      cur := start;
      TotalNone(objs[..0], kind);
      for i := 0 to |objs|
        invariant cur == start + Total(objs[..i], kind)
        invariant forall j :: 0 <= j < i ==>
          if objs[j].kind == kind then objs[j].shadowMem == start + Total(objs[..j], kind) && objs[j].room == objs[j].data.Length
          else objs[j].shadowMem == old(objs[j].shadowMem) && objs[j].room == old(objs[j].room)
        invariant forall j :: i <= j < |objs| ==> objs[j].shadowMem == old(objs[j].shadowMem) && objs[j].room == old(objs[j].room)
      {
        TotalNext(objs, i, kind);
        if objs[i].kind == kind {
          objs[i].shadowMem, objs[i].room := cur, objs[i].data.Length;
          cur := cur + objs[i].data.Length;
        }
      }
      assert objs[..|objs|] == objs;
    }

    /** Gives the iterators of one kind a window each. */
    method PlaceIterators(kind: Kind)
      modifies objs`shadowMem, objs`room
      requires Registered() && (kind.ReadOb? || kind.WriteOb?)
      ensures forall i :: 0 <= i < |objs| ==>
        if objs[i].kind == kind then
          && Count(objs, kind) > 0 && objs[i].room == MaxWindow(kind)
          && objs[i].shadowMem == Count(objs[..i], kind) * MaxWindow(kind)
        else objs[i].shadowMem == old(objs[i].shadowMem) && objs[i].room == old(objs[i].room)
    {
      hide Count, Window;
      var cur := 0;
      CountNone(objs[..0], kind);
      for i := 0 to |objs|
        invariant cur == if Count(objs, kind) == 0 then 0 else Count(objs[..i], kind) * MaxWindow(kind)
        invariant forall j :: 0 <= j < i ==>
          if objs[j].kind == kind then
            && Count(objs, kind) > 0 && objs[j].room == MaxWindow(kind)
            && objs[j].shadowMem == Count(objs[..j], kind) * MaxWindow(kind)
          else objs[j].shadowMem == old(objs[j].shadowMem) && objs[j].room == old(objs[j].room)
        invariant forall j :: i <= j < |objs| ==> objs[j].shadowMem == old(objs[j].shadowMem) && objs[j].room == old(objs[j].room)
      {
        CountNext(objs, i, kind);
        if objs[i].kind == kind {
          objs[i].shadowMem, objs[i].room := cur, MaxWindow(kind);
          Distributes(MaxWindow(kind), Count(objs[..i], kind), 1);
          cur := cur + MaxWindow(kind);
        }
      }
    }

    method SumLengths(kind: Kind) returns (sum: nat)
      ensures sum == Total(objs, kind)
    {
      hide Total;
      sum := 0;
      TotalNone(objs[..0], kind);
      for i := 0 to |objs|
        invariant sum == Total(objs[..i], kind)
      {
        TotalNext(objs, i, kind);
        if objs[i].kind == kind {
          sum := sum + objs[i].data.Length;
        }
      }
      assert objs[..|objs|] == objs;
    }

    /** The whole of every nob array goes to the shadow memory. */
    method LoadNobs()
      requires Registered() && Laid(alloc, Views(objs))
      modifies shadow
      ensures Good(shadow[..], alloc, Views(objs))
    {
      hide Laid, Good, Packed, Fits, Coherent, Idle;
      ghost var vs := Views(objs);
      LoadedNone(shadow[..], alloc, vs);
      for i := 0 to |objs|
        invariant vs == Views(objs) && Good(shadow[..], alloc, vs[..i])
      {
        LoadedNext(shadow[..], alloc, vs, i);
        if objs[i].kind.Nob? || objs[i].kind.ReadNob? {
          CopyIn(shadow, alloc, objs[i], 0, objs[i].data.Length);
          assert objs[i].data[0..objs[i].data.Length] == vs[i].data;
        }
      }
      assert vs[..|objs|] == vs;
    }

    /** The allocation of `begin_leaky_sec`; it aborts when an array is too large. */
    method Allocate() returns (ok: bool)
      requires Registered()
      modifies `alloc, objs`shadowMem, objs`room
      ensures ok <==> Accepted(LengthsOf(objs))
      ensures ok ==> alloc == AllocOf(LengthsOf(objs))
      ensures ok ==> Rooms() && forall i :: 0 <= i < |objs| ==>
        objs[i].room == RoomOf(objs, i) && objs[i].shadowMem == BaseOf(objs, i)
    {
      hide Total, Count, Window;
      var lenW := PlaceNobs(Nob, 0);
      var nobW := lenW / 80 + 1;
      if lenW > LLC_SIZE || nobW > 63 {
        return false;
      }
      var cur := PlaceNobs(ReadNob, lenW);
      var lenR := cur - lenW;
      var nobR := lenR / (1024 * 24) + 1;
      if lenR > LLC_SIZE - lenW || nobR > 63 - nobW {
        return false;
      }
      var lenSumR := SumLengths(ReadOb);
      var lenSum := SumLengths(WriteOb);
      alloc := Alloc(1, 0, 0, nobR, nobW);
      if lenSum != 0 || lenSumR != 0 {
        var availableSet := 63 - nobW - nobR;
        ShareOfSets(availableSet, lenSum, lenSumR);
        var obW := availableSet * lenSum / (lenSum + lenSumR);
        alloc := Alloc(1, availableSet - obW, obW, nobR, nobW);
      }
      PlaceIterators(ReadOb);
      PlaceIterators(WriteOb);
      ok := true;
    }

    /** `begin_leaky_sec` */
    method BeginLeakySec() returns (ok: bool)
      requires Registered() && AllIdle(Views(objs))
      modifies `alloc, objs, shadow
      ensures ok <==> Accepted(LengthsOf(objs))
      ensures ok ==> Valid() && alloc == AllocOf(LengthsOf(objs))
      ensures ok ==> forall i :: 0 <= i < |objs| ==>
        Plain(Views(objs))[i] == PlainObject(objs[i].data[..], old(objs[i].pos))
    {
      hide Laid, Good, Accepted, AllocOf, LengthsOf, RoomOf, BaseOf, AllPaused, Rooms, MaxWindow, AllReady;
      ghost var vs0 := Views(objs);
      ok := Allocate();
      if ok {
        ghost var vs := Views(objs);
        assert forall i :: 0 <= i < |vs| ==> vs[i] == vs0[i].(base := vs[i].base, room := vs[i].room);
        PlacedLaid(objs, vs);
        LoadNobs();
        assert Views(objs) == vs;
        IdlePaused(vs);
        BeginTx();
      }
    }

    /** A transaction is aborted: the shadow memory and the iterators are as they were when it began. */
    method Rollback(saved: seq<int>, iters: seq<nat>, ghost vs: seq<View>)
      requires Registered() && Rooms() && |saved| == SHADOW_SIZE && SameTransaction(vs, Views(objs))
      requires Good(saved, alloc, vs) && AllReady(vs) && |iters| == |vs| && forall i :: 0 <= i < |vs| ==> iters[i] == vs[i].iter
      modifies objs`iter, objs`content, shadow
      ensures Valid() && Views(objs) == vs && shadow[..] == saved
    {
      hide Good, AllReady;
      ghost var now := Views(objs);
      for i := 0 to |objs|
        invariant forall j :: 0 <= j < |objs| ==> objs[j].Snapshot() == if j < i then vs[j] else now[j]
      {
        objs[i].iter := iters[i];
        objs[i].content := vs[i].content;
      }
      forall p | 0 <= p < SHADOW_SIZE {
        shadow[p] := saved[p];
      }
      assert Views(objs) == vs && shadow[..] == saved;
      ReadyInside(vs);
    }
  }

  /** The next step uses up the window, and there is more: it ends the transaction. */
  predicate UsesUpWindow(v: View) {
    v.iter + 1 == v.winLen && v.pos + v.winLen < |v.data|
  }

  /** Inside a transaction only iterators move and the plain program's contents change: no window, and
      no caller's array. */
  ghost predicate SameTransaction(vs: seq<View>, vs': seq<View>) {
    |vs| == |vs'| && forall i :: 0 <= i < |vs| ==> vs'[i] == vs[i].(iter := vs'[i].iter, content := vs'[i].content)
  }

  lemma SameChanged(vs: seq<View>, i: nat, content: seq<int>, iter: nat)
    requires i < |vs|
    ensures SameTransaction(vs, Changed(vs, i, content, iter))
  {}

  lemma SameButOne(vs: seq<View>, i: nat, v: View)
    requires i < |vs| && v == vs[i].(iter := v.iter, content := v.content)
    ensures SameTransaction(vs, vs[i := v])
  {}

  ghost predicate AllInside(vs: seq<View>) {
    forall i :: 0 <= i < |vs| ==> vs[i].iter <= vs[i].winLen
  }

  ghost predicate AllReady(vs: seq<View>) {
    forall i :: 0 <= i < |vs| ==> Ready(vs[i])
  }

  ghost predicate AllPaused(vs: seq<View>) {
    forall i :: 0 <= i < |vs| ==> Paused(vs[i])
  }

  ghost function EndedAll(vs: seq<View>): (r: seq<View>)
    ensures |r| == |vs|
  {
    seq(|vs|, i requires 0 <= i < |vs| => Ended(vs[i]))
  }

  lemma EndedMoved(vs: seq<View>)
    ensures forall i :: 0 <= i < |vs| && vs[i].Iterator() ==>
      var v := EndedAll(vs)[i]; v.pos == vs[i].pos + vs[i].iter && v.winLen == 0
  {}

  lemma BegunWindows(vs: seq<View>)
    requires AllPaused(vs)
    ensures forall i :: 0 <= i < |vs| && vs[i].Iterator() ==>
      var v := BegunUpTo(vs, |vs|)[i]; v.iter == 0 && v.pos == vs[i].pos && v.winLen == Min(v.room, |v.data| - v.pos)
  {}

  /** One of the first n objects has copied its window back to the array. */
  ghost predicate Flushed(vs: seq<View>, n: nat, arr: array<int>) {
    exists k :: 0 <= k < n && k < |vs| && vs[k].kind.WriteOb? && vs[k].arr == arr
  }

  ghost function EndedUpTo(vs: seq<View>, n: nat): (r: seq<View>)
    ensures |r| == |vs|
  {
    seq(|vs|, i requires 0 <= i < |vs| => EndedAt(vs, n, i))
  }

  ghost function EndedAt(vs: seq<View>, n: nat, i: nat): View
    requires i < |vs|
  {
    var v := vs[i].(data := if Flushed(vs, n, vs[i].arr) then vs[i].content else vs[i].data);
    if i < n && v.Iterator() then v.(pos := v.pos + v.iter, winLen := 0) else v
  }

  /** Objects on one array agree on the plain program's array. */
  ghost predicate SameArrays(vs: seq<View>) {
    forall i, j :: 0 <= i < |vs| && 0 <= j < |vs| && vs[i].arr == vs[j].arr ==> vs[i].content == vs[j].content
  }

  lemma EndedNone(vs: seq<View>)
    ensures EndedUpTo(vs, 0) == vs
  {}

  lemma EndedNext(shadow: seq<int>, a: Alloc, vs: seq<View>, n: nat)
    requires Good(shadow, a, vs) && n < |vs|
    ensures Packed(a) && |shadow| == SHADOW_SIZE && SameArrays(vs)
    ensures EndedUpTo(vs, n)[n] == vs[n].(data := EndedUpTo(vs, n)[n].data)
    ensures vs[n].kind.WriteOb? ==> EndedUpTo(vs, n)[n] == vs[n] && Coherent(shadow, a, vs[n])
  {
    hide Packed, Coherent;
    forall i, j | 0 <= i < |vs| && 0 <= j < |vs| && vs[i].arr == vs[j].arr ensures vs[i].content == vs[j].content {
      assert i != j ==> Linked(vs[i], vs[j]);
    }
    forall k | 0 <= k < n && vs[k].kind.WriteOb? && vs[n].kind.WriteOb? ensures vs[k].arr != vs[n].arr {
      assert Linked(vs[k], vs[n]);
    }
  }

  lemma EndedEnd(shadow: seq<int>, a: Alloc, vs: seq<View>)
    requires Good(shadow, a, vs)
    ensures EndedUpTo(vs, |vs|) == EndedAll(vs)
  {
    hide Packed, Coherent;
    forall i: nat | i < |vs| ensures EndedUpTo(vs, |vs|)[i] == Ended(vs[i]) {
      assert Backed(vs, i);
      if Flushed(vs, |vs|, vs[i].arr) {
        var k :| 0 <= k < |vs| && vs[k].kind.WriteOb? && vs[k].arr == vs[i].arr;
        assert k != i ==> Linked(vs[k], vs[i]);
      }
    }
  }

  lemma EndedGood(shadow: seq<int>, a: Alloc, vs: seq<View>)
    requires Good(shadow, a, vs) && AllInside(vs)
    ensures Good(shadow, a, EndedAll(vs)) && AllPaused(EndedAll(vs))
  {
    hide Coherent, Paused, Packed;
    var r := EndedAll(vs);
    forall i | 0 <= i < |r| ensures Coherent(shadow, a, r[i]) && Paused(r[i]) && (r[i].kind.Nob? || r[i].data == r[i].content) {
      EndedCoherent(shadow, a, vs[i]);
    }
    forall i, j | 0 <= i < |r| && 0 <= j < |r| && i != j ensures Disjoint(r[i], r[j]) && Linked(r[i], r[j]) {
      assert Disjoint(vs[i], vs[j]) && Linked(vs[i], vs[j]);
    }
  }

  ghost function BegunUpTo(vs: seq<View>, n: nat): (r: seq<View>)
    requires AllPaused(vs)
    ensures |r| == |vs|
  {
    seq(|vs|, i requires 0 <= i < |vs| => if i < n then Begun(vs[i]) else vs[i])
  }

  /** The shadow memory after `begin_tx` for one object. */
  ghost function AfterBegin(shadow: seq<int>, a: Alloc, v: View): seq<int>
    requires |shadow| == SHADOW_SIZE && Paused(v) && Fits(v.kind, v.base, v.room, a)
  {
    if v.Iterator() then
      PartFits(v.kind, v.base, v.room, |Incoming(v)|, a);
      Written(shadow, v.kind, v.base, a, Incoming(v))
    else shadow
  }

  lemma BegunNext(shadow: seq<int>, a: Alloc, vs: seq<View>, n: nat)
    requires AllPaused(vs) && n < |vs| && Good(shadow, a, BegunUpTo(vs, n))
    ensures BegunUpTo(vs, n)[n] == vs[n] && BegunUpTo(vs, n + 1) == BegunUpTo(vs, n)[n := Begun(vs[n])]
    ensures Packed(a) && |shadow| == SHADOW_SIZE && Coherent(shadow, a, vs[n]) && Paused(vs[n]) && Fits(vs[n].kind, vs[n].base, vs[n].room, a)
    ensures Good(AfterBegin(shadow, a, vs[n]), a, BegunUpTo(vs, n + 1)) && Ready(Begun(vs[n]))
  {
    hide Packed, Fits, Written, Holds;
    var v := vs[n];
    assert BegunUpTo(vs, n)[n] == v;
    if v.Iterator() {
      PartFits(v.kind, v.base, v.room, |Incoming(v)|, a);
      BegunGood(shadow, a, BegunUpTo(vs, n), n);
    } else {
      assert BegunUpTo(vs, n + 1) == BegunUpTo(vs, n);
    }
  }

  // ----- the plain program -----

  /** An array of the plain program, and how far it has been read or written in order. */
  datatype PlainObject = PlainObject(content: seq<int>, position: nat)

  ghost function Plain(vs: seq<View>): (ps: seq<PlainObject>)
    ensures |ps| == |vs|
  {
    seq(|vs|, i requires 0 <= i < |vs| => PlainObject(vs[i].content, vs[i].pos + vs[i].iter))
  }

  lemma RefreshKeepsPlain(vs: seq<View>)
    requires AllPaused(EndedAll(vs)) && forall i :: 0 <= i < |vs| && !vs[i].Iterator() ==> vs[i].pos == vs[i].iter == 0
    ensures Plain(BegunUpTo(EndedAll(vs), |vs|)) == Plain(vs)
  {}

  lemma NobsStayPut(shadow: seq<int>, a: Alloc, vs: seq<View>)
    requires Good(shadow, a, vs)
    ensures forall i :: 0 <= i < |vs| && !vs[i].Iterator() ==> vs[i].pos == vs[i].iter == 0
  {
    forall i | 0 <= i < |vs| && !vs[i].Iterator() ensures vs[i].pos == vs[i].iter == 0 {
      assert Coherent(shadow, a, vs[i]);
    }
  }

  lemma ReadyInside(vs: seq<View>)
    requires AllReady(vs)
    ensures AllInside(vs)
  {}

  lemma StillReady(shadow: seq<int>, a: Alloc, vs: seq<View>, i: nat)
    requires Good(shadow, a, vs) && AllInside(vs) && i < |vs|
    requires !(vs[i].iter == vs[i].winLen && vs[i].pos + vs[i].winLen < |vs[i].data|)
    ensures Ready(vs[i])
  {
    hide Packed, Fits, Holds;
    assert Coherent(shadow, a, vs[i]);
  }

  /** An iterator with words left and room for a window has the next one in it. */
  lemma NextInWindow(shadow: seq<int>, a: Alloc, vs: seq<View>, i: nat)
    requires Good(shadow, a, vs) && AllReady(vs) && i < |vs| && vs[i].Iterator() && vs[i].pos + vs[i].iter < |vs[i].data|
    requires vs[i].room > 0
    ensures |shadow| == SHADOW_SIZE && Packed(a) && Coherent(shadow, a, vs[i]) && vs[i].iter < vs[i].winLen
    ensures Sets(vs[i].kind, a) > 0 && 0 <= Address(vs[i].kind, vs[i].base + vs[i].iter, a) < SHADOW_SIZE
    ensures shadow[Address(vs[i].kind, vs[i].base + vs[i].iter, a)] == vs[i].content[vs[i].pos + vs[i].iter]
  {
    hide Packed, Address, Fits, Holds;
    assert Ready(vs[i]) && Coherent(shadow, a, vs[i]);
    WindowWord(shadow, a, vs[i], vs[i].iter);
  }

  /** A reader moves on by one word. */
  lemma MovedOn(shadow: seq<int>, a: Alloc, vs: seq<View>, i: nat)
    requires Good(shadow, a, vs) && AllReady(vs) && AllInside(vs) && i < |vs| && vs[i].kind.ReadOb? && vs[i].iter < vs[i].winLen
    ensures var vs' := vs[i := vs[i].(iter := vs[i].iter + 1)];
      && Good(shadow, a, vs') && AllInside(vs') && Plain(vs') == Plain(vs)[i := PlainObject(vs[i].content, vs[i].pos + vs[i].iter + 1)]
      && (Ready(vs'[i]) ==> AllReady(vs'))
  {
    hide Packed, Fits, Holds;
    assert Coherent(shadow, a, vs[i]);
    MovedGood(shadow, a, vs, i);
  }

  /** The arrays behind the objects. */
  ghost function Arrs(vs: seq<View>): (arrs: seq<array<int>>)
    ensures |arrs| == |vs|
  {
    seq(|vs|, i requires 0 <= i < |vs| => vs[i].arr)
  }

  /** Object i gets new contents and a new position, and all objects on its array the contents. */
  ghost function Updated(ps: seq<PlainObject>, arrs: seq<array<int>>, i: nat, content: seq<int>, position: nat): (r: seq<PlainObject>)
    requires i < |ps| == |arrs|
    ensures |r| == |ps|
  {
    seq(|ps|, j requires 0 <= j < |ps| =>
      if j == i then PlainObject(content, position)
      else if arrs[j] == arrs[i] then PlainObject(content, ps[j].position) else ps[j])
  }

  /** A word of a window is written, and the iterator of a writer moves on. */
  lemma WrittenOn(shadow: seq<int>, a: Alloc, vs: seq<View>, i: nat, k: nat, x: int, iter: nat)
    requires Good(shadow, a, vs) && AllReady(vs) && AllInside(vs) && i < |vs| && k < vs[i].winLen && Writes(vs[i].kind)
    requires if vs[i].Iterator() then k == vs[i].iter && iter == k + 1 && Behind(vs, i) else iter == 0
    ensures |shadow| == SHADOW_SIZE && Coherent(shadow, a, vs[i]) && |vs[i].content| == |vs[i].data| && vs[i].pos + k < |vs[i].data|
    ensures Sets(vs[i].kind, a) > 0 && 0 <= Address(vs[i].kind, vs[i].base + k, a) < SHADOW_SIZE
    ensures var c := vs[i].content[vs[i].pos + k := x];
      var vs' := Changed(vs, i, c, iter);
      && Good(shadow[Address(vs[i].kind, vs[i].base + k, a) := x], a, vs') && AllInside(vs')
      && Plain(vs') == Updated(Plain(vs), Arrs(vs), i, c, vs[i].pos + iter)
      && (Ready(vs'[i]) ==> AllReady(vs'))
  {
    hide Packed, Fits, Holds, Address;
    assert Coherent(shadow, a, vs[i]);
    WrittenGood(shadow, a, vs, i, k, x, iter);
  }

  lemma NobWindow(shadow: seq<int>, a: Alloc, vs: seq<View>, i: nat)
    requires Good(shadow, a, vs) && i < |vs| && !vs[i].Iterator()
    ensures |shadow| == SHADOW_SIZE && Coherent(shadow, a, vs[i]) && |vs[i].content| == |vs[i].data|
    ensures vs[i].pos == vs[i].iter == 0 && vs[i].winLen == |vs[i].data|
  {
    hide Packed, Fits, Holds;
    assert Coherent(shadow, a, vs[i]);
  }

  // ----- sections -----

  /** Outside a section the arrays are those of the plain program. */
  predicate Idle(v: View) {
    && v.data == v.content && v.pos <= |v.data|
    && if v.Iterator() then v.winLen == 0 else v.pos == v.iter == 0 && v.winLen == |v.data|
  }

  ghost predicate AllIdle(vs: seq<View>) {
    forall i :: 0 <= i < |vs| ==> Idle(vs[i])
  }

  ghost function SavedUpTo(vs: seq<View>, n: nat): (r: seq<View>)
    ensures |r| == |vs|
  {
    seq(|vs|, i requires 0 <= i < |vs| => if i < n && vs[i].kind.Nob? then vs[i].(data := vs[i].content) else vs[i])
  }

  lemma SavedNext(shadow: seq<int>, a: Alloc, vs: seq<View>, n: nat)
    requires Good(shadow, a, vs) && n < |vs|
    ensures SavedUpTo(vs, n)[n] == vs[n] && Packed(a) && |shadow| == SHADOW_SIZE && Coherent(shadow, a, vs[n])
    ensures SavedUpTo(vs, n + 1)
      == SavedUpTo(vs, n)[n := if vs[n].kind.Nob? then vs[n].(data := vs[n].content) else vs[n]]
  {}

  lemma SavedIdle(shadow: seq<int>, a: Alloc, vs: seq<View>)
    requires Good(shadow, a, vs) && AllPaused(vs)
    ensures AllIdle(SavedUpTo(vs, |vs|))
  {
    hide Packed, Fits, Holds;
    forall i | 0 <= i < |vs| ensures Idle(SavedUpTo(vs, |vs|)[i]) {
      assert Coherent(shadow, a, vs[i]) && Paused(vs[i]);
    }
  }

  lemma SectionEnds(vs: seq<View>)
    requires AllIdle(SavedUpTo(EndedAll(vs), |vs|))
    ensures var r := SavedUpTo(EndedAll(vs), |vs|); forall i :: 0 <= i < |vs| ==>
      r[i].data == r[i].content == vs[i].content && (r[i].Iterator() ==> r[i].pos == vs[i].Position())
  {
    forall i | 0 <= i < |vs| ensures Idle(SavedUpTo(EndedAll(vs), |vs|)[i]) {}
  }

  /** Summed length of the objects of a kind. */
  function Total(objs: seq<ShadowObject>, kind: Kind): nat {
    if objs == [] then 0
    else Total(objs[..|objs| - 1], kind) + if objs[|objs| - 1].kind == kind then objs[|objs| - 1].data.Length else 0
  }

  lemma {:induction false} SumsAdd(objs: seq<ShadowObject>, more: seq<ShadowObject>, kind: Kind)
    ensures Total(objs + more, kind) == Total(objs, kind) + Total(more, kind)
    ensures Count(objs + more, kind) == Count(objs, kind) + Count(more, kind)
    decreases |more|
  {
    if more == [] {
      assert objs + more == objs;
    } else {
      assert (objs + more)[..|objs + more| - 1] == objs + more[..|more| - 1];
      SumsAdd(objs, more[..|more| - 1], kind);
    }
  }

  lemma SumsOfOne(ob: ShadowObject, kind: Kind)
    ensures Total([ob], kind) == if ob.kind == kind then ob.data.Length else 0
    ensures Count([ob], kind) == if ob.kind == kind then 1 else 0
  {
    assert [ob][..0] == [];
  }

  lemma TotalNone(objs: seq<ShadowObject>, kind: Kind)
    requires objs == []
    ensures Total(objs, kind) == 0
  {}

  lemma TotalNext(objs: seq<ShadowObject>, i: nat, kind: Kind)
    requires i < |objs|
    ensures Total(objs[..i + 1], kind) == Total(objs[..i], kind) + if objs[i].kind == kind then objs[i].data.Length else 0
  {
    assert objs[..i + 1][..i] == objs[..i];
  }

  lemma {:induction false} TotalGrows(objs: seq<ShadowObject>, i: nat, j: nat, kind: Kind)
    requires i <= j <= |objs|
    ensures Total(objs[..i], kind) <= Total(objs[..j], kind)
  {
    if i < j {
      TotalGrows(objs, i, j - 1, kind);
      TotalNext(objs, j - 1, kind);
    }
  }

  lemma CountNone(objs: seq<ShadowObject>, kind: Kind)
    requires objs == []
    ensures Count(objs, kind) == 0
  {}

  lemma CountNext(objs: seq<ShadowObject>, i: nat, kind: Kind)
    requires i < |objs|
    ensures Count(objs[..i + 1], kind) == Count(objs[..i], kind) + if objs[i].kind == kind then 1 else 0
    ensures objs[i].kind == kind ==> Count(objs[..i], kind) < Count(objs, kind)
  {
    assert objs[..i + 1][..i] == objs[..i];
    CountGrows(objs, i + 1, |objs|, kind);
    assert objs[..|objs|] == objs;
  }

  lemma {:induction false} CountGrows(objs: seq<ShadowObject>, i: nat, j: nat, kind: Kind)
    requires i <= j <= |objs|
    ensures Count(objs[..i], kind) <= Count(objs[..j], kind)
  {
    if i < j {
      CountGrows(objs, i, j - 1, kind);
      assert objs[..j][..j - 1] == objs[..j - 1];
    }
  }

  lemma {:induction false} CountBound(objs: seq<ShadowObject>, kind: Kind)
    ensures Count(objs, kind) <= |objs|
  {
    if objs != [] {
      CountBound(objs[..|objs| - 1], kind);
    }
  }

  function LengthsOf(objs: seq<ShadowObject>): Lengths {
    Lengths(Total(objs, Nob), Total(objs, ReadNob), Total(objs, ReadOb), Total(objs, WriteOb))
  }

  /** How many words of the shadow memory object i gets, and from which offset on. */
  ghost function RoomOf(objs: seq<ShadowObject>, i: nat): nat
    requires i < |objs| && Accepted(LengthsOf(objs))
  {
    match objs[i].kind
    case Nob => objs[i].data.Length
    case ReadNob => objs[i].data.Length
    case kind =>
      CountNext(objs, i, kind);
      Window(Sets(kind, AllocOf(LengthsOf(objs))), Count(objs, kind))
  }

  ghost function BaseOf(objs: seq<ShadowObject>, i: nat): nat
    requires i < |objs| && Accepted(LengthsOf(objs))
  {
    match objs[i].kind
    case Nob => Total(objs[..i], Nob)
    case ReadNob => Total(objs, Nob) + Total(objs[..i], ReadNob)
    case kind =>
      Mul(RoomOf(objs, i), 0, Count(objs[..i], kind));
      Count(objs[..i], kind) * RoomOf(objs, i)
  }

  /** Objects of one kind lie one after the other. */
  lemma PlacesInOrder(objs: seq<ShadowObject>, i: nat, j: nat)
    requires i < j < |objs| && objs[i].kind == objs[j].kind && Accepted(LengthsOf(objs))
    ensures BaseOf(objs, i) + RoomOf(objs, i) <= BaseOf(objs, j)
  {
    hide Total, Count, Window, AllocOf, Accepted;
    var kind := objs[i].kind;
    TotalGrows(objs, i + 1, j, kind);
    TotalNext(objs, i, kind);
    CountGrows(objs, i + 1, j, kind);
    CountNext(objs, i, kind);
    CountNext(objs, j, kind);
    if kind.ReadOb? || kind.WriteOb? {
      var room := RoomOf(objs, i);
      assert room == RoomOf(objs, j);
      Mul(room, Count(objs[..i], kind) + 1, Count(objs[..j], kind));
      Distributes(room, Count(objs[..i], kind), 1);
    }
  }

  /** Every object ends below the limit of its kind. */
  lemma PlaceInLimit(objs: seq<ShadowObject>, i: nat)
    requires i < |objs| <= MAX_OBJECTS && Accepted(LengthsOf(objs))
    ensures BaseOf(objs, i) + RoomOf(objs, i) <= OffsetLimit(objs[i].kind, LengthsOf(objs))
  {
    hide Total, Count, Window, AllocOf, Accepted;
    var kind := objs[i].kind;
    TotalGrows(objs, i + 1, |objs|, kind);
    TotalNext(objs, i, kind);
    CountNext(objs, i, kind);
    assert objs[..|objs|] == objs;
    if kind.ReadOb? || kind.WriteOb? {
      CountBound(objs, kind);
      var room, n, sets := RoomOf(objs, i), Count(objs, kind), Sets(kind, AllocOf(LengthsOf(objs)));
      WindowBounds(sets, n);
      Mul(room, Count(objs[..i], kind) + 1, n);
      Distributes(room, Count(objs[..i], kind), 1);
    }
  }

  /** The places of all objects: in the shadow memory, and without overlap. */
  ghost predicate Laid(a: Alloc, vs: seq<View>) {
    && Packed(a)
    && (forall i :: 0 <= i < |vs| ==>
          Fits(vs[i].kind, vs[i].base, vs[i].room, a) && Idle(vs[i]) && vs[i].winLen <= vs[i].room)
    && (forall i, j :: 0 <= i < |vs| && 0 <= j < |vs| && i != j ==> Disjoint(vs[i], vs[j]) && Linked(vs[i], vs[j]))
  }

  /** Objects of which every two may share an array that they share. */
  ghost predicate Sharing(vs: seq<View>) {
    forall i, j :: 0 <= i < |vs| && 0 <= j < |vs| && i != j && vs[i].arr == vs[j].arr ==>
      MayShare(vs[i].kind, vs[j].kind) && vs[i].data == vs[j].data
  }

  lemma PlacedLaid(objs: seq<ShadowObject>, vs: seq<View>)
    requires |vs| == |objs| <= MAX_OBJECTS && Accepted(LengthsOf(objs)) && AllIdle(vs) && Sharing(vs)
    requires forall i :: 0 <= i < |vs| ==> vs[i].kind == objs[i].kind && |vs[i].data| == objs[i].data.Length
                                            && vs[i].room == RoomOf(objs, i) && vs[i].base == BaseOf(objs, i)
    ensures Laid(AllocOf(LengthsOf(objs)), vs)
  {
    hide Accepted, LengthsOf, AllocOf, BaseOf, Packed;
    AllocPacked(LengthsOf(objs));
    forall i | 0 <= i < |vs|
      ensures Fits(vs[i].kind, vs[i].base, vs[i].room, AllocOf(LengthsOf(objs))) && vs[i].winLen <= vs[i].room
    {
      assert Idle(vs[i]);
      PlaceInLimit(objs, i);
      PlaceFits(vs[i].kind, vs[i].base, vs[i].room, LengthsOf(objs));
    }
    forall i, j | 0 <= i < |vs| && 0 <= j < |vs| && i != j ensures Disjoint(vs[i], vs[j]) {
      if objs[i].kind == objs[j].kind {
        if i < j {
          PlacesInOrder(objs, i, j);
        } else {
          PlacesInOrder(objs, j, i);
        }
      }
    }
  }

  lemma PlaceFits(kind: Kind, base: nat, n: nat, l: Lengths)
    requires Accepted(l) && base + n <= OffsetLimit(kind, l)
    ensures Fits(kind, base, n, AllocOf(l))
  {
    hide Accepted, AllocOf, Address, OffsetLimit;
    if n > 0 {
      InShadow(kind, base, l);
      forall o: nat {:trigger Address(kind, o, AllocOf(l))} | base <= o < base + n
        ensures 0 <= Address(kind, o, AllocOf(l)) < SHADOW_SIZE
      {
        InShadow(kind, o, l);
        AllocPacked(l);
        RowAndColumn(kind, o, AllocOf(l));
      }
    }
  }

  lemma LoadedNone(shadow: seq<int>, a: Alloc, vs: seq<View>)
    requires Laid(a, vs) && |shadow| == SHADOW_SIZE
    ensures Good(shadow, a, vs[..0])
  {}

  lemma LoadedNext(shadow: seq<int>, a: Alloc, vs: seq<View>, n: nat)
    requires Laid(a, vs) && |shadow| == SHADOW_SIZE && n < |vs| && Good(shadow, a, vs[..n])
    ensures Packed(a)
    ensures !vs[n].Iterator() ==> Fits(vs[n].kind, vs[n].base, |vs[n].data|, a)
    ensures Good(if vs[n].Iterator() then shadow else Written(shadow, vs[n].kind, vs[n].base, a, vs[n].data), a, vs[..n + 1])
  {
    hide Packed, Fits, Holds, Written;
    var v := vs[n];
    assert Idle(v);
    PartFits(v.kind, v.base, v.room, v.winLen, a);
    HoldsNothing(shadow, v.kind, v.base, a);
    var shadow' := if v.Iterator() then shadow else Written(shadow, v.kind, v.base, a, v.data);
    if !v.Iterator() {
      WrittenHolds(shadow, v.kind, v.base, a, v.data);
    }
    assert v.From() == 0 && v.Live() == if v.Iterator() then [] else v.data;
    forall j | 0 <= j <= n ensures Coherent(shadow', a, vs[j]) {
      if j < n {
        assert vs[..n][j] == vs[j] && Disjoint(v, vs[j]);
        LiveFits(vs[j], a);
        if !v.Iterator() {
          WrittenElsewhere(shadow, v.kind, v.base, a, v.data, vs[j].kind, vs[j].base + vs[j].From(), vs[j].Live());
        }
      }
    }
    var t := vs[..n + 1];
    forall i, j | 0 <= i < |t| && 0 <= j < |t| && i != j ensures Disjoint(t[i], t[j]) && Linked(t[i], t[j]) {
      assert Disjoint(vs[i], vs[j]) && Linked(vs[i], vs[j]);
    }
    forall i: nat | i < |t| ensures Backed(t, i) {
      assert Idle(vs[i]);
    }
  }

  lemma IdlePaused(vs: seq<View>)
    requires AllIdle(vs)
    ensures AllPaused(vs)
  {
    forall i | 0 <= i < |vs| ensures Paused(vs[i]) {
      assert Idle(vs[i]);
    }
  }

}
