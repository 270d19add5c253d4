/** When the windows in the shadow memory agree with the arrays of the plain program. */
module Coherence {
  import opened ShadowLayouts

  /** Everything about one object: its array, its place in the shadow memory, its window, what is in the
      array, and what the plain, unwindowed program would have in it. */
  datatype View = View(kind: Kind, arr: array<int>, base: nat, room: nat, winLen: nat, pos: nat, iter: nat,
                       data: seq<int>, content: seq<int>)
  {
    predicate Iterator() { kind.ReadOb? || kind.WriteOb? }

    /** A reader does not come back to what it has read in its window. */
    function From(): (k: nat)
      ensures k <= winLen
    {
      if kind.ReadOb? && iter <= winLen then iter else 0
    }

    /** What still matters of the window, as the plain program has it. */
    function Live(): seq<int>
      requires pos + winLen <= |content|
    {
      content[pos + From()..pos + winLen]
    }

    /** Where the plain program's iterator is. */
    function Position(): nat { pos + iter }
  }

  /** All addresses of n words from offset base on are in the shadow memory. */
  ghost predicate Fits(kind: Kind, base: nat, n: nat, a: Alloc) {
    n > 0 ==> Sets(kind, a) > 0 && forall o: nat {:trigger Address(kind, o, a)} :: base <= o < base + n ==>
      0 <= Address(kind, o, a) < SHADOW_SIZE
  }

  /** The words of the shadow memory from offset base on are s. */
  ghost predicate Holds(shadow: seq<int>, kind: Kind, base: nat, a: Alloc, s: seq<int>)
    requires |shadow| == SHADOW_SIZE && Fits(kind, base, |s|, a)
  {
    s != [] ==> forall o: nat {:trigger Address(kind, o, a)} :: base <= o < base + |s| ==>
      shadow[Address(kind, o, a)] == s[o - base]
  }

  /** The shadow memory after s has been copied to it. */
  ghost function Written(shadow: seq<int>, kind: Kind, base: nat, a: Alloc, s: seq<int>): (w: seq<int>)
    requires |shadow| == SHADOW_SIZE && Fits(kind, base, |s|, a)
    ensures |w| == |shadow|
  {
    if s == [] then shadow
    else Written(shadow, kind, base, a, s[..|s| - 1])[Address(kind, base + (|s| - 1), a) := s[|s| - 1]]
  }

  lemma {:induction false} WrittenHolds(shadow: seq<int>, kind: Kind, base: nat, a: Alloc, s: seq<int>)
    requires Packed(a) && |shadow| == SHADOW_SIZE && Fits(kind, base, |s|, a)
    ensures Holds(Written(shadow, kind, base, a, s), kind, base, a, s)
  {
    hide Address, Packed;
    if s != [] {
      var t := s[..|s| - 1];
      WrittenHolds(shadow, kind, base, a, t);
      forall o: nat {:trigger Address(kind, o, a)} | base <= o < base + |s|
        ensures Written(shadow, kind, base, a, s)[Address(kind, o, a)] == s[o - base]
      {
        AddressesDiffer(kind, o, kind, base + (|s| - 1), a);
      }
    }
  }

  /** Two pieces of shadow memory have nothing in common. */
  predicate Apart(k1: Kind, b1: nat, n1: nat, k2: Kind, b2: nat, n2: nat) {
    k1 != k2 || b1 + n1 <= b2 || b2 + n2 <= b1
  }

  lemma {:induction false} WrittenElsewhere(shadow: seq<int>, kind: Kind, base: nat, a: Alloc, s: seq<int>, k2: Kind,
                                            b2: nat, t: seq<int>)
    requires Packed(a) && |shadow| == SHADOW_SIZE && Fits(kind, base, |s|, a) && Fits(k2, b2, |t|, a)
    requires Apart(kind, base, |s|, k2, b2, |t|) && Holds(shadow, k2, b2, a, t)
    ensures Holds(Written(shadow, kind, base, a, s), k2, b2, a, t)
  {
    hide Address, Packed;
    if s != [] && t != [] {
      WrittenElsewhere(shadow, kind, base, a, s[..|s| - 1], k2, b2, t);
      forall o: nat {:trigger Address(k2, o, a)} | b2 <= o < b2 + |t|
        ensures Written(shadow, kind, base, a, s)[Address(k2, o, a)] == t[o - b2]
      {
        AddressesDiffer(k2, o, kind, base + (|s| - 1), a);
      }
    }
  }

  /** One word of a window is changed. */
  lemma WriteInside(shadow: seq<int>, kind: Kind, base: nat, a: Alloc, s: seq<int>, i: nat, x: int)
    requires Packed(a) && |shadow| == SHADOW_SIZE && i < |s| && Fits(kind, base, |s|, a) && Holds(shadow, kind, base, a, s)
    ensures Holds(shadow[Address(kind, base + i, a) := x], kind, base, a, s[i := x])
  {
    hide Address, Packed;
    forall o: nat {:trigger Address(kind, o, a)} | base <= o < base + |s|
      ensures shadow[Address(kind, base + i, a) := x][Address(kind, o, a)] == s[i := x][o - base]
    {
      AddressesDiffer(kind, base + i, kind, o, a);
    }
  }

  lemma WriteOutside(shadow: seq<int>, kind: Kind, offset: nat, a: Alloc, x: int, k2: Kind, b2: nat, t: seq<int>)
    requires Packed(a) && |shadow| == SHADOW_SIZE && Sets(kind, a) > 0 && 0 <= Address(kind, offset, a) < |shadow|
    requires Fits(k2, b2, |t|, a) && Apart(kind, offset, 1, k2, b2, |t|) && Holds(shadow, k2, b2, a, t)
    ensures Holds(shadow[Address(kind, offset, a) := x], k2, b2, a, t)
  {
    hide Address, Packed;
    if t != [] {
      forall o: nat {:trigger Address(k2, o, a)} | b2 <= o < b2 + |t|
        ensures shadow[Address(kind, offset, a) := x][Address(k2, o, a)] == t[o - b2]
      {
        AddressesDiffer(kind, offset, k2, o, a);
      }
    }
  }

  // ----- one object -----

  lemma PartFits(kind: Kind, base: nat, n: nat, m: nat, a: Alloc)
    requires Fits(kind, base, n, a) && m <= n
    ensures Fits(kind, base, m, a)
  {}

  lemma LiveFits(v: View, a: Alloc)
    requires Fits(v.kind, v.base, v.room, a) && v.winLen <= v.room && v.pos + v.winLen <= |v.content|
    ensures Fits(v.kind, v.base + v.From(), |v.Live()|, a)
  {}

  /** The window holds what the plain program has, and so does the array of a writer outside its window. */
  ghost predicate Coherent(shadow: seq<int>, a: Alloc, v: View)
    requires |shadow| == SHADOW_SIZE
  {
    && |v.content| == |v.data| && v.pos + v.winLen <= |v.data| && v.winLen <= v.room
    && Fits(v.kind, v.base, v.room, a)
    && (LiveFits(v, a); Holds(shadow, v.kind, v.base + v.From(), a, v.Live()))
    && (!v.kind.ReadOb? ==> forall j :: 0 <= j < |v.data| && !(v.pos <= j < v.pos + v.winLen) ==> v.data[j] == v.content[j])
    && (v.kind.ReadNob? ==> v.data == v.content)
    && (!v.Iterator() ==> v.pos == v.iter == 0 && v.winLen == |v.data|)
  }

  /** Two objects on one array: both only read, or one is a read iterator and the other a write iterator. */
  predicate MayShare(k1: Kind, k2: Kind) {
    || (!Writes(k1) && !Writes(k2))
    || (k1.ReadOb? && k2.WriteOb?)
    || (k1.WriteOb? && k2.ReadOb?)
  }

  predicate Writes(kind: Kind) { kind.WriteOb? || kind.Nob? }

  /** Objects on one array agree on it. */
  ghost predicate Linked(v: View, w: View) {
    v.arr == w.arr ==> MayShare(v.kind, w.kind) && v.data == w.data && v.content == w.content
  }

  /** Only a writer makes the plain program's array differ from that of the caller. */
  ghost predicate Backed(vs: seq<View>, i: nat)
    requires i < |vs|
  {
    vs[i].kind.ReadOb? && vs[i].data != vs[i].content ==>
      exists j :: 0 <= j < |vs| && vs[j].kind.WriteOb? && vs[j].arr == vs[i].arr
  }

  /** The next word is in the window, unless the iterator is at the end, or has no room for any. */
  predicate Ready(v: View) {
    v.iter <= v.winLen && (v.Iterator() && v.room > 0 && v.iter == v.winLen ==> v.pos + v.winLen == |v.data|)
  }

  ghost predicate Disjoint(v: View, w: View) {
    Apart(v.kind, v.base, v.room, w.kind, w.base, w.room)
  }

  /** All objects are coherent, and no two share a word of the shadow memory. */
  ghost predicate Good(shadow: seq<int>, a: Alloc, vs: seq<View>) {
    && |shadow| == SHADOW_SIZE && Packed(a)
    && (forall i :: 0 <= i < |vs| ==> Coherent(shadow, a, vs[i]))
    && (forall i, j :: 0 <= i < |vs| && 0 <= j < |vs| && i != j ==> Disjoint(vs[i], vs[j]) && Linked(vs[i], vs[j]))
    && (forall i: nat :: i < |vs| ==> Backed(vs, i))
  }

  // ----- the steps -----

  /** `end_tx`: the windows of the writers have been copied back. */
  function Ended(v: View): View {
    match v.kind
    case ReadOb => v.(data := v.content, pos := v.pos + v.iter, winLen := 0)
    case WriteOb => v.(data := v.content, pos := v.pos + v.iter, winLen := 0)
    case _ => v
  }

  /** `begin_tx`: the next window has been copied in. */
  function Begun(v: View): View
    requires v.pos <= |v.data|
  {
    if v.Iterator() then v.(winLen := if v.room < |v.data| - v.pos then v.room else |v.data| - v.pos, iter := 0) else v
  }

  /** What is copied in. */
  function Incoming(v: View): seq<int>
    requires v.pos <= |v.data| && (v.Iterator() || v.pos + v.winLen <= |v.data|)
  {
    v.data[v.pos..v.pos + Begun(v).winLen]
  }

  /** Between transactions. */
  predicate Paused(v: View) {
    v.pos <= |v.data| && (v.Iterator() ==> v.winLen == 0 && v.data == v.content)
  }

  lemma EndedCoherent(shadow: seq<int>, a: Alloc, v: View)
    requires |shadow| == SHADOW_SIZE && Coherent(shadow, a, v) && v.iter <= v.winLen
    ensures Coherent(shadow, a, Ended(v)) && Paused(Ended(v)) && (v.kind.Nob? || Ended(v).data == v.content)
  {
    hide Holds, Fits;
    HoldsNothing(shadow, v.kind, v.base, a);
    assert v.Iterator() ==> Ended(v).Live() == [];
  }

  lemma HoldsNothing(shadow: seq<int>, kind: Kind, base: nat, a: Alloc)
    requires |shadow| == SHADOW_SIZE
    ensures Holds(shadow, kind, base, a, [])
  {}

  /** A word of a window read back from the shadow memory. */
  lemma WindowWord(shadow: seq<int>, a: Alloc, v: View, k: nat)
    requires |shadow| == SHADOW_SIZE && Coherent(shadow, a, v) && v.From() <= k < v.winLen
    ensures Sets(v.kind, a) > 0 && 0 <= Address(v.kind, v.base + k, a) < |shadow|
    ensures shadow[Address(v.kind, v.base + k, a)] == v.content[v.pos + k]
  {
    hide Address;
    assert v.Live()[k - v.From()] == v.content[v.pos + k];
  }

  /** Copying to one place leaves every other object as it is. */
  lemma LoadedOther(shadow: seq<int>, a: Alloc, kind: Kind, base: nat, s: seq<int>, w: View)
    requires |shadow| == SHADOW_SIZE && Packed(a) && Coherent(shadow, a, w) && Fits(kind, base, |s|, a)
    requires Apart(kind, base, |s|, w.kind, w.base, w.room)
    ensures Coherent(Written(shadow, kind, base, a, s), a, w)
  {
    hide Holds, Fits, Written, Packed;
    LiveFits(w, a);
    WrittenElsewhere(shadow, kind, base, a, s, w.kind, w.base + w.From(), w.Live());
  }

  /** A window that has just been copied in. */
  lemma LoadedSelf(shadow: seq<int>, a: Alloc, v: View)
    requires |shadow| == SHADOW_SIZE && Packed(a) && Coherent(shadow, a, v) && Paused(v) && v.Iterator()
    requires Fits(v.kind, v.base, |Incoming(v)|, a)
    ensures Coherent(Written(shadow, v.kind, v.base, a, Incoming(v)), a, Begun(v)) && Ready(Begun(v))
  {
    hide Holds, Fits, Written, Packed;
    WrittenHolds(shadow, v.kind, v.base, a, Incoming(v));
    assert Begun(v).From() == 0 && Begun(v).Live() == Incoming(v);
  }

  /** Loading a window disturbs no other object. */
  lemma BegunGood(shadow: seq<int>, a: Alloc, vs: seq<View>, i: nat)
    requires Good(shadow, a, vs) && i < |vs| && Paused(vs[i]) && vs[i].Iterator()
    requires Fits(vs[i].kind, vs[i].base, |Incoming(vs[i])|, a)
    ensures Good(Written(shadow, vs[i].kind, vs[i].base, a, Incoming(vs[i])), a, vs[i := Begun(vs[i])])
    ensures Ready(Begun(vs[i]))
  {
    hide Holds, Fits, Written, Packed, Coherent, Ready;
    var v := vs[i];
    var shadow' := Written(shadow, v.kind, v.base, a, Incoming(v));
    var vs' := vs[i := Begun(v)];
    LoadedSelf(shadow, a, v);
    forall j | 0 <= j < |vs| ensures Coherent(shadow', a, vs'[j]) {
      if j != i {
        assert Disjoint(v, vs[j]);
        LoadedOther(shadow, a, v.kind, v.base, Incoming(v), vs[j]);
      }
    }
    StillLinked(vs, vs');
  }

  /** Objects of which only the windows and the positions change stay as far apart as they were. */
  lemma StillLinked(vs: seq<View>, vs': seq<View>)
    requires |vs| == |vs'|
    requires forall i :: 0 <= i < |vs| ==> Moves(vs[i], vs'[i])
    requires forall i, j :: 0 <= i < |vs| && 0 <= j < |vs| && i != j ==> Disjoint(vs[i], vs[j]) && Linked(vs[i], vs[j])
    requires forall i: nat :: i < |vs| ==> Backed(vs, i)
    ensures forall i, j :: 0 <= i < |vs| && 0 <= j < |vs| && i != j ==> Disjoint(vs'[i], vs'[j]) && Linked(vs'[i], vs'[j])
    ensures forall i: nat :: i < |vs| ==> Backed(vs', i)
  {
    forall i, j | 0 <= i < |vs| && 0 <= j < |vs| && i != j ensures Disjoint(vs'[i], vs'[j]) && Linked(vs'[i], vs'[j]) {
      assert Moves(vs[i], vs'[i]) && Moves(vs[j], vs'[j]);
      assert Disjoint(vs[i], vs[j]) && Linked(vs[i], vs[j]);
    }
    forall i: nat | i < |vs| ensures Backed(vs', i) {
      assert Moves(vs[i], vs'[i]);
      assert forall j :: 0 <= j < |vs| ==> Moves(vs[j], vs'[j]);
      BackedStill(vs, vs', i);
    }
  }

  /** The array stays as it is, and so does the place in the shadow memory. */
  ghost predicate Moves(v: View, w: View) {
    && w.kind == v.kind && w.arr == v.arr && w.base == v.base && w.room == v.room
    && w.data == v.data && w.content == v.content
  }

  /** Objects whose kind and array stay, and whose data and content stay or are those of a writer's array. */
  lemma BackedStill(vs: seq<View>, vs': seq<View>, i: nat)
    requires i < |vs| == |vs'| && Backed(vs, i)
    requires forall j :: 0 <= j < |vs| ==> vs'[j].kind == vs[j].kind && vs'[j].arr == vs[j].arr
    requires vs[i].data == vs[i].content ==>
      vs'[i].data == vs'[i].content || exists j :: 0 <= j < |vs| && vs[j].kind.WriteOb? && vs[j].arr == vs[i].arr
    ensures Backed(vs', i)
  {
    if vs'[i].kind.ReadOb? && vs'[i].data != vs'[i].content {
      var j :| 0 <= j < |vs| && vs[j].kind.WriteOb? && vs[j].arr == vs[i].arr;
      assert vs'[j].kind.WriteOb? && vs'[j].arr == vs'[i].arr;
    }
  }

  /** The next word of a writer has been read by all readers of its array. */
  ghost predicate Behind(vs: seq<View>, i: nat)
    requires i < |vs|
  {
    forall j :: 0 <= j < |vs| && vs[j].kind.ReadOb? && vs[j].arr == vs[i].arr ==> vs[i].Position() < vs[j].Position()
  }

  /** The plain program's array changes for all objects that are on it. */
  function Changed(vs: seq<View>, i: nat, content: seq<int>, iter: nat): (r: seq<View>)
    requires i < |vs|
    ensures |r| == |vs| && forall j :: 0 <= j < |vs| ==>
      r[j] == if j == i then vs[i].(content := content, iter := iter)
              else if vs[j].arr == vs[i].arr then vs[j].(content := content) else vs[j]
  {
    seq(|vs|, j requires 0 <= j < |vs| =>
      if j == i then vs[i].(content := content, iter := iter)
      else if vs[j].arr == vs[i].arr then vs[j].(content := content) else vs[j])
  }

  /** A word behind the live part of a reader's window does not matter to it. */
  lemma BehindWindow(shadow: seq<int>, a: Alloc, v: View, at: nat, x: int)
    requires |shadow| == SHADOW_SIZE && Coherent(shadow, a, v) && v.kind.ReadOb? && v.iter <= v.winLen
    requires at < v.Position() && at < |v.content|
    ensures Coherent(shadow, a, v.(content := v.content[at := x]))
  {
    hide Holds, Fits;
    assert v.(content := v.content[at := x]).Live() == v.Live();
  }

  /** A write at or ahead of a reader leaves the reader's window right if and only if it is outside the
      window, or changes nothing. */
  lemma StaleWindow(shadow: seq<int>, a: Alloc, v: View, w: View, x: int)
    requires |shadow| == SHADOW_SIZE && Packed(a) && Coherent(shadow, a, v) && Coherent(shadow, a, w) && Linked(v, w)
    requires v.kind.WriteOb? && v.iter < v.winLen && w.kind.ReadOb? && w.iter <= w.winLen && w.arr == v.arr
    ensures Sets(v.kind, a) > 0 && 0 <= Address(v.kind, v.base + v.iter, a) < |shadow| && v.Position() < |v.content|
    ensures Coherent(shadow[Address(v.kind, v.base + v.iter, a) := x], a, w.(content := v.content[v.Position() := x]))
      <==> !(w.Position() <= v.Position() < w.pos + w.winLen) || x == v.content[v.Position()]
  {
    hide Fits, Packed, Address, Holds;
    WindowWord(shadow, a, v, v.iter);
    var at, p := v.Position(), Address(v.kind, v.base + v.iter, a);
    var w' := w.(content := v.content[at := x]);
    LiveFits(w, a);
    LiveFits(w', a);
    WriteOutside(shadow, v.kind, v.base + v.iter, a, x, w.kind, w.base + w.From(), w.Live());
    if w.Position() <= at < w.pos + w.winLen {
      WindowWord(shadow, a, w, at - w.pos);
      AddressesDiffer(v.kind, v.base + v.iter, w.kind, w.base + (at - w.pos), a);
      if Coherent(shadow[p := x], a, w') {
        WindowWord(shadow[p := x], a, w', at - w.pos);
      } else {
        assert x == v.content[at] ==> w'.content == w.content;
      }
    } else {
      assert w'.Live() == w.Live();
    }
  }

  /** Writing a word inside a window. */
  lemma WrittenGood(shadow: seq<int>, a: Alloc, vs: seq<View>, i: nat, k: nat, x: int, iter: nat)
    requires Good(shadow, a, vs) && i < |vs| && k < vs[i].winLen && Writes(vs[i].kind)
    requires forall j :: 0 <= j < |vs| ==> vs[j].iter <= vs[j].winLen
    requires if vs[i].Iterator() then k == vs[i].iter && iter == k + 1 && Behind(vs, i) else iter == 0
    ensures Sets(vs[i].kind, a) > 0 && |vs[i].content| == |vs[i].data| && vs[i].pos + k < |vs[i].content|
    ensures var p := Address(vs[i].kind, vs[i].base + k, a);
      0 <= p < |shadow| && Good(shadow[p := x], a, Changed(vs, i, vs[i].content[vs[i].pos + k := x], iter))
  {
    hide Holds, Fits, Packed, Address, Coherent;
    var v := vs[i];
    WrittenSelf(shadow, a, v, k, x, iter);
    var p, c := Address(v.kind, v.base + k, a), v.content[v.pos + k := x];
    var vs' := Changed(vs, i, c, iter);
    forall j | 0 <= j < |vs| ensures Coherent(shadow[p := x], a, vs'[j]) {
      if j != i {
        assert Disjoint(v, vs[j]) && Linked(v, vs[j]);
        WrittenOther(shadow, a, v, vs[j], k, x);
      }
    }
    forall j, l | 0 <= j < |vs| && 0 <= l < |vs| && j != l ensures Disjoint(vs'[j], vs'[l]) && Linked(vs'[j], vs'[l]) {
      assert Disjoint(vs[j], vs[l]) && Linked(vs[j], vs[l]);
    }
    forall j: nat | j < |vs| ensures Backed(vs', j) {
      if j != i {
        assert Linked(vs[j], v);
        assert vs[j].arr == v.arr ==> vs[i].kind.WriteOb?;
        BackedStill(vs, vs', j);
      }
    }
  }

  lemma WrittenOther(shadow: seq<int>, a: Alloc, v: View, w: View, k: nat, x: int)
    requires |shadow| == SHADOW_SIZE && Packed(a) && Coherent(shadow, a, v) && Coherent(shadow, a, w) && k < v.winLen
    requires Writes(v.kind) && Disjoint(v, w) && Linked(v, w) && w.iter <= w.winLen
    requires w.arr == v.arr ==> k == v.iter && v.Position() < w.Position()
    requires Sets(v.kind, a) > 0 && 0 <= Address(v.kind, v.base + k, a) < |shadow|
    ensures Coherent(shadow[Address(v.kind, v.base + k, a) := x], a,
                     if w.arr == v.arr then w.(content := v.content[v.pos + k := x]) else w)
  {
    hide Holds, Fits, Packed, Address;
    var w' := if w.arr == v.arr then w.(content := v.content[v.pos + k := x]) else w;
    if w.arr == v.arr {
      BehindWindow(shadow, a, w, v.pos + k, x);
    }
    LiveFits(w', a);
    WriteOutside(shadow, v.kind, v.base + k, a, x, w.kind, w.base + w'.From(), w'.Live());
  }

  lemma WrittenSelf(shadow: seq<int>, a: Alloc, v: View, k: nat, x: int, iter: nat)
    requires |shadow| == SHADOW_SIZE && Packed(a) && Coherent(shadow, a, v) && k < v.winLen && Writes(v.kind)
    requires v.Iterator() || iter == 0
    ensures Sets(v.kind, a) > 0 && 0 <= Address(v.kind, v.base + k, a) < |shadow| && v.pos + k < |v.content| == |v.data|
    ensures Coherent(shadow[Address(v.kind, v.base + k, a) := x], a, v.(content := v.content[v.pos + k := x], iter := iter))
  {
    hide Holds, Fits, Packed, Address;
    WindowWord(shadow, a, v, k);
    LiveFits(v, a);
    WriteInside(shadow, v.kind, v.base, a, v.Live(), k, x);
    assert v.(content := v.content[v.pos + k := x], iter := iter).Live() == v.Live()[k := x];
  }

  /** A reader that moves on inside its window changes nothing else. */
  lemma MovedGood(shadow: seq<int>, a: Alloc, vs: seq<View>, i: nat)
    requires |shadow| == SHADOW_SIZE && Good(shadow, a, vs) && i < |vs| && vs[i].kind.ReadOb? && vs[i].iter < vs[i].winLen
    ensures Good(shadow, a, vs[i := vs[i].(iter := vs[i].iter + 1)])
  {
    hide Packed, Coherent;
    MovedCoherent(shadow, a, vs[i]);
    StillLinked(vs, vs[i := vs[i].(iter := vs[i].iter + 1)]);
  }

  lemma MovedCoherent(shadow: seq<int>, a: Alloc, v: View)
    requires |shadow| == SHADOW_SIZE && Coherent(shadow, a, v) && v.kind.ReadOb? && v.iter < v.winLen
    ensures Coherent(shadow, a, v.(iter := v.iter + 1))
  {
    hide Address;
    var w := v.(iter := v.iter + 1);
    LiveFits(w, a);
    assert w.Live() == v.Live()[1..];
    forall o: nat {:trigger Address(v.kind, o, a)} | w.base + w.From() <= o < w.base + w.From() + |w.Live()|
      ensures shadow[Address(v.kind, o, a)] == w.Live()[o - (w.base + w.From())]
    {
      assert v.Live()[o - (v.base + v.From())] == w.Live()[o - (w.base + w.From())];
    }
  }
}
