/** The SHA-1 of src/algo/sketch.cpp: the block function with its circular schedule, and the streaming
    buffer in front of it. */
module Sketches {
  import opened Sha1Spec

  // ----- the macros -----

  function F_00_19(b: bv32, c: bv32, d: bv32): bv32 { ((c ^ d) & b) ^ d }

  function F_20_39(b: bv32, c: bv32, d: bv32): bv32 { b ^ c ^ d }

  function F_40_59(b: bv32, c: bv32, d: bv32): bv32 { (b & c) | ((b | c) & d) }

  lemma ChFormula(b: bv32, c: bv32, d: bv32)
    ensures ((c ^ d) & b) ^ d == (b & c) ^ ((!b) & d)
  {}

  lemma MajFormula(b: bv32, c: bv32, d: bv32)
    ensures (b & c) | ((b | c) & d) == (b & c) ^ (b & d) ^ (c & d)
  {}

  lemma ChRewritten(b: bv32, c: bv32, d: bv32)
    ensures F_00_19(b, c, d) == Ch(b, c, d)
  {
    ChFormula(b, c, d);
  }

  lemma ParityRewritten(b: bv32, c: bv32, d: bv32)
    ensures F_20_39(b, c, d) == Parity(b, c, d)
  {}

  lemma MajRewritten(b: bv32, c: bv32, d: bv32)
    ensures F_40_59(b, c, d) == Maj(b, c, d)
  {
    MajFormula(b, c, d);
  }

  /** The rewritten formulas compute Ch, Parity and Maj. */
  lemma RewrittenFunctions(b: bv32, c: bv32, d: bv32)
    ensures F_00_19(b, c, d) == Ch(b, c, d)
    ensures F_20_39(b, c, d) == Parity(b, c, d)
    ensures F_40_59(b, c, d) == Maj(b, c, d)
  {
    hide *;
    ChRewritten(b, c, d);
    ParityRewritten(b, c, d);
    MajRewritten(b, c, d);
  }

  /** `Xupdate`: the next word of the schedule. */
  function Xupdate(ia: bv32, ib: bv32, ic: bv32, id: bv32): bv32 {
    Rotl(ia ^ ib ^ ic ^ id, 1)
  }

  /** `BODY_00_15` and `BODY_60_79` add the word last, the other bodies first. */
  function SumLast(r: bv32, e: bv32, k: bv32, f: bv32, xi: bv32): bv32 { r + (e + k + f) + xi }

  function SumFirst(r: bv32, e: bv32, k: bv32, f: bv32, xa: bv32): bv32 { r + (xa + (e + k + f)) }

  function BodyLast(s: State, k: bv32, f: bv32, xi: bv32): State {
    State(SumLast(Rotl(s.a, 5), s.e, k, f, xi), s.a, Rotl(s.b, 30), s.c, s.d)
  }

  function BodyFirst(s: State, k: bv32, f: bv32, xa: bv32): State {
    State(SumFirst(Rotl(s.a, 5), s.e, k, f, xa), s.a, Rotl(s.b, 30), s.c, s.d)
  }

  lemma Reordered(r: bv32, f: bv32, e: bv32, k: bv32, w: bv32)
    ensures r + (e + k + f) + w == r + f + e + k + w == r + (w + (e + k + f))
  {}

  lemma SumOrder(r: bv32, f: bv32, e: bv32, k: bv32, w: bv32)
    ensures SumLast(r, e, k, f, w) == Sum(r, f, e, k, w) == SumFirst(r, e, k, f, w)
  {
    Reordered(r, f, e, k, w);
  }

  /** Both are the round of the standard. */
  lemma BodyIsRound(s: State, t: nat, w: bv32)
    ensures BodyLast(s, K(t), F(t, s.b, s.c, s.d), w) == Round(s, t, w) == BodyFirst(s, K(t), F(t, s.b, s.c, s.d), w)
  {
    hide Rotl, F, K, Sum, SumLast, SumFirst;
    SumOrder(Rotl(s.a, 5), F(t, s.b, s.c, s.d), s.e, K(t), w);
  }

  /** The sixteen words of the circular schedule before round t. */
  ghost predicate Ring(x: seq<bv32>, m: seq<bv32>, t: nat) {
    && |x| == 16 && |m| == 16
    && forall j: nat {:trigger W(m, j)} :: t - 16 <= j < t ==> x[j % 16] == W(m, j)
  }

  lemma RingStep(x: seq<bv32>, m: seq<bv32>, t: nat)
    requires Ring(x, m, t)
    ensures Ring(x[t % 16 := W(m, t)], m, t + 1)
  {
    hide W;
    var x' := x[t % 16 := W(m, t)];
    forall j: nat {:trigger W(m, j)} | t + 1 - 16 <= j < t + 1 ensures x'[j % 16] == W(m, j) {
      if j < t {
        assert j % 16 != t % 16;
      }
    }
  }

  /** What `Xupdate` computes from the words it is given. */
  lemma RingUpdate(x: seq<bv32>, m: seq<bv32>, t: nat)
    requires Ring(x, m, t) && t >= 16
    ensures Xupdate(x[t % 16], x[(t + 2) % 16], x[(t + 8) % 16], x[(t + 13) % 16]) == W(m, t)
  {
    hide Rotl;
    assert x[(t - 16) % 16] == W(m, t - 16) && x[(t - 14) % 16] == W(m, t - 14);
    assert x[(t - 8) % 16] == W(m, t - 8) && x[(t - 3) % 16] == W(m, t - 3);
    assert (t - 16) % 16 == t % 16 && (t - 14) % 16 == (t + 2) % 16;
    assert (t - 8) % 16 == (t + 8) % 16 && (t - 3) % 16 == (t + 13) % 16;
  }

  lemma RoundsStep(m: seq<bv32>, h: State, t: nat)
    requires |m| == 16
    ensures Rounds(m, h, 0) == h && Rounds(m, h, t + 1) == Round(Rounds(m, h, t), t, W(m, t))
  {}

  lemma FirstWords(m: seq<bv32>, t: nat)
    requires |m| == 16 && t < 16
    ensures W(m, t) == m[t]
  {}

  lemma RingStart(x: seq<bv32>, m: seq<bv32>)
    requires |m| == 16 && |x| == 16
    ensures Ring(x, m, 0)
  {}

  /** A round after the first sixteen, for the word that `Xupdate` computes and either body. */
  lemma ScheduledRound(x: seq<bv32>, m: seq<bv32>, h: State, s: State, t: nat, w: bv32)
    requires Ring(x, m, t) && t >= 16 && s == Rounds(m, h, t)
    requires w == Xupdate(x[t % 16], x[(t + 2) % 16], x[(t + 8) % 16], x[(t + 13) % 16])
    ensures Ring(x[t % 16 := w], m, t + 1)
    ensures BodyFirst(s, K(t), F(t, s.b, s.c, s.d), w) == Rounds(m, h, t + 1)
    ensures BodyLast(s, K(t), F(t, s.b, s.c, s.d), w) == Rounds(m, h, t + 1)
  {
    hide W, Xupdate, Rounds, BodyFirst, BodyLast, Round, F, K;
    RingUpdate(x, m, t);
    RingStep(x, m, t);
    RoundsStep(m, h, t);
    BodyIsRound(s, t, W(m, t));
  }

  /** The function and the constant of each loop are those of the standard. */
  lemma LoopFunction(t: nat, b: bv32, c: bv32, d: bv32)
    ensures t < 20 ==> F(t, b, c, d) == F_00_19(b, c, d) && K(t) == 0x5a827999
    ensures 20 <= t < 40 ==> F(t, b, c, d) == F_20_39(b, c, d) && K(t) == 0x6ed9eba1
    ensures 40 <= t < 60 ==> F(t, b, c, d) == F_40_59(b, c, d) && K(t) == 0x8f1bbcdc
    ensures 60 <= t ==> F(t, b, c, d) == F_20_39(b, c, d) && K(t) == 0xca62c1d6
  {
    hide F_00_19, F_20_39, F_40_59, Ch, Parity, Maj;
    RewrittenFunctions(b, c, d);
  }

  lemma Wrap16(x: nat)
    ensures (16 + x) % 16 == (32 + x) % 16 == (48 + x) % 16 == (64 + x) % 16 == x % 16
  {}

  lemma EarlyIndices(i: nat)
    ensures (16 + i) % 16 == i % 16 && (16 + i + 2) % 16 == (i + 2) % 16
    ensures (16 + i + 8) % 16 == (i + 8) % 16 && (16 + i + 13) % 16 == (i + 13) % 16
  {
    Wrap16(i);
    Wrap16(i + 2);
    Wrap16(i + 8);
    Wrap16(i + 13);
  }

  lemma LateIndices(i: nat)
    ensures (40 + i) % 16 == (56 + i) % 16 == (i + 8) % 16 && (40 + i + 2) % 16 == (56 + i + 2) % 16 == (i + 10) % 16
    ensures (40 + i + 8) % 16 == (56 + i + 8) % 16 == i % 16 && (40 + i + 13) % 16 == (56 + i + 13) % 16 == (i + 5) % 16
  {
    Wrap16(i);
    Wrap16(i + 5);
    Wrap16(i + 8);
    Wrap16(i + 10);
  }

  // ----- the loops of HASH_BLOCK_DATA_ORDER -----

  method Rounds00_15(data: array<bv8>, start: nat, x: array<bv32>, h: State) returns (s: State)
    requires start + 64 <= data.Length && x.Length == 16
    modifies x
    ensures var m := WordsOf(data[start..start + 64]); Ring(x[..], m, 16) && s == Rounds(m, h, 16)
  {
    hide W, Rounds, Ring, F_00_19, WordOf, BodyLast, Round, F, K;
    ghost var m := WordsOf(data[start..start + 64]);
    s := h;
    RingStart(x[..], m);
    RoundsStep(m, h, 0);
    for i := 0 to 16
      invariant Ring(x[..], m, i) && s == Rounds(m, h, i)
    {
      FirstWords(m, i);
      RingStep(x[..], m, i);
      RoundsStep(m, h, i);
      BodyIsRound(s, i, m[i]);
      LoopFunction(i, s.b, s.c, s.d);
      ghost var before := x[..];
      x[i] := WordOf(data[start + 4 * i], data[start + 4 * i + 1], data[start + 4 * i + 2], data[start + 4 * i + 3]);
      assert x[..] == before[i := m[i]];
      s := BodyLast(s, 0x5a827999, F_00_19(s.b, s.c, s.d), x[i]);
    }
  }

  method Rounds16_19(x: array<bv32>, s0: State, ghost m: seq<bv32>, ghost h: State) returns (s: State)
    requires x.Length == |m| == 16 && Ring(x[..], m, 16) && s0 == Rounds(m, h, 16)
    modifies x
    ensures Ring(x[..], m, 20) && s == Rounds(m, h, 20)
  {
    hide Rounds, Ring, F_00_19, BodyFirst, F, K, Xupdate;
    s := s0;
    for i := 0 to 4
      invariant Ring(x[..], m, 16 + i) && s == Rounds(m, h, 16 + i)
    {
      EarlyIndices(i);
      ghost var before := x[..];
      var T := Xupdate(x[i], x[i + 2], x[i + 8], x[(i + 13) % 16]);
      ScheduledRound(before, m, h, s, 16 + i, T);
      LoopFunction(16 + i, s.b, s.c, s.d);
      x[i] := T;
      assert x[..] == before[(16 + i) % 16 := T];
      s := BodyFirst(s, 0x5a827999, F_00_19(s.b, s.c, s.d), T);
    }
  }

  method Rounds20_39(x: array<bv32>, s0: State, ghost m: seq<bv32>, ghost h: State) returns (s: State)
    requires x.Length == |m| == 16 && Ring(x[..], m, 20) && s0 == Rounds(m, h, 20)
    modifies x
    ensures Ring(x[..], m, 40) && s == Rounds(m, h, 40)
  {
    hide Rounds, Ring, F_20_39, BodyFirst, F, K, Xupdate;
    s := s0;
    for i := 4 to 24
      invariant Ring(x[..], m, 16 + i) && s == Rounds(m, h, 16 + i)
    {
      EarlyIndices(i);
      ghost var before := x[..];
      var T := Xupdate(x[i % 16], x[(i + 2) % 16], x[(i + 8) % 16], x[(i + 13) % 16]);
      ScheduledRound(before, m, h, s, 16 + i, T);
      LoopFunction(16 + i, s.b, s.c, s.d);
      x[i % 16] := T;
      assert x[..] == before[(16 + i) % 16 := T];
      s := BodyFirst(s, 0x6ed9eba1, F_20_39(s.b, s.c, s.d), T);
    }
  }

  method Rounds40_59(x: array<bv32>, s0: State, ghost m: seq<bv32>, ghost h: State) returns (s: State)
    requires x.Length == |m| == 16 && Ring(x[..], m, 40) && s0 == Rounds(m, h, 40)
    modifies x
    ensures Ring(x[..], m, 60) && s == Rounds(m, h, 60)
  {
    hide Rounds, Ring, F_40_59, BodyFirst, F, K, Xupdate;
    s := s0;
    for i := 0 to 20
      invariant Ring(x[..], m, 40 + i) && s == Rounds(m, h, 40 + i)
    {
      LateIndices(i);
      ghost var before := x[..];
      var T := Xupdate(x[(i + 8) % 16], x[(i + 10) % 16], x[i % 16], x[(i + 5) % 16]);
      ScheduledRound(before, m, h, s, 40 + i, T);
      LoopFunction(40 + i, s.b, s.c, s.d);
      x[(i + 8) % 16] := T;
      assert x[..] == before[(40 + i) % 16 := T];
      s := BodyFirst(s, 0x8f1bbcdc, F_40_59(s.b, s.c, s.d), T);
    }
  }

  method Rounds60_79(x: array<bv32>, s0: State, ghost m: seq<bv32>, ghost h: State) returns (s: State)
    requires x.Length == |m| == 16 && Ring(x[..], m, 60) && s0 == Rounds(m, h, 60)
    modifies x
    ensures Ring(x[..], m, 80) && s == Rounds(m, h, 80)
  {
    hide Rounds, Ring, F_20_39, BodyLast, F, K, Xupdate;
    s := s0;
    for i := 4 to 24
      invariant Ring(x[..], m, 56 + i) && s == Rounds(m, h, 56 + i)
    {
      LateIndices(i);
      ghost var before := x[..];
      var T := Xupdate(x[(i + 8) % 16], x[(i + 10) % 16], x[i % 16], x[(i + 5) % 16]);
      ScheduledRound(before, m, h, s, 56 + i, T);
      LoopFunction(56 + i, s.b, s.c, s.d);
      x[(i + 8) % 16] := T;
      assert x[..] == before[(56 + i) % 16 := T];
      s := BodyLast(s, 0xca62c1d6, F_20_39(s.b, s.c, s.d), T);
    }
  }

  // ----- the context -----

  class ShaCtx {
    var h0: bv32
    var h1: bv32
    var h2: bv32
    var h3: bv32
    var h4: bv32
    var Nl: nat
    var Nh: nat
    const data: array<bv8>
    var num: nat
    ghost var absorbed: seq<bv8>  // everything given to `Update` so far

    ghost function H(): State
      reads `h0, `h1, `h2, `h3, `h4
    {
      State(h0, h1, h2, h3, h4)
    }

    /** The counters hold the number of bits absorbed, the buffer exactly the bytes of the block that
        is not complete yet, and the hash value is that of all complete blocks. */
    ghost predicate Valid()
      reads this, data
    {
      Ready() && num < 64 && Counts(Nh, Nl, |absorbed|)
    }

    ghost predicate Ready()
      reads `h0, `h1, `h2, `h3, `h4, `num, `absorbed, data
    {
      data.Length == 64 && num < 64 && Buffered(H(), data[..num], absorbed)
    }

    constructor ()
      ensures Valid() && absorbed == [] && fresh(data)
      ensures h0 == 0x67452301 && h1 == 0xefcdab89 && h2 == 0x98badcfe && h3 == 0x10325476 && h4 == 0xc3d2e1f0
    {
      hide Absorb;
      h0, h1, h2, h3, h4 := 0x67452301, 0xefcdab89, 0x98badcfe, 0x10325476, 0xc3d2e1f0;
      Nl, Nh, num := 0, 0, 0;
      data := new bv8[64](_ => 0);
      absorbed := [];
      AbsorbNothing(INITIAL, []);
    }

    method AddTo(s: State)
      modifies `h0, `h1, `h2, `h3, `h4
      ensures H() == AddState(old(H()), s)
    {
      hide Plus;
      h0 := Plus(h0, s.a);
      h1 := Plus(h1, s.b);
      h2 := Plus(h2, s.c);
      h3 := Plus(h3, s.d);
      h4 := Plus(h4, s.e);
    }

    /** `HASH_BLOCK_DATA_ORDER`: the compression of section 6.1.2, for any number of blocks. */
    method BlockDataOrder(p: array<bv8>, start: nat, n: nat)
      requires n > 0 && start + 64 * n <= p.Length
      modifies `h0, `h1, `h2, `h3, `h4
      ensures H() == Absorb(old(H()), p[start..start + 64 * n])
    {
      hide Rounds, Ring, Absorb, AddState, WordsOf;
      var x := new bv32[16];
      var at, left := start, n;
      ghost var bytes := p[start..start + 64 * n];
      ghost var before := H();
      AbsorbNothing(H(), bytes[..0]);
      while true
        invariant 0 < left <= n && at == start + 64 * (n - left)
        invariant H() == Absorb(before, bytes[..64 * (n - left)])
        invariant p[start..start + 64 * n] == bytes
        decreases left
      {
        ghost var k := 64 * (n - left);
        ghost var block := bytes[k..k + 64];
        assert block == p[at..at + 64];
        ghost var h := H();
        var s := State(h0, h1, h2, h3, h4);
        s := Rounds00_15(p, at, x, s);
        ghost var m := WordsOf(block);
        s := Rounds16_19(x, s, m, h);
        s := Rounds20_39(x, s, m, h);
        s := Rounds40_59(x, s, m, h);
        s := Rounds60_79(x, s, m, h);
        AddTo(s);
        AbsorbBlock(before, bytes, k, h, H());
        left := left - 1;
        at := at + 64;
        if left == 0 {
          break;
        }
      }
      assert bytes[..64 * n] == bytes;
    }

    /** memcpy into the buffer */
    method Copy(at: nat, src: array<bv8>, from: nat, len: nat)
      requires data.Length == 64 && at + len <= 64 && from + len <= src.Length && src != data
      modifies data
      ensures data[..at + len] == old(data[..at]) + src[from..from + len]
    {
      for i := 0 to len
        invariant data[..at + i] == old(data[..at]) + src[from..from + i]
      {
        data[at + i] := src[from + i];
        assert data[..at + i + 1] == data[..at + i] + [src[from + i]];
        assert src[from..from + i + 1] == src[from..from + i] + [src[from + i]];
      }
    }

    /** memset with zeros */
    method Clear(from: nat, to: nat)
      requires data.Length == 64 && from <= to <= 64
      modifies data
      ensures data[..to] == old(data[..from]) + Zeros(to - from)
    {
      for i := from to to
        invariant data[..i] == old(data[..from]) + Zeros(i - from)
      {
        data[i] := 0;
      }
    }

    /** The length counters, with the carry from the low word to the high one. */
    method Count(len: nat)
      requires Counts(Nh, Nl, |absorbed|)
      modifies `Nl, `Nh
      ensures Counts(Nh, Nl, |absorbed| + len)
    {
      CarryIsRight(Nh, Nl, |absorbed|, len);
      var l := (Nl + len * 8) % 0x1_0000_0000;
      if l < Nl {
        Nh := Nh + 1;
      }
      Nh := Nh + len / 0x2000_0000;
      Nl := l;
    }

    /** The buffer is completed from src, and its block processed. */
    method FillUp(src: array<bv8>, from: nat)
      requires Ready() && num < 64 && from + (64 - num) <= src.Length && src != data
      modifies `h0, `h1, `h2, `h3, `h4, `num, `absorbed, data
      ensures Ready() && num == 0 && absorbed == old(absorbed) + old(src[from..from + (64 - num)])
    {
      hide Absorb, Buffered;
      ghost var h, buffer, t := H(), data[..num], src[from..from + (64 - num)];
      Copy(num, src, from, 64 - num);
      assert data[0..64] == buffer + t;
      BlockDataOrder(data, 0, 1);
      BufferFills(h, buffer, absorbed, t, H());
      absorbed := absorbed + t;
      num := 0;
      Clear(0, 64);
    }

    /** Fewer bytes than the buffer has room for go to the buffer. */
    method Keep(src: array<bv8>, from: nat, len: nat)
      requires Ready() && num + len < 64 && from + len <= src.Length && src != data
      modifies `num, `absorbed, data
      ensures Ready() && num < 64 && absorbed == old(absorbed) + src[from..from + len]
    {
      hide Absorb, Buffered;
      ghost var buffer, t := data[..num], src[from..from + len];
      Copy(num, src, from, len);
      BufferGrows(H(), buffer, absorbed, t);
      absorbed := absorbed + t;
      num := num + len;
    }

    /** Full blocks are processed where they are. */
    method Blocks(src: array<bv8>, from: nat, n: nat)
      requires Ready() && num == 0 && n > 0 && from + 64 * n <= src.Length && src != data
      modifies `h0, `h1, `h2, `h3, `h4, `absorbed
      ensures Ready() && absorbed == old(absorbed) + src[from..from + 64 * n]
    {
      hide Absorb, Buffered;
      ghost var h := H();
      BlockDataOrder(src, from, n);
      assert data[..0] == [];
      BlocksAbsorbed(h, absorbed, src[from..from + 64 * n], H());
      absorbed := absorbed + src[from..from + 64 * n];
    }

    /** The second half of `hash_update`: full blocks, then the rest. */
    method UpdateBlocks(src: array<bv8>, from0: nat, len0: nat)
      requires Ready() && num == 0 && from0 + len0 <= src.Length && src != data
      modifies `h0, `h1, `h2, `h3, `h4, `num, `absorbed, data
      ensures Ready() && num < 64 && absorbed == old(absorbed) + src[from0..from0 + len0]
    {
      hide ShaCtx.Ready;
      var from, len := from0, len0;
      ghost var s := absorbed;
      var n := len / 64;
      if n > 0 {
        Blocks(src, from, n);
        n := n * 64;
        from := from + n;
        len := len - n;
      }
      assert absorbed == s + src[from0..from];
      if len != 0 {
        Keep(src, from, len);
        assert src[from0..from0 + len0] == src[from0..from] + src[from..from + len];
      }
    }

    /** `hash_update` */
    method Update(src: array<bv8>, from0: nat, len0: nat)
      requires Valid() && from0 + len0 <= src.Length && src != data
      requires 8 * (|absorbed| + len0) < 0x1_0000_0000_0000_0000
      modifies this, data
      ensures Valid() && absorbed == old(absorbed) + src[from0..from0 + len0]
    {
      hide Counts, ShaCtx.Ready;
      var from, len := from0, len0;
      if len == 0 {
        return;
      }
      Count(len);
      if num != 0 {
        if len >= 64 || len + num >= 64 {
          var n := 64 - num;
          FillUp(src, from);
          assert src[from0..from0 + len0] == src[from0..from0 + n] + src[from0 + n..from0 + len0];
          from := from + n;
          len := len - n;
        } else {
          Keep(src, from, len);
          return;
        }
      }
      UpdateBlocks(src, from, len);
    }

    /** HOST_l2c: the low 32 bits of a counter, most significant byte first */
    method PutLong(at: nat, l: nat)
      requires data.Length == 64 && at + 4 <= 64
      modifies data
      ensures data[..at + 4] == old(data[..at]) + BigEndian(l, 4)
    {
      FourBytes(l);
      data[at] := (l / 0x100_0000 % 256) as bv8;
      data[at + 1] := (l / 0x1_0000 % 256) as bv8;
      data[at + 2] := (l / 0x100 % 256) as bv8;
      data[at + 3] := (l % 256) as bv8;
    }

    /** The tail of `hash_final`: the length goes to the end of the buffer, and the last block is processed. */
    method LastBlock(from: nat)
      requires data.Length == 64 && from <= 56
      modifies `h0, `h1, `h2, `h3, `h4, data
      ensures H() == Absorb(old(H()), old(data[..from]) + Zeros(56 - from) + (BigEndian(Nh, 4) + BigEndian(Nl, 4)))
    {
      hide Absorb;
      Clear(from, 56);
      PutLong(56, Nh);
      PutLong(60, Nl);
      assert data[0..64] == old(data[..from]) + Zeros(56 - from) + (BigEndian(Nh, 4) + BigEndian(Nl, 4));
      BlockDataOrder(data, 0, 1);
    }

    /** `hash_final`: the digest of everything absorbed. */
    method Final(md: array<bv8>)
      requires Valid() && md.Length >= 20 && md != data
      requires 8 * |absorbed| < 0x1_0000_0000_0000_0000
      modifies this, data, md
      ensures absorbed == old(absorbed) && md[..20] == Digest(absorbed)
      ensures md[20..] == old(md[20..])
    {
      hide Absorb, Padding, StateBytes, WordBytes, BigEndian;
      ghost var h, buffer := H(), data[..num];
      var n := num;
      data[n] := 0x80;
      n := n + 1;
      assert data[..n] == buffer + [0x80];
      FinalBlocks(h, buffer, absorbed, Nh, Nl);
      if n > 56 {
        Clear(n, 64);
        n := 0;
        assert data[0..64] == buffer + [0x80] + Zeros(63 - |buffer|);
        BlockDataOrder(data, 0, 1);
        assert data[..0] + Zeros(56) == Zeros(56);
      }
      LastBlock(n);
      assert H() == Absorb(INITIAL, absorbed + Padding(|absorbed|));
      num := 0;
      Clear(0, 64);
      MakeString(md);
    }

    /** HASH_MAKE_STRING */
    method MakeString(md: array<bv8>)
      requires md.Length >= 20
      modifies md
      ensures md[..20] == StateBytes(H()) && md[20..] == old(md[20..])
    {
      hide WordBytes;
      assert md[..0] + WordBytes(h0) == WordBytes(h0);
      PutWord(md, 0, h0);
      PutWord(md, 4, h1);
      PutWord(md, 8, h2);
      PutWord(md, 12, h3);
      PutWord(md, 16, h4);
    }

    method PutWord(md: array<bv8>, at: nat, ll: bv32)
      requires at + 4 <= md.Length
      modifies md
      ensures md[..at + 4] == old(md[..at]) + WordBytes(ll)
      ensures forall i :: at + 4 <= i < md.Length ==> md[i] == old(md[i])
    {
      hide WordBytes;
      var b := WordBytes(ll);
      md[at], md[at + 1], md[at + 2], md[at + 3] := b[0], b[1], b[2], b[3];
    }
  }

  lemma FourBytes(l: nat)
    ensures BigEndian(l, 4)
      == [(l / 0x100_0000 % 256) as bv8, (l / 0x1_0000 % 256) as bv8, (l / 0x100 % 256) as bv8, (l % 256) as bv8]
  {
    hide BigEndian;
    assert l / 256 / 256 == l / 0x1_0000 && l / 0x1_0000 / 256 == l / 0x100_0000;
    LastByte(l, 3);
    LastByte(l / 0x100, 2);
    LastByte(l / 0x1_0000, 1);
    LastByte(l / 0x100_0000, 0);
  }

  lemma ZerosSplit(a: nat, b: nat)
    ensures Zeros(a + b) == Zeros(a) + Zeros(b)
  {}

  /** How many zeros there are in the padding. */
  lemma PaddingZeros(n: nat)
    ensures (55 - n) % 64 == if n % 64 <= 55 then 55 - n % 64 else 119 - n % 64
  {
    assert n == 64 * (n / 64) + n % 64;
  }

  /** The padding fills the last block, or the last two. */
  lemma PaddedTail(buffer: seq<bv8>, n: nat, length: seq<bv8>)
    requires |buffer| == n % 64 && length == BigEndian(8 * n, 8)
    ensures |buffer| + 1 <= 56 ==> buffer + Padding(n) == buffer + [0x80] + Zeros(56 - |buffer| - 1) + length
    ensures |buffer| + 1 > 56 ==> buffer + Padding(n) == buffer + [0x80] + Zeros(63 - |buffer|) + (Zeros(56) + length)
  {
    hide BigEndian, Zeros;
    PaddingZeros(n);
    if |buffer| + 1 > 56 {
      ZerosSplit(63 - |buffer|, 56);
    }
  }

  /** The length in bits is written as the two counters. */
  lemma LengthBytes(Nh: nat, Nl: nat, n: nat)
    requires Counts(Nh, Nl, n)
    ensures BigEndian(8 * n, 8) == BigEndian(Nh, 4) + BigEndian(Nl, 4)
  {
    hide BigEndian;
    assert Pow256(4) == 0x1_0000_0000;
    BigEndianSplit(Nh, Nl, 4, 4);
  }

  /** The one or two blocks that end the message. */
  lemma FinalBlocks(h: State, buffer: seq<bv8>, s: seq<bv8>, Nh: nat, Nl: nat)
    requires |buffer| < 64 && Buffered(h, buffer, s) && Counts(Nh, Nl, |s|)
    ensures var length := BigEndian(Nh, 4) + BigEndian(Nl, 4);
      Absorb(INITIAL, s + Padding(|s|)) ==
        if |buffer| + 1 <= 56 then Absorb(h, buffer + [0x80] + Zeros(56 - |buffer| - 1) + length)
        else Absorb(Absorb(h, buffer + [0x80] + Zeros(63 - |buffer|)), Zeros(56) + length)
  {
    hide Absorb, BigEndian, Padding, Zeros, Counts;
    var length := BigEndian(Nh, 4) + BigEndian(Nl, 4);
    LengthBytes(Nh, Nl, |s|);
    PaddedTail(buffer, |s|, length);
    var front := s[..|s| - |buffer|];
    AbsorbConcat(INITIAL, front, buffer + Padding(|s|));
    assert s + Padding(|s|) == front + (buffer + Padding(|s|));
    if |buffer| + 1 > 56 {
      AbsorbConcat(h, buffer + [0x80] + Zeros(63 - |buffer|), Zeros(56) + length);
    }
  }

  /** Nh * 2^32 + Nl is the number of bits. */
  ghost predicate Counts(Nh: nat, Nl: nat, bytes: nat) {
    Nl < 0x1_0000_0000 && Nh * 0x1_0000_0000 + Nl == 8 * bytes
  }

  lemma CarryIsRight(Nh: nat, Nl: nat, bytes: nat, len: nat)
    requires Counts(Nh, Nl, bytes)
    ensures var l := (Nl + len * 8) % 0x1_0000_0000;
      Counts(Nh + (if l < Nl then 1 else 0) + len / 0x2000_0000, l, bytes + len)
  {
    var q, r := len / 0x2000_0000, len % 0x2000_0000;
    assert Nl + len * 8 == q * 0x1_0000_0000 + (Nl + 8 * r);
  }

  /** The hash value of all complete blocks of s, and the rest of s in the buffer. */
  ghost predicate Buffered(h: State, buffer: seq<bv8>, s: seq<bv8>) {
    && |buffer| == |s| % 64
    && buffer == s[|s| - |buffer|..]
    && h == Absorb(INITIAL, s[..|s| - |buffer|])
  }

  lemma BufferGrows(h: State, buffer: seq<bv8>, s: seq<bv8>, t: seq<bv8>)
    requires Buffered(h, buffer, s) && |buffer| + |t| < 64
    ensures Buffered(h, buffer + t, s + t)
  {
    hide Absorb;
    assert (s + t)[..|s| - |buffer|] == s[..|s| - |buffer|];
    assert (s + t)[|s| - |buffer|..] == s[|s| - |buffer|..] + t;
  }

  lemma BufferFills(h: State, buffer: seq<bv8>, s: seq<bv8>, t: seq<bv8>, h': State)
    requires Buffered(h, buffer, s) && |buffer| + |t| == 64 && h' == Absorb(h, buffer + t)
    ensures Buffered(h', [], s + t)
  {
    hide Absorb;
    var front := s[..|s| - |buffer|];
    AbsorbConcat(INITIAL, front, buffer + t);
    assert s + t == front + (buffer + t);
    assert (s + t)[..|s + t|] == s + t;
  }

  lemma BlocksAbsorbed(h: State, s: seq<bv8>, t: seq<bv8>, h': State)
    requires Buffered(h, [], s) && |t| % 64 == 0 && h' == Absorb(h, t)
    ensures Buffered(h', [], s + t)
  {
    hide Absorb;
    AbsorbConcat(INITIAL, s, t);
    assert s[..|s|] == s && (s + t)[..|s + t|] == s + t;
  }

  lemma AbsorbNothing(h: State, s: seq<bv8>)
    requires s == []
    ensures Absorb(h, s) == h
  {}

  lemma AbsorbBlock(before: State, s: seq<bv8>, k: nat, h: State, h': State)
    requires k % 64 == 0 && k + 64 <= |s| && h == Absorb(before, s[..k]) && h' == Compress(h, WordsOf(s[k..k + 64]))
    ensures h' == Absorb(before, s[..k + 64])
  {
    hide Compress, WordsOf;
    assert s[..k + 64] == s[..k] + s[k..k + 64];
    AbsorbConcat(before, s[..k], s[k..k + 64]);
    assert s[k..k + 64][..64] == s[k..k + 64];
  }

  // ----- the whole hash -----

  /** The concatenation of pieces of a message. */
  ghost function Joined(pieces: seq<array<bv8>>): seq<bv8>
    reads pieces
  {
    if pieces == [] then [] else Joined(pieces[..|pieces| - 1]) + pieces[|pieces| - 1][..]
  }

  /** Any split of a message into pieces gives the digest of the whole message. */
  method HashPieces(pieces: seq<array<bv8>>, md: array<bv8>)
    requires md.Length >= 20 && 8 * |Joined(pieces)| < 0x1_0000_0000_0000_0000
    modifies md
    ensures md[..20] == old(Digest(Joined(pieces)))
  {
    hide Digest, Joined, ShaCtx.Valid;
    var c := new ShaCtx();
    ghost var whole := Joined(pieces);
    JoinedNext(pieces, 0);
    for i := 0 to |pieces|
      invariant c.Valid() && fresh(c) && fresh(c.data)
      invariant c.absorbed == Joined(pieces[..i]) && Joined(pieces) == whole
    {
      JoinedNext(pieces, i);
      JoinedPrefix(pieces, i + 1);
      c.Update(pieces[i], 0, pieces[i].Length);
      assert pieces[i][0..pieces[i].Length] == pieces[i][..];
    }
    assert pieces[..|pieces|] == pieces;
    c.Final(md);
  }

  lemma JoinedNext(pieces: seq<array<bv8>>, i: nat)
    requires i <= |pieces|
    ensures Joined(pieces[..0]) == []
    ensures i < |pieces| ==> Joined(pieces[..i + 1]) == Joined(pieces[..i]) + pieces[i][..]
  {
    if i < |pieces| {
      assert pieces[..i + 1][..i] == pieces[..i];
    }
  }

  lemma {:induction false} JoinedPrefix(pieces: seq<array<bv8>>, i: nat)
    requires i <= |pieces|
    ensures |Joined(pieces[..i])| <= |Joined(pieces)|
    decreases |pieces|
  {
    if i == |pieces| {
      assert pieces[..i] == pieces;
    } else {
      JoinedPrefix(pieces[..|pieces| - 1], i);
      assert pieces[..|pieces| - 1][..i] == pieces[..i];
    }
  }

  /** `sha1` */
  method Sha1(message: array<bv8>, digest: array<bv8>)
    requires digest.Length >= 20 && 8 * message.Length < 0x1_0000_0000_0000_0000 && message != digest
    modifies digest
    ensures digest[..20] == Digest(message[..])
  {
    hide Digest;
    var c := new ShaCtx();
    var m := new bv8[64](_ => 0);
    c.Update(message, 0, message.Length);
    ghost var t := message[..];
    assert c.absorbed == t;
    c.Final(m);
    forall i | 0 <= i < 20 {
      digest[i] := m[i];
    }
    assert digest[..20] == m[..20] && message[..] == t;
  }
}
