/** SHA-1 as FIPS 180-4 defines it: padding (section 5.1.1), parsing (5.2.1), constants (4.2.1, 5.3.1),
    functions (4.1.1) and the computation (6.1.2). */
module Sha1Spec {

  function Rotl(x: bv32, n: bv5): bv32
    requires 0 < n
  {
    (x << n) | (x >> (32 - n as bv6))
  }

  function Ch(x: bv32, y: bv32, z: bv32): bv32 { (x & y) ^ ((!x) & z) }

  function Parity(x: bv32, y: bv32, z: bv32): bv32 { x ^ y ^ z }

  function Maj(x: bv32, y: bv32, z: bv32): bv32 { (x & y) ^ (x & z) ^ (y & z) }

  /** The function of round t. */
  function F(t: nat, x: bv32, y: bv32, z: bv32): bv32 {
    if t < 20 then Ch(x, y, z) else if t < 40 then Parity(x, y, z) else if t < 60 then Maj(x, y, z) else Parity(x, y, z)
  }

  /** The constant of round t. */
  function K(t: nat): bv32 {
    if t < 20 then 0x5a827999 else if t < 40 then 0x6ed9eba1 else if t < 60 then 0x8f1bbcdc else 0xca62c1d6
  }

  datatype State = State(a: bv32, b: bv32, c: bv32, d: bv32, e: bv32)

  const INITIAL: State := State(0x67452301, 0xefcdab89, 0x98badcfe, 0x10325476, 0xc3d2e1f0)

  /** Word t of the message schedule of a block of sixteen words. */
  function W(m: seq<bv32>, t: nat): bv32
    requires |m| == 16
  {
    if t < 16 then m[t] else Rotl(W(m, t - 3) ^ W(m, t - 8) ^ W(m, t - 14) ^ W(m, t - 16), 1)
  }

  /** Addition modulo 2^32 of five words. */
  function Sum(x: bv32, y: bv32, z: bv32, u: bv32, v: bv32): bv32 { x + y + z + u + v }

  function Round(s: State, t: nat, w: bv32): State {
    State(Sum(Rotl(s.a, 5), F(t, s.b, s.c, s.d), s.e, K(t), w), s.a, Rotl(s.b, 30), s.c, s.d)
  }

  /** The working variables after t rounds. */
  function Rounds(m: seq<bv32>, s: State, t: nat): State
    requires |m| == 16
  {
    if t == 0 then s else Round(Rounds(m, s, t - 1), t - 1, W(m, t - 1))
  }

  /** Addition modulo 2^32. */
  function Plus(x: bv32, y: bv32): bv32 { x + y }

  function AddState(h: State, s: State): State {
    State(Plus(h.a, s.a), Plus(h.b, s.b), Plus(h.c, s.c), Plus(h.d, s.d), Plus(h.e, s.e))
  }

  /** The intermediate hash value after one more block. */
  function Compress(h: State, m: seq<bv32>): State
    requires |m| == 16
  {
    AddState(h, Rounds(m, h, 80))
  }

  function WordOf(b0: bv8, b1: bv8, b2: bv8, b3: bv8): bv32 {
    ((b0 as bv32) << 24) | ((b1 as bv32) << 16) | ((b2 as bv32) << 8) | (b3 as bv32)
  }

  /** The block as sixteen words, most significant byte first. */
  function WordsOf(block: seq<bv8>): (m: seq<bv32>)
    requires |block| == 64
    ensures |m| == 16
  {
    seq(16, t requires 0 <= t < 16 => WordOf(block[4 * t], block[4 * t + 1], block[4 * t + 2], block[4 * t + 3]))
  }

  /** All full blocks of s, one after the other; a last incomplete block is not used. */
  function Absorb(h: State, s: seq<bv8>): State
    decreases |s|
  {
    if |s| < 64 then h else Absorb(Compress(h, WordsOf(s[..64])), s[64..])
  }

  lemma {:induction false} AbsorbConcat(h: State, s: seq<bv8>, t: seq<bv8>)
    requires |s| % 64 == 0
    ensures Absorb(h, s + t) == Absorb(Absorb(h, s), t)
    decreases |s|
  {
    hide Compress, WordsOf;
    if |s| == 0 {
      assert s + t == t;
    } else {
      assert (s + t)[..64] == s[..64] && (s + t)[64..] == s[64..] + t;
      AbsorbConcat(Compress(h, WordsOf(s[..64])), s[64..], t);
    }
  }

  // ----- bytes -----

  function WordBytes(w: bv32): (s: seq<bv8>)
    ensures |s| == 4
  {
    [((w >> 24) & 0xff) as bv8, ((w >> 16) & 0xff) as bv8, ((w >> 8) & 0xff) as bv8, (w & 0xff) as bv8]
  }

  /** n as k bytes, most significant first. */
  function BigEndian(n: nat, k: nat): (s: seq<bv8>)
    ensures |s| == k
  {
    if k == 0 then [] else BigEndian(n / 256, k - 1) + [(n % 256) as bv8]
  }

  lemma LastByte(l: nat, k: nat)
    ensures BigEndian(l, k + 1) == BigEndian(l / 256, k) + [(l % 256) as bv8] && BigEndian(l, 0) == []
  {}

  function Pow256(k: nat): (p: nat)
    ensures p > 0
  {
    if k == 0 then 1 else 256 * Pow256(k - 1)
  }

  lemma {:induction false} BigEndianSplit(hi: nat, lo: nat, k: nat, j: nat)
    requires lo < Pow256(j)
    ensures BigEndian(hi * Pow256(j) + lo, k + j) == BigEndian(hi, k) + BigEndian(lo, j)
  {
    if j == 0 {
      assert BigEndian(hi, k) + [] == BigEndian(hi, k);
    } else {
      var n := hi * Pow256(j) + lo;
      assert hi * Pow256(j) == 256 * (hi * Pow256(j - 1));
      assert n / 256 == hi * Pow256(j - 1) + lo / 256 && n % 256 == lo % 256;
      BigEndianSplit(hi, lo / 256, k, j - 1);
    }
  }

  // ----- the hash -----

  function Zeros(n: nat): (s: seq<bv8>)
    ensures |s| == n && forall i :: 0 <= i < n ==> s[i] == 0
  {
    seq(n, _ => 0 as bv8)
  }

  /** A one bit, the fewest zero bits that leave room for eight bytes, and the length in bits. */
  function Padding(n: nat): (s: seq<bv8>)
    ensures (n + |s|) % 64 == 0
  {
    [0x80 as bv8] + Zeros((55 - n) % 64) + BigEndian(8 * n, 8)
  }

  function StateBytes(h: State): (s: seq<bv8>)
    ensures |s| == 20
  {
    WordBytes(h.a) + WordBytes(h.b) + WordBytes(h.c) + WordBytes(h.d) + WordBytes(h.e)
  }

  function Digest(m: seq<bv8>): (s: seq<bv8>)
    requires 8 * |m| < 0x1_0000_0000_0000_0000
    ensures |s| == 20
  {
    StateBytes(Absorb(INITIAL, m + Padding(|m|)))
  }
}
