/** What the operations of SHA-1 do to single bits and to numbers, and known answers: the digests of "abc" and of the
    56-byte message that FIPS 180-4 gives as examples of one and of two blocks, round by round. */
module Sha1Examples {
  import opened Sha1Spec

  /** The rotations of the algorithm as a multiplication modulo 2^32 and what it loses. */
  lemma RotlArithmetic(x: bv32)
    ensures Rotl(x, 1) == x * 2 + x / 0x8000_0000
    ensures Rotl(x, 5) == x * 0x20 + x / 0x800_0000
    ensures Rotl(x, 30) == x * 0x4000_0000 + x / 4
  {
    ShiftArithmetic(x);
  }

  lemma ShiftArithmetic(x: bv32)
    ensures (x << 1) | (x >> 31) == x * 2 + x / 0x8000_0000
    ensures (x << 5) | (x >> 27) == x * 0x20 + x / 0x800_0000
    ensures (x << 30) | (x >> 2) == x * 0x4000_0000 + x / 4
  {}

  /** On any set u of bits: where x has ones, Ch is y, where it has zeros, z. */
  lemma ChBits(x: bv32, y: bv32, z: bv32, u: bv32)
    ensures x & u == u ==> Ch(x, y, z) & u == y & u
    ensures x & u == 0 ==> Ch(x, y, z) & u == z & u
  {}

  /** Where two words agree, Parity is the third one, where they differ, its complement. */
  lemma ParityBits(x: bv32, y: bv32, z: bv32, u: bv32)
    ensures x & u == y & u ==> Parity(x, y, z) & u == z & u
    ensures x & u == !y & u ==> Parity(x, y, z) & u == !z & u
  {}

  /** Where two words agree, Maj is what they agree on. */
  lemma MajBits(x: bv32, y: bv32, z: bv32, u: bv32)
    ensures x & u == y & u || x & u == z & u ==> Maj(x, y, z) & u == x & u
    ensures y & u == z & u ==> Maj(x, y, z) & u == y & u
  {}

  /** Most significant byte first, and the bytes come back. */
  lemma WordArithmetic(b0: bv8, b1: bv8, b2: bv8, b3: bv8)
    ensures WordOf(b0, b1, b2, b3)
      == (b0 as bv32) * 0x100_0000 + (b1 as bv32) * 0x1_0000 + (b2 as bv32) * 0x100 + (b3 as bv32)
  {}

  lemma BytesBack(b0: bv8, b1: bv8, b2: bv8, b3: bv8)
    ensures WordBytes(WordOf(b0, b1, b2, b3)) == [b0, b1, b2, b3]
  {}

  /** The padding of a message of n bytes, as section 5.1.1 of FIPS 180-4 has it: a one bit, zeros, as few of them as
      complete a block, and the length in bits. */
  lemma PaddingIs(n: nat)
    ensures var p := Padding(n);
      && 9 <= |p| < 9 + 64 && (n + |p|) % 64 == 0 && p[0] == 0x80 && (forall i :: 1 <= i < |p| - 8 ==> p[i] == 0)
      && p[|p| - 8..] == BigEndian(8 * n, 8)
  {
    hide BigEndian;
  }

  // ----- known answers, round by round -----

  /** The sixteen words of the schedule before word t. */
  ghost predicate Scheduled(m: seq<bv32>, t: nat, w0: bv32, w1: bv32, w2: bv32, w3: bv32, w4: bv32, w5: bv32, w6: bv32, w7: bv32,
                            w8: bv32, w9: bv32, w10: bv32, w11: bv32, w12: bv32, w13: bv32, w14: bv32, w15: bv32) {
    && |m| == 16 <= t
    && W(m, t - 16) == w0 && W(m, t - 15) == w1 && W(m, t - 14) == w2 && W(m, t - 13) == w3
    && W(m, t - 12) == w4 && W(m, t - 11) == w5 && W(m, t - 10) == w6 && W(m, t - 9) == w7
    && W(m, t - 8) == w8 && W(m, t - 7) == w9 && W(m, t - 6) == w10 && W(m, t - 5) == w11
    && W(m, t - 4) == w12 && W(m, t - 3) == w13 && W(m, t - 2) == w14 && W(m, t - 1) == w15
  }

  /** Word t of the schedule, and the first working variable after round t; the others move on. */
  lemma Next(m: seq<bv32>, h: State, t: nat, w: bv32, a: bv32)
    requires |m| == 16 && w == if t < 16 then W(m, t) else Rotl(W(m, t - 3) ^ W(m, t - 8) ^ W(m, t - 14) ^ W(m, t - 16), 1)
    requires var s := Rounds(m, h, t); Sum(Rotl(s.a, 5), F(t, s.b, s.c, s.d), s.e, K(t), w) == a
    ensures W(m, t) == w
    ensures var s := Rounds(m, h, t); Rounds(m, h, t + 1) == State(a, s.a, Rotl(s.b, 30), s.c, s.d)
  {
    hide Rotl, F, K, Sum;
  }

  /** The block of "abc", rounds 0 to 19. */
  lemma Abc00(m: seq<bv32>, h: State)
    requires |m| == 16 && Rounds(m, h, 0) == State(0x67452301, 0xefcdab89, 0x98badcfe, 0x10325476, 0xc3d2e1f0)
    requires Scheduled(m, 16,
      0x61626380, 0x00000000, 0x00000000, 0x00000000, 0x00000000, 0x00000000, 0x00000000, 0x00000000, 0x00000000,
      0x00000000, 0x00000000, 0x00000000, 0x00000000, 0x00000000, 0x00000000, 0x00000018)
    ensures Rounds(m, h, 20) == State(0xfd9e1d7d, 0xdc64901d, 0x20aa99ca, 0xd3a49608, 0xc82f758b)
    ensures Scheduled(m, 20,
      0x00000000, 0x00000000, 0x00000000, 0x00000000, 0x00000000, 0x00000000, 0x00000000, 0x00000000, 0x00000000,
      0x00000000, 0x00000000, 0x00000018, 0xc2c4c700, 0x00000000, 0x00000030, 0x85898e01)
  {
    hide W, Rounds;
    Next(m, h, 0, 0x61626380, 0x0116fc33); Next(m, h, 1, 0x00000000, 0x8990536d);
    Next(m, h, 2, 0x00000000, 0xa1390f08); Next(m, h, 3, 0x00000000, 0xcdd8e11b);
    Next(m, h, 4, 0x00000000, 0xcfd499de); Next(m, h, 5, 0x00000000, 0x3fc7ca40);
    Next(m, h, 6, 0x00000000, 0x993e30c1); Next(m, h, 7, 0x00000000, 0x9e8c07d4);
    Next(m, h, 8, 0x00000000, 0x4b6ae328); Next(m, h, 9, 0x00000000, 0x8351f929);
    Next(m, h, 10, 0x00000000, 0xfbda9e89); Next(m, h, 11, 0x00000000, 0x63188fe4);
    Next(m, h, 12, 0x00000000, 0x4607b664); Next(m, h, 13, 0x00000000, 0x9128f695);
    Next(m, h, 14, 0x00000000, 0x196bee77); Next(m, h, 15, 0x00000018, 0x20bdd62f);
    Next(m, h, 16, 0xc2c4c700, 0x4e925823); Next(m, h, 17, 0x00000000, 0x82aa6728);
    Next(m, h, 18, 0x00000030, 0xdc64901d); Next(m, h, 19, 0x85898e01, 0xfd9e1d7d);
  }

  lemma Abc20(m: seq<bv32>, h: State)
    requires |m| == 16 && Rounds(m, h, 20) == State(0xfd9e1d7d, 0xdc64901d, 0x20aa99ca, 0xd3a49608, 0xc82f758b)
    requires Scheduled(m, 20,
      0x00000000, 0x00000000, 0x00000000, 0x00000000, 0x00000000, 0x00000000, 0x00000000, 0x00000000, 0x00000000,
      0x00000000, 0x00000000, 0x00000018, 0xc2c4c700, 0x00000000, 0x00000030, 0x85898e01)
    ensures Rounds(m, h, 40) == State(0x32de1cba, 0x4c986405, 0xf718e5cf, 0x03d447f6, 0xf72eec32)
    ensures Scheduled(m, 40,
      0x85898ec1, 0x16263806, 0x00000000, 0x00000180, 0x2c4c700c, 0x000000f0, 0x93afb507, 0x5898e048, 0x8e9a9202,
      0x00000600, 0xb131c0f0, 0x16263bc6, 0x4ebed41e, 0x626380a1, 0x16263806, 0x000018c0)
  {
    hide W, Rounds;
    Next(m, h, 20, 0x00000000, 0x1a37b0ca); Next(m, h, 21, 0x00000060, 0x33a23bfc);
    Next(m, h, 22, 0x0b131c03, 0x21283486); Next(m, h, 23, 0x00000030, 0xd541f12d);
    Next(m, h, 24, 0x85898ec1, 0xc7567dc6); Next(m, h, 25, 0x16263806, 0x48413ba4);
    Next(m, h, 26, 0x00000000, 0xbe35fbd5); Next(m, h, 27, 0x00000180, 0x4aa84d97);
    Next(m, h, 28, 0x2c4c700c, 0x8370b52e); Next(m, h, 29, 0x000000f0, 0xc5fbaf5d);
    Next(m, h, 30, 0x93afb507, 0x1267b407); Next(m, h, 31, 0x5898e048, 0x3b845d33);
    Next(m, h, 32, 0x8e9a9202, 0x046faa0a); Next(m, h, 33, 0x00000600, 0x2c0ebc11);
    Next(m, h, 34, 0xb131c0f0, 0x21796ad4); Next(m, h, 35, 0x16263bc6, 0xdcbbb0cb);
    Next(m, h, 36, 0x4ebed41e, 0x0f511fd8); Next(m, h, 37, 0x626380a1, 0xdc63973f);
    Next(m, h, 38, 0x16263806, 0x4c986405); Next(m, h, 39, 0x000018c0, 0x32de1cba);
  }

  lemma Abc40(m: seq<bv32>, h: State)
    requires |m| == 16 && Rounds(m, h, 40) == State(0x32de1cba, 0x4c986405, 0xf718e5cf, 0x03d447f6, 0xf72eec32)
    requires Scheduled(m, 40,
      0x85898ec1, 0x16263806, 0x00000000, 0x00000180, 0x2c4c700c, 0x000000f0, 0x93afb507, 0x5898e048, 0x8e9a9202,
      0x00000600, 0xb131c0f0, 0x16263bc6, 0x4ebed41e, 0x626380a1, 0x16263806, 0x000018c0)
    ensures Rounds(m, h, 60) == State(0x3f52de5a, 0x09d785fd, 0x3498bfd4, 0xf211824f, 0xd79915ab)
    ensures Scheduled(m, 60,
      0xe2ba3c2b, 0x000060c0, 0x053a37cd, 0x74458547, 0xda9415ed, 0x26380a16, 0x626383a1, 0x4ebf54de, 0x3835b44b,
      0x0000f600, 0x1e84c7a3, 0x98e04d98, 0x651d16a0, 0x62658ca1, 0x458544d6, 0x44584cb7)
  {
    hide W, Rounds;
    Next(m, h, 40, 0xd2e138c4, 0xfc87dedf); Next(m, h, 41, 0x00000f00, 0x970a0d5c);
    Next(m, h, 42, 0x3afb5079, 0x7f193dc5); Next(m, h, 43, 0x898e04e5, 0xee1b1aaf);
    Next(m, h, 44, 0xe2ba3c2b, 0x40f28e09); Next(m, h, 45, 0x000060c0, 0x1c51e1f2);
    Next(m, h, 46, 0x053a37cd, 0xa01b846c); Next(m, h, 47, 0x74458547, 0xbead02ca);
    Next(m, h, 48, 0xda9415ed, 0xbaf39337); Next(m, h, 49, 0x26380a16, 0x120731c5);
    Next(m, h, 50, 0x626383a1, 0x641db2ce); Next(m, h, 51, 0x4ebf54de, 0x3847ad66);
    Next(m, h, 52, 0x3835b44b, 0xe490436d); Next(m, h, 53, 0x0000f600, 0x27e9f1d8);
    Next(m, h, 54, 0x1e84c7a3, 0x7b71f76d); Next(m, h, 55, 0x98e04d98, 0x5e6456af);
    Next(m, h, 56, 0x651d16a0, 0xc846093f); Next(m, h, 57, 0x62658ca1, 0xd262ff50);
    Next(m, h, 58, 0x458544d6, 0x09d785fd); Next(m, h, 59, 0x44584cb7, 0x3f52de5a);
  }

  lemma Abc60(m: seq<bv32>, h: State)
    requires |m| == 16 && Rounds(m, h, 60) == State(0x3f52de5a, 0x09d785fd, 0x3498bfd4, 0xf211824f, 0xd79915ab)
    requires Scheduled(m, 60,
      0xe2ba3c2b, 0x000060c0, 0x053a37cd, 0x74458547, 0xda9415ed, 0x26380a16, 0x626383a1, 0x4ebf54de, 0x3835b44b,
      0x0000f600, 0x1e84c7a3, 0x98e04d98, 0x651d16a0, 0x62658ca1, 0x458544d6, 0x44584cb7)
    ensures Rounds(m, h, 80) == State(0x42541b35, 0x5738d5e1, 0x21834873, 0x681e6df6, 0xd8fdf6ad)
    ensures Scheduled(m, 80,
      0x7cd45c9d, 0x000f0000, 0xfb50753a, 0xec6765e8, 0xba3c2be2, 0x0060c000, 0x3a37cd05, 0x458546f4, 0xb8599dd6,
      0x380a1a26, 0x01e02203, 0xe7cc3456, 0xe6e60b69, 0x00f60a00, 0x5795ef4f, 0x822e0879)
  {
    hide W, Rounds;
    Next(m, h, 60, 0x7ba06619, 0xd756c147); Next(m, h, 61, 0x6380aea2, 0x548c9cb2);
    Next(m, h, 62, 0x0ae55269, 0xb66c020b); Next(m, h, 63, 0x627b49a1, 0x6b61c9e1);
    Next(m, h, 64, 0x7cd45c9d, 0x19dfa7ac); Next(m, h, 65, 0x000f0000, 0x101655f9);
    Next(m, h, 66, 0xfb50753a, 0x0c3df2b4); Next(m, h, 67, 0xec6765e8, 0x78dd4d2b);
    Next(m, h, 68, 0xba3c2be2, 0x497093c0); Next(m, h, 69, 0x0060c000, 0x3f2588c2);
    Next(m, h, 70, 0x3a37cd05, 0xc199f8c7); Next(m, h, 71, 0x458546f4, 0x39859de7);
    Next(m, h, 72, 0xb8599dd6, 0xedb42de4); Next(m, h, 73, 0x380a1a26, 0x11793f6f);
    Next(m, h, 74, 0x01e02203, 0x5ee76897); Next(m, h, 75, 0xe7cc3456, 0x63f7dab7);
    Next(m, h, 76, 0xe6e60b69, 0xa079b7d9); Next(m, h, 77, 0x00f60a00, 0x860d21cc);
    Next(m, h, 78, 0x5795ef4f, 0x5738d5e1); Next(m, h, 79, 0x822e0879, 0x42541b35);
  }

  /** The first block of the long message, rounds 0 to 19. */
  lemma First00(m: seq<bv32>, h: State)
    requires |m| == 16 && Rounds(m, h, 0) == State(0x67452301, 0xefcdab89, 0x98badcfe, 0x10325476, 0xc3d2e1f0)
    requires Scheduled(m, 16,
      0x61626364, 0x62636465, 0x63646566, 0x64656667, 0x65666768, 0x66676869, 0x6768696a, 0x68696a6b, 0x696a6b6c,
      0x6a6b6c6d, 0x6b6c6d6e, 0x6c6d6e6f, 0x6d6e6f70, 0x6e6f7071, 0x80000000, 0x00000000)
    ensures Rounds(m, h, 20) == State(0x6c445652, 0x944b1bd1, 0x509ae70d, 0x1ac1a012, 0x5098df8e)
    ensures Scheduled(m, 20,
      0x65666768, 0x66676869, 0x6768696a, 0x68696a6b, 0x696a6b6c, 0x6a6b6c6d, 0x6b6c6d6e, 0x6c6d6e6f, 0x6d6e6f70,
      0x6e6f7071, 0x80000000, 0x00000000, 0x0a063a3e, 0xd8dadcdf, 0xdadcdec0, 0xc8d2b4be)
  {
    hide W, Rounds;
    Next(m, h, 0, 0x61626364, 0x0116fc17); Next(m, h, 1, 0x62636465, 0xebf3b452);
    Next(m, h, 2, 0x63646566, 0x5109913a); Next(m, h, 3, 0x64656667, 0x2c4f6eac);
    Next(m, h, 4, 0x65666768, 0x33f4ae5b); Next(m, h, 5, 0x66676869, 0x96b85189);
    Next(m, h, 6, 0x6768696a, 0xdb04cb58); Next(m, h, 7, 0x68696a6b, 0x45833f0f);
    Next(m, h, 8, 0x696a6b6c, 0xc565c35e); Next(m, h, 9, 0x6a6b6c6d, 0x6350afda);
    Next(m, h, 10, 0x6b6c6d6e, 0x8993ea77); Next(m, h, 11, 0x6c6d6e6f, 0xe19ecaa2);
    Next(m, h, 12, 0x6d6e6f70, 0x8603481e); Next(m, h, 13, 0x6e6f7071, 0x32f94a85);
    Next(m, h, 14, 0x80000000, 0xb2e7a8be); Next(m, h, 15, 0x00000000, 0x42637e39);
    Next(m, h, 16, 0x0a063a3e, 0x6b068048); Next(m, h, 17, 0xd8dadcdf, 0x426b9c35);
    Next(m, h, 18, 0xdadcdec0, 0x944b1bd1); Next(m, h, 19, 0xc8d2b4be, 0x6c445652);
  }

  lemma First20(m: seq<bv32>, h: State)
    requires |m| == 16 && Rounds(m, h, 20) == State(0x6c445652, 0x944b1bd1, 0x509ae70d, 0x1ac1a012, 0x5098df8e)
    requires Scheduled(m, 20,
      0x65666768, 0x66676869, 0x6768696a, 0x68696a6b, 0x696a6b6c, 0x6a6b6c6d, 0x6b6c6d6e, 0x6c6d6e6f, 0x6d6e6f70,
      0x6e6f7071, 0x80000000, 0x00000000, 0x0a063a3e, 0xd8dadcdf, 0xdadcdec0, 0xc8d2b4be)
    ensures Rounds(m, h, 40) == State(0xadeb7478, 0x24957f22, 0x50fe1eba, 0x564cff26, 0xaadf0cbb)
    ensures Scheduled(m, 40,
      0xfaf6cab6, 0xa6fb675a, 0x0c604cc8, 0x604cc02c, 0x49c0e6e2, 0x2ee8cbbc, 0xcfd72ec4, 0x97e9810e, 0x0989cbe8,
      0xf24843fe, 0x5c40d0ba, 0xa8d9cc3b, 0xb2b9666e, 0xba7b71b7, 0x20b28a72, 0xb28af500)
  {
    hide W, Rounds;
    Next(m, h, 20, 0x6f757b5b, 0x95836da5); Next(m, h, 21, 0x757b5967, 0x09511177);
    Next(m, h, 22, 0x8da16d70, 0xe2b92dc4); Next(m, h, 23, 0xdaeefaba, 0xfd224575);
    Next(m, h, 24, 0xfaf6cab6, 0xeeb82d9a); Next(m, h, 25, 0xa6fb675a, 0x5a142c1a);
    Next(m, h, 26, 0x0c604cc8, 0x2972f7c7); Next(m, h, 27, 0x604cc02c, 0xd526a644);
    Next(m, h, 28, 0x49c0e6e2, 0xe1122421); Next(m, h, 29, 0x2ee8cbbc, 0x05b457b2);
    Next(m, h, 30, 0xcfd72ec4, 0xa9c84bec); Next(m, h, 31, 0x97e9810e, 0x52e31f60);
    Next(m, h, 32, 0x0989cbe8, 0x5af3242c); Next(m, h, 33, 0xf24843fe, 0x31c756a9);
    Next(m, h, 34, 0x5c40d0ba, 0xe9ac987c); Next(m, h, 35, 0xa8d9cc3b, 0xab7c32ee);
    Next(m, h, 36, 0xb2b9666e, 0x5933fc99); Next(m, h, 37, 0xba7b71b7, 0x43f87ae9);
    Next(m, h, 38, 0x20b28a72, 0x24957f22); Next(m, h, 39, 0xb28af500, 0xadeb7478);
  }

  lemma First40(m: seq<bv32>, h: State)
    requires |m| == 16 && Rounds(m, h, 40) == State(0xadeb7478, 0x24957f22, 0x50fe1eba, 0x564cff26, 0xaadf0cbb)
    requires Scheduled(m, 40,
      0xfaf6cab6, 0xa6fb675a, 0x0c604cc8, 0x604cc02c, 0x49c0e6e2, 0x2ee8cbbc, 0xcfd72ec4, 0x97e9810e, 0x0989cbe8,
      0xf24843fe, 0x5c40d0ba, 0xa8d9cc3b, 0xb2b9666e, 0xba7b71b7, 0x20b28a72, 0xb28af500)
    ensures Rounds(m, h, 60) == State(0x9ef775c3, 0xf03d3782, 0xeb029e53, 0xe9a06dc8, 0x1ddb0e44)
    ensures Scheduled(m, 60,
      0x3868e778, 0xab5e4848, 0x7f0e2118, 0xde87a111, 0xe8be56b0, 0x1a0ae652, 0xcd5611c8, 0x46ef29dc, 0x60d3da6d,
      0xddf3ba6e, 0x2737f5e9, 0x4888a710, 0xd2a1177b, 0x9999633b, 0xd6c69d03, 0xccf6127b)
  {
    hide W, Rounds;
    Next(m, h, 40, 0x8ac87842, 0xd70e5010); Next(m, h, 41, 0x289addf4, 0x79bcfb08);
    Next(m, h, 42, 0x56d51f21, 0xf9bcb8de); Next(m, h, 43, 0xd96b7fd2, 0x633e9561);
    Next(m, h, 44, 0x3868e778, 0x98c1ea64); Next(m, h, 45, 0xab5e4848, 0xc6ea241e);
    Next(m, h, 46, 0x7f0e2118, 0xa2ad4f02); Next(m, h, 47, 0xde87a111, 0xc8a69090);
    Next(m, h, 48, 0xe8be56b0, 0x88341600); Next(m, h, 49, 0x1a0ae652, 0x7e846f58);
    Next(m, h, 50, 0xcd5611c8, 0x86e358ba); Next(m, h, 51, 0x46ef29dc, 0x8d2e76c8);
    Next(m, h, 52, 0x60d3da6d, 0xce892e10); Next(m, h, 53, 0xddf3ba6e, 0xedea95b1);
    Next(m, h, 54, 0x2737f5e9, 0x36d1230a); Next(m, h, 55, 0x4888a710, 0x776c3910);
    Next(m, h, 56, 0xd2a1177b, 0xa681b723); Next(m, h, 57, 0x9999633b, 0xac0a794f);
    Next(m, h, 58, 0xd6c69d03, 0xf03d3782); Next(m, h, 59, 0xccf6127b, 0x9ef775c3);
  }

  lemma First60(m: seq<bv32>, h: State)
    requires |m| == 16 && Rounds(m, h, 60) == State(0x9ef775c3, 0xf03d3782, 0xeb029e53, 0xe9a06dc8, 0x1ddb0e44)
    requires Scheduled(m, 60,
      0x3868e778, 0xab5e4848, 0x7f0e2118, 0xde87a111, 0xe8be56b0, 0x1a0ae652, 0xcd5611c8, 0x46ef29dc, 0x60d3da6d,
      0xddf3ba6e, 0x2737f5e9, 0x4888a710, 0xd2a1177b, 0x9999633b, 0xd6c69d03, 0xccf6127b)
    ensures Rounds(m, h, 80) == State(0x8ce34517, 0xd3ad7c25, 0x6b4e1883, 0x74351cd2, 0x86838382)
    ensures Scheduled(m, 80,
      0x152198d6, 0x7b3f1982, 0x37f2d5b7, 0x8596323e, 0x810790d6, 0xbea0a942, 0x11c7e1b1, 0x6158d101, 0x5fcd77d9,
      0x7f2f12e6, 0xf868cfb1, 0xd6e997e9, 0xf526b852, 0xb7578dcc, 0x55d99df4, 0x1ff69958)
  {
    hide W, Rounds;
    Next(m, h, 60, 0x7c58fe6d, 0x36254b13); Next(m, h, 61, 0xfdd99c68, 0x4080d4dc);
    Next(m, h, 62, 0xf8e32074, 0x2bfaf7a8); Next(m, h, 63, 0xe0ba3c7d, 0x513f9ca0);
    Next(m, h, 64, 0x152198d6, 0xe5895c81); Next(m, h, 65, 0x7b3f1982, 0x1037d2d5);
    Next(m, h, 66, 0x37f2d5b7, 0x14a82da9); Next(m, h, 67, 0x8596323e, 0x6d17c9fd);
    Next(m, h, 68, 0x810790d6, 0x2c7b07bd); Next(m, h, 69, 0xbea0a942, 0xfdf6efff);
    Next(m, h, 70, 0x11c7e1b1, 0x112b96e3); Next(m, h, 71, 0x6158d101, 0x84065712);
    Next(m, h, 72, 0x5fcd77d9, 0xab89fb71); Next(m, h, 73, 0x7f2f12e6, 0xc5210e35);
    Next(m, h, 74, 0xf868cfb1, 0x352d9f4b); Next(m, h, 75, 0xd6e997e9, 0x1a0e0e0a);
    Next(m, h, 76, 0xf526b852, 0xd0d47349); Next(m, h, 77, 0xb7578dcc, 0xad38620d);
    Next(m, h, 78, 0x55d99df4, 0xd3ad7c25); Next(m, h, 79, 0x1ff69958, 0x8ce34517);
  }

  /** Its second block, rounds 0 to 19. */
  lemma Second00(m: seq<bv32>, h: State)
    requires |m| == 16 && Rounds(m, h, 0) == State(0xf4286818, 0xc37b27ae, 0x0408f581, 0x84677148, 0x4a566572)
    requires Scheduled(m, 16,
      0x00000000, 0x00000000, 0x00000000, 0x00000000, 0x00000000, 0x00000000, 0x00000000, 0x00000000, 0x00000000,
      0x00000000, 0x00000000, 0x00000000, 0x00000000, 0x00000000, 0x00000000, 0x000001c0)
    ensures Rounds(m, h, 20) == State(0xd8992153, 0xc2eb709f, 0x2946d62f, 0x9541f6db, 0x365dc8d8)
    ensures Scheduled(m, 20,
      0x00000000, 0x00000000, 0x00000000, 0x00000000, 0x00000000, 0x00000000, 0x00000000, 0x00000000, 0x00000000,
      0x00000000, 0x00000000, 0x000001c0, 0x00000000, 0x00000000, 0x00000380, 0x00000000)
  {
    hide W, Rounds;
    Next(m, h, 0, 0x00000000, 0x2df257e9); Next(m, h, 1, 0x00000000, 0x4d3dc58f);
    Next(m, h, 2, 0x00000000, 0xc352bb05); Next(m, h, 3, 0x00000000, 0xeef743c6);
    Next(m, h, 4, 0x00000000, 0x41e34277); Next(m, h, 5, 0x00000000, 0x5443915c);
    Next(m, h, 6, 0x00000000, 0xe7fa0377); Next(m, h, 7, 0x00000000, 0xc6946813);
    Next(m, h, 8, 0x00000000, 0xfdde1de1); Next(m, h, 9, 0x00000000, 0xb8538aca);
    Next(m, h, 10, 0x00000000, 0x6ba94f63); Next(m, h, 11, 0x00000000, 0x43a2792f);
    Next(m, h, 12, 0x00000000, 0xfecd7bbf); Next(m, h, 13, 0x00000000, 0xa2604ca8);
    Next(m, h, 14, 0x00000000, 0x258b0baa); Next(m, h, 15, 0x000001c0, 0xd9772360);
    Next(m, h, 16, 0x00000000, 0x5507db6e); Next(m, h, 17, 0x00000000, 0xa51b58bc);
    Next(m, h, 18, 0x00000380, 0xc2eb709f); Next(m, h, 19, 0x00000000, 0xd8992153);
  }

  lemma Second20(m: seq<bv32>, h: State)
    requires |m| == 16 && Rounds(m, h, 20) == State(0xd8992153, 0xc2eb709f, 0x2946d62f, 0x9541f6db, 0x365dc8d8)
    requires Scheduled(m, 20,
      0x00000000, 0x00000000, 0x00000000, 0x00000000, 0x00000000, 0x00000000, 0x00000000, 0x00000000, 0x00000000,
      0x00000000, 0x00000000, 0x000001c0, 0x00000000, 0x00000000, 0x00000380, 0x00000000)
    ensures Rounds(m, h, 40) == State(0x03bb6310, 0x84e2a5f2, 0x21f56e03, 0xb3bd6b84, 0x1a5b6901)
    ensures Scheduled(m, 40,
      0x00000e00, 0x00000000, 0x00000000, 0x00001c00, 0x00000000, 0x00000d80, 0x00003800, 0x00000480, 0x00000000,
      0x00007000, 0x00000e00, 0x00003600, 0x0000e000, 0x00000e00, 0x00000000, 0x0001ce00)
  {
    hide W, Rounds;
    Next(m, h, 20, 0x00000000, 0x37482f5f); Next(m, h, 21, 0x00000700, 0xee8700bd);
    Next(m, h, 22, 0x00000000, 0x9ad594b9); Next(m, h, 23, 0x00000380, 0x8fbaa5b9);
    Next(m, h, 24, 0x00000e00, 0x88fb5867); Next(m, h, 25, 0x00000000, 0xeec50521);
    Next(m, h, 26, 0x00000000, 0x50bce434); Next(m, h, 27, 0x00001c00, 0x5c416daf);
    Next(m, h, 28, 0x00000000, 0x2429be5f); Next(m, h, 29, 0x00000d80, 0x0a2fb108);
    Next(m, h, 30, 0x00003800, 0x17986223); Next(m, h, 31, 0x00000480, 0x8a4af384);
    Next(m, h, 32, 0x00000000, 0x6b629993); Next(m, h, 33, 0x00007000, 0xf15f04f3);
    Next(m, h, 34, 0x00000e00, 0x295cc25b); Next(m, h, 35, 0x00003600, 0x696da404);
    Next(m, h, 36, 0x0000e000, 0xcef5ae12); Next(m, h, 37, 0x00000e00, 0x87d5b80c);
    Next(m, h, 38, 0x00000000, 0x84e2a5f2); Next(m, h, 39, 0x0001ce00, 0x03bb6310);
  }

  lemma Second40(m: seq<bv32>, h: State)
    requires |m| == 16 && Rounds(m, h, 40) == State(0x03bb6310, 0x84e2a5f2, 0x21f56e03, 0xb3bd6b84, 0x1a5b6901)
    requires Scheduled(m, 40,
      0x00000e00, 0x00000000, 0x00000000, 0x00001c00, 0x00000000, 0x00000d80, 0x00003800, 0x00000480, 0x00000000,
      0x00007000, 0x00000e00, 0x00003600, 0x0000e000, 0x00000e00, 0x00000000, 0x0001ce00)
    ensures Rounds(m, h, 60) == State(0xa65818f7, 0x5b086c42, 0xb9e15956, 0xea1256a6, 0xdb69cb9f)
    ensures Scheduled(m, 60,
      0x00000000, 0x00070e00, 0x0000ee00, 0x00037500, 0x000e0000, 0x0000e000, 0x00003600, 0x001cee00, 0x00000000,
      0x000df000, 0x00380000, 0x0004c600, 0x0000e000, 0x0070ee00, 0x000ee000, 0x00369e00)
  {
    hide W, Rounds;
    Next(m, h, 40, 0x00000000, 0xc2d8f75f); Next(m, h, 41, 0x0000d800, 0xbfb25768);
    Next(m, h, 42, 0x00038000, 0x28589152); Next(m, h, 43, 0x00004f00, 0xec1d3d61);
    Next(m, h, 44, 0x00000000, 0x3caed7af); Next(m, h, 45, 0x00070e00, 0xc3d033ea);
    Next(m, h, 46, 0x0000ee00, 0x7316056a); Next(m, h, 47, 0x00037500, 0x46f93b68);
    Next(m, h, 48, 0x000e0000, 0xdc8e7f26); Next(m, h, 49, 0x0000e000, 0x850d411c);
    Next(m, h, 50, 0x00003600, 0x7e4672c0); Next(m, h, 51, 0x001cee00, 0x89fbd41d);
    Next(m, h, 52, 0x00000000, 0x1797e228); Next(m, h, 53, 0x000df000, 0x431d65bc);
    Next(m, h, 54, 0x00380000, 0x2bdbb8cb); Next(m, h, 55, 0x0004c600, 0x6da72e7f);
    Next(m, h, 56, 0x0000e000, 0xa8495a9b); Next(m, h, 57, 0x0070ee00, 0xe785655a);
    Next(m, h, 58, 0x000ee000, 0x5b086c42); Next(m, h, 59, 0x00369e00, 0xa65818f7);
  }

  lemma Second60(m: seq<bv32>, h: State)
    requires |m| == 16 && Rounds(m, h, 60) == State(0xa65818f7, 0x5b086c42, 0xb9e15956, 0xea1256a6, 0xdb69cb9f)
    requires Scheduled(m, 60,
      0x00000000, 0x00070e00, 0x0000ee00, 0x00037500, 0x000e0000, 0x0000e000, 0x00003600, 0x001cee00, 0x00000000,
      0x000df000, 0x00380000, 0x0004c600, 0x0000e000, 0x0070ee00, 0x000ee000, 0x00369e00)
    ensures Rounds(m, h, 80) == State(0x906fd62c, 0x58c0aac0, 0xb6a55520, 0x74e9b89d, 0x9af00b7f)
    ensures Scheduled(m, 80,
      0x00000000, 0x00d80000, 0x0380e000, 0x004f0000, 0x00000000, 0x070e0000, 0x00ee0000, 0x03751c00, 0x0e000000,
      0x00e0e000, 0x00363800, 0x1cee9000, 0x00000000, 0x0df09000, 0x3800e000, 0x04c77400)
  {
    hide W, Rounds;
    Next(m, h, 60, 0x00e00000, 0x7aab101b); Next(m, h, 61, 0x000ed600, 0x93614c9c);
    Next(m, h, 62, 0x0000e000, 0xf66d9bf4); Next(m, h, 63, 0x01cea600, 0xd504902b);
    Next(m, h, 64, 0x00000000, 0x60a9da62); Next(m, h, 65, 0x00d80000, 0x8b687819);
    Next(m, h, 66, 0x0380e000, 0x083e90c3); Next(m, h, 67, 0x004f0000, 0xf6226bbf);
    Next(m, h, 68, 0x00000000, 0x76c0563b); Next(m, h, 69, 0x070e0000, 0x989dd165);
    Next(m, h, 70, 0x00ee0000, 0x8b2c7573); Next(m, h, 71, 0x03751c00, 0xae1b8e7b);
    Next(m, h, 72, 0x0e000000, 0xca1840de); Next(m, h, 73, 0x00e0e000, 0x16f3babb);
    Next(m, h, 74, 0x00363800, 0xd28d83ad); Next(m, h, 75, 0x1cee9000, 0x6bc02dfe);
    Next(m, h, 76, 0x00000000, 0xd3a6e275); Next(m, h, 77, 0x0df09000, 0xda955482);
    Next(m, h, 78, 0x3800e000, 0x58c0aac0); Next(m, h, 79, 0x04c77400, 0x906fd62c);
  }

  // ----- the digests -----

  /** The words of a block of bytes. */
  lemma BlockWords(p: seq<bv8>, w0: bv32, w1: bv32, w2: bv32, w3: bv32, w4: bv32, w5: bv32, w6: bv32, w7: bv32,
                   w8: bv32, w9: bv32, w10: bv32, w11: bv32, w12: bv32, w13: bv32, w14: bv32, w15: bv32)
    requires |p| == 64
    requires WordOf(p[0], p[1], p[2], p[3]) == w0 && WordOf(p[4], p[5], p[6], p[7]) == w1
    requires WordOf(p[8], p[9], p[10], p[11]) == w2 && WordOf(p[12], p[13], p[14], p[15]) == w3
    requires WordOf(p[16], p[17], p[18], p[19]) == w4 && WordOf(p[20], p[21], p[22], p[23]) == w5
    requires WordOf(p[24], p[25], p[26], p[27]) == w6 && WordOf(p[28], p[29], p[30], p[31]) == w7
    requires WordOf(p[32], p[33], p[34], p[35]) == w8 && WordOf(p[36], p[37], p[38], p[39]) == w9
    requires WordOf(p[40], p[41], p[42], p[43]) == w10 && WordOf(p[44], p[45], p[46], p[47]) == w11
    requires WordOf(p[48], p[49], p[50], p[51]) == w12 && WordOf(p[52], p[53], p[54], p[55]) == w13
    requires WordOf(p[56], p[57], p[58], p[59]) == w14 && WordOf(p[60], p[61], p[62], p[63]) == w15
    ensures Scheduled(WordsOf(p), 16, w0, w1, w2, w3, w4, w5, w6, w7, w8, w9, w10, w11, w12, w13, w14, w15)
  {
    hide WordOf;
  }

  lemma Start(m: seq<bv32>, h: State)
    requires |m| == 16
    ensures Rounds(m, h, 0) == h
  {}

  lemma {:induction false} ZeroBytes(k: nat)
    ensures BigEndian(0, k) == Zeros(k)
  {
    if k > 0 {
      ZeroBytes(k - 1);
    }
  }

  lemma LengthOfAbc()
    ensures BigEndian(24, 8) == Zeros(7) + [0x18]
  {
    hide BigEndian, Zeros;
    ZeroBytes(7);
    LastByte(24, 7);
  }

  lemma LengthOfLong()
    ensures BigEndian(448, 8) == Zeros(6) + [0x01, 0xc0]
  {
    hide BigEndian, Zeros;
    ZeroBytes(6);
    LastByte(448, 7);
    LastByte(1, 6);
  }

  /** "abcdbcdecdef...nopq" */
  ghost predicate IsLong(s: seq<bv8>) {
    && |s| == 56
    && s[0] == 0x61 && s[1] == 0x62 && s[2] == 0x63 && s[3] == 0x64 && s[4] == 0x62 && s[5] == 0x63 && s[6] == 0x64
    && s[7] == 0x65 && s[8] == 0x63 && s[9] == 0x64 && s[10] == 0x65 && s[11] == 0x66 && s[12] == 0x64 && s[13] == 0x65
    && s[14] == 0x66 && s[15] == 0x67 && s[16] == 0x65 && s[17] == 0x66 && s[18] == 0x67 && s[19] == 0x68 && s[20] == 0x66
    && s[21] == 0x67 && s[22] == 0x68 && s[23] == 0x69 && s[24] == 0x67 && s[25] == 0x68 && s[26] == 0x69 && s[27] == 0x6a
    && s[28] == 0x68 && s[29] == 0x69 && s[30] == 0x6a && s[31] == 0x6b && s[32] == 0x69 && s[33] == 0x6a && s[34] == 0x6b
    && s[35] == 0x6c && s[36] == 0x6a && s[37] == 0x6b && s[38] == 0x6c && s[39] == 0x6d && s[40] == 0x6b && s[41] == 0x6c
    && s[42] == 0x6d && s[43] == 0x6e && s[44] == 0x6c && s[45] == 0x6d && s[46] == 0x6e && s[47] == 0x6f && s[48] == 0x6d
    && s[49] == 0x6e && s[50] == 0x6f && s[51] == 0x70 && s[52] == 0x6e && s[53] == 0x6f && s[54] == 0x70 && s[55] == 0x71
  }

  /** "abc", padded. */
  lemma AbcBlock(p: seq<bv8>)
    requires |p| == 64 && p[0] == 0x61 && p[1] == 0x62 && p[2] == 0x63 && p[3] == 0x80 && p[63] == 0x18 && forall i :: 4 <= i < 63 ==> p[i] == 0
    ensures Compress(State(0x67452301, 0xefcdab89, 0x98badcfe, 0x10325476, 0xc3d2e1f0), WordsOf(p))
      == State(0xa9993e36, 0x4706816a, 0xba3e2571, 0x7850c26c, 0x9cd0d89d)
  {
    hide W, Rounds, WordsOf, WordOf;
    var h := State(0x67452301, 0xefcdab89, 0x98badcfe, 0x10325476, 0xc3d2e1f0);
    AbcWords(p);
    var m := WordsOf(p);
    Start(m, h);
    Abc00(m, h);
    Abc20(m, h);
    Abc40(m, h);
    Abc60(m, h);
  }

  lemma AbcWords(p: seq<bv8>)
    requires |p| == 64 && p[0] == 0x61 && p[1] == 0x62 && p[2] == 0x63 && p[3] == 0x80 && p[63] == 0x18 && forall i :: 4 <= i < 63 ==> p[i] == 0
    ensures Scheduled(WordsOf(p), 16,
      0x61626380, 0x00000000, 0x00000000, 0x00000000, 0x00000000, 0x00000000, 0x00000000, 0x00000000, 0x00000000,
      0x00000000, 0x00000000, 0x00000000, 0x00000000, 0x00000000, 0x00000000, 0x00000018)
  {
    hide W, WordsOf, Scheduled;
    BlockWords(p,
      0x61626380, 0x00000000, 0x00000000, 0x00000000, 0x00000000, 0x00000000, 0x00000000, 0x00000000, 0x00000000,
      0x00000000, 0x00000000, 0x00000000, 0x00000000, 0x00000000, 0x00000000, 0x00000018);
  }

  /** The first block of the long message. */
  lemma FirstBlock(p: seq<bv8>)
    requires |p| == 64 && IsLong(p[..56]) && p[56] == 0x80 && forall i :: 57 <= i < 64 ==> p[i] == 0
    ensures Compress(State(0x67452301, 0xefcdab89, 0x98badcfe, 0x10325476, 0xc3d2e1f0), WordsOf(p))
      == State(0xf4286818, 0xc37b27ae, 0x0408f581, 0x84677148, 0x4a566572)
  {
    hide W, Rounds, WordsOf, WordOf;
    var h := State(0x67452301, 0xefcdab89, 0x98badcfe, 0x10325476, 0xc3d2e1f0);
    FirstWords(p);
    var m := WordsOf(p);
    Start(m, h);
    First00(m, h);
    First20(m, h);
    First40(m, h);
    First60(m, h);
  }

  lemma FirstWords(p: seq<bv8>)
    requires |p| == 64 && IsLong(p[..56]) && p[56] == 0x80 && forall i :: 57 <= i < 64 ==> p[i] == 0
    ensures Scheduled(WordsOf(p), 16,
      0x61626364, 0x62636465, 0x63646566, 0x64656667, 0x65666768, 0x66676869, 0x6768696a, 0x68696a6b, 0x696a6b6c,
      0x6a6b6c6d, 0x6b6c6d6e, 0x6c6d6e6f, 0x6d6e6f70, 0x6e6f7071, 0x80000000, 0x00000000)
  {
    hide W, WordsOf, Scheduled;
    BlockWords(p,
      0x61626364, 0x62636465, 0x63646566, 0x64656667, 0x65666768, 0x66676869, 0x6768696a, 0x68696a6b, 0x696a6b6c,
      0x6a6b6c6d, 0x6b6c6d6e, 0x6c6d6e6f, 0x6d6e6f70, 0x6e6f7071, 0x80000000, 0x00000000);
  }

  /** Its second block. */
  lemma SecondBlock(p: seq<bv8>)
    requires |p| == 64 && p[62] == 0x01 && p[63] == 0xc0 && forall i :: 0 <= i < 62 ==> p[i] == 0
    ensures Compress(State(0xf4286818, 0xc37b27ae, 0x0408f581, 0x84677148, 0x4a566572), WordsOf(p))
      == State(0x84983e44, 0x1c3bd26e, 0xbaae4aa1, 0xf95129e5, 0xe54670f1)
  {
    hide W, Rounds, WordsOf, WordOf;
    var h := State(0xf4286818, 0xc37b27ae, 0x0408f581, 0x84677148, 0x4a566572);
    SecondWords(p);
    var m := WordsOf(p);
    Start(m, h);
    Second00(m, h);
    Second20(m, h);
    Second40(m, h);
    Second60(m, h);
  }

  lemma SecondWords(p: seq<bv8>)
    requires |p| == 64 && p[62] == 0x01 && p[63] == 0xc0 && forall i :: 0 <= i < 62 ==> p[i] == 0
    ensures Scheduled(WordsOf(p), 16,
      0x00000000, 0x00000000, 0x00000000, 0x00000000, 0x00000000, 0x00000000, 0x00000000, 0x00000000, 0x00000000,
      0x00000000, 0x00000000, 0x00000000, 0x00000000, 0x00000000, 0x00000000, 0x000001c0)
  {
    hide W, WordsOf, Scheduled;
    BlockWords(p,
      0x00000000, 0x00000000, 0x00000000, 0x00000000, 0x00000000, 0x00000000, 0x00000000, 0x00000000, 0x00000000,
      0x00000000, 0x00000000, 0x00000000, 0x00000000, 0x00000000, 0x00000000, 0x000001c0);
  }

  lemma AbsorbOne(h: State, p: seq<bv8>)
    requires |p| == 64
    ensures Absorb(h, p) == Compress(h, WordsOf(p))
  {
    hide Compress, WordsOf;
    assert p[..64] == p;
  }

  lemma AbcBytes()
    ensures StateBytes(State(0xa9993e36, 0x4706816a, 0xba3e2571, 0x7850c26c, 0x9cd0d89d)) ==
      [
        0xa9, 0x99, 0x3e, 0x36, 0x47, 0x06, 0x81, 0x6a, 0xba, 0x3e, 0x25, 0x71, 0x78, 0x50, 0xc2, 0x6c, 0x9c, 0xd0,
        0xd8, 0x9d
      ]
  {}

  lemma LongBytes()
    ensures StateBytes(State(0x84983e44, 0x1c3bd26e, 0xbaae4aa1, 0xf95129e5, 0xe54670f1)) ==
      [
        0x84, 0x98, 0x3e, 0x44, 0x1c, 0x3b, 0xd2, 0x6e, 0xba, 0xae, 0x4a, 0xa1, 0xf9, 0x51, 0x29, 0xe5, 0xe5, 0x46,
        0x70, 0xf1
      ]
  {}

  /** The digest of "abc". */
  lemma DigestOfAbc()
    ensures Digest([0x61, 0x62, 0x63]) ==
      [
        0xa9, 0x99, 0x3e, 0x36, 0x47, 0x06, 0x81, 0x6a, 0xba, 0x3e, 0x25, 0x71, 0x78, 0x50, 0xc2, 0x6c, 0x9c, 0xd0,
        0xd8, 0x9d
      ]
  {
    hide Compress, WordsOf, Absorb, StateBytes, BigEndian;
    var s: seq<bv8> := [0x61, 0x62, 0x63];
    var p := s + Padding(3);
    LengthOfAbc();
    AbcBlock(p);
    AbsorbOne(INITIAL, p);
    AbcBytes();
  }

  /** The digest of the long message. */
  lemma DigestOfLong(s: seq<bv8>)
    requires IsLong(s)
    ensures Digest(s) ==
      [
        0x84, 0x98, 0x3e, 0x44, 0x1c, 0x3b, 0xd2, 0x6e, 0xba, 0xae, 0x4a, 0xa1, 0xf9, 0x51, 0x29, 0xe5, 0xe5, 0x46,
        0x70, 0xf1
      ]
  {
    hide Compress, WordsOf, Absorb, StateBytes, BigEndian;
    LengthOfLong();
    var first, second := s + [0x80] + Zeros(7), Zeros(62) + [0x01, 0xc0];
    assert Padding(56) == [0x80] + Zeros(63) + BigEndian(448, 8);
    assert s + Padding(56) == first + second;
    assert first[..56] == s;
    FirstBlock(first);
    SecondBlock(second);
    AbsorbOne(INITIAL, first);
    AbsorbOne(Compress(INITIAL, WordsOf(first)), second);
    AbsorbConcat(INITIAL, first, second);
    LongBytes();
  }
}
