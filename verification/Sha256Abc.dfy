/** SHA-256 of "abc", word by word and round by round, against the value in FIPS 180-4. */
module Sha256Abc {
  import opened BigNum
  import opened Bytes
  import opened Sha256
  import opened ShaStream
  import opened ShaPadding

  function Start(): (v: Vars) {
    Vars(0x6a09e667, 0xbb67ae85, 0x3c6ef372, 0xa54ff53a, 0x510e527f, 0x9b05688c, 0x1f83d9ab, 0x5be0cd19)
  }

  // ----- the functions of section 4.1.2 on bits, without numbers in between -----

  function Big0(x: bv32): (r: bv32) {
    ((x >> 2) | (x << 30)) ^ ((x >> 13) | (x << 19)) ^ ((x >> 22) | (x << 10))
  }

  function Big1(x: bv32): (r: bv32) {
    ((x >> 6) | (x << 26)) ^ ((x >> 11) | (x << 21)) ^ ((x >> 25) | (x << 7))
  }

  function Small0(x: bv32): (r: bv32) {
    ((x >> 7) | (x << 25)) ^ ((x >> 18) | (x << 14)) ^ (x >> 3)
  }

  function Small1(x: bv32): (r: bv32) {
    ((x >> 17) | (x << 15)) ^ ((x >> 19) | (x << 13)) ^ (x >> 10)
  }

  lemma BitsBack(x: bv32)
    ensures ToBits(x as int) == x
  {
  }

  lemma Big0Is(x: bv32)
    ensures BigSigma0(x as int) == Big0(x) as int
  {
    hide Big0, BigSigma0, ToBits, Ror, Xor3;
    BitsBack(x);
    Big0Of(x as int, x);
    Big0Bits(x);
  }

  lemma Big0Of(w: Word, x: bv32)
    requires ToBits(w) == x
    ensures BigSigma0(w) == Xor3(Ror(x, 2), Ror(x, 13), Ror(x, 22)) as int
  {
    hide ToBits, Ror, Xor3;
  }

  lemma Big0Bits(x: bv32)
    ensures Big0(x) == Xor3(Ror(x, 2), Ror(x, 13), Ror(x, 22))
  {
    assert Ror(x, 2) == (x >> 2) | (x << 30);
    assert Ror(x, 13) == (x >> 13) | (x << 19);
    assert Ror(x, 22) == (x >> 22) | (x << 10);
  }

  lemma Big1Is(x: bv32)
    ensures BigSigma1(x as int) == Big1(x) as int
  {
    hide Big1, BigSigma1, ToBits, Ror, Xor3;
    BitsBack(x);
    Big1Of(x as int, x);
    Big1Bits(x);
  }

  lemma Big1Of(w: Word, x: bv32)
    requires ToBits(w) == x
    ensures BigSigma1(w) == Xor3(Ror(x, 6), Ror(x, 11), Ror(x, 25)) as int
  {
    hide ToBits, Ror, Xor3;
  }

  lemma Big1Bits(x: bv32)
    ensures Big1(x) == Xor3(Ror(x, 6), Ror(x, 11), Ror(x, 25))
  {
    assert Ror(x, 6) == (x >> 6) | (x << 26);
    assert Ror(x, 11) == (x >> 11) | (x << 21);
    assert Ror(x, 25) == (x >> 25) | (x << 7);
  }

  lemma Small0Is(x: bv32)
    ensures SmallSigma0(x as int) == Small0(x) as int
  {
    hide Small0, SmallSigma0, ToBits, Ror, Xor3;
    BitsBack(x);
    Small0Of(x as int, x);
    Small0Bits(x);
  }

  lemma Small0Of(w: Word, x: bv32)
    requires ToBits(w) == x
    ensures SmallSigma0(w) == Xor3(Ror(x, 7), Ror(x, 18), x >> 3) as int
  {
    hide ToBits, Ror, Xor3;
  }

  lemma Small0Bits(x: bv32)
    ensures Small0(x) == Xor3(Ror(x, 7), Ror(x, 18), x >> 3)
  {
    assert Ror(x, 7) == (x >> 7) | (x << 25);
    assert Ror(x, 18) == (x >> 18) | (x << 14);
  }

  lemma Small1Is(x: bv32)
    ensures SmallSigma1(x as int) == Small1(x) as int
  {
    hide Small1, SmallSigma1, ToBits, Ror, Xor3;
    BitsBack(x);
    Small1Of(x as int, x);
    Small1Bits(x);
  }

  lemma Small1Of(w: Word, x: bv32)
    requires ToBits(w) == x
    ensures SmallSigma1(w) == Xor3(Ror(x, 17), Ror(x, 19), x >> 10) as int
  {
    hide ToBits, Ror, Xor3;
  }

  lemma Small1Bits(x: bv32)
    ensures Small1(x) == Xor3(Ror(x, 17), Ror(x, 19), x >> 10)
  {
    assert Ror(x, 17) == (x >> 17) | (x << 15);
    assert Ror(x, 19) == (x >> 19) | (x << 13);
  }

  lemma ChIs(x: bv32, y: bv32, z: bv32)
    ensures Ch(x as int, y as int, z as int) == ChBits(x, y, z) as int
    ensures Maj(x as int, y as int, z as int) == MajBits(x, y, z) as int
  {
    hide ChBits, MajBits;
  }

  // ----- one step -----

  // One word of the schedule from the four it is made of.
  lemma NextWord(m: seq<Byte>, t: nat, w16: Word, w15: bv32, w7: Word, w2: bv32, s0: bv32, s1: bv32, r: Word)
    requires |m| == 64 && t >= 16 && Schedule(m, t - 16) == w16 && Schedule(m, t - 15) == w15 as int
    requires Schedule(m, t - 7) == w7 && Schedule(m, t - 2) == w2 as int
    requires Small0(w15) == s0 && Small1(w2) == s1 && r == (w16 as int + s0 as int + w7 + s1 as int) % 0x1_0000_0000
    ensures Schedule(m, t) == r
  {
    hide Schedule, SmallSigma0, SmallSigma1, Small0, Small1, Add;
    ScheduleNext(m, t);
    Small0Is(w15);
    Small1Is(w2);
    FourTerms(w16, s0 as int, w7, s1 as int);
  }

  lemma FourTerms(a: Word, b: Word, c: Word, d: Word)
    ensures Add(Add(Add(a, b), c), d) == (a as int + b + c + d) % 0x1_0000_0000
  {
    Fold(a as int + b, c);
    Fold(a as int + b + c, d);
  }

  lemma FiveTerms(a: Word, b: Word, c: Word, d: Word, e: Word)
    ensures Add(Add(Add(Add(a, b), c), d), e) == (a as int + b + c + d + e) % 0x1_0000_0000
  {
    FourTerms(a, b, c, d);
    Fold(a as int + b + c + d, e);
  }

  function Key(t: nat): (k: Word)
    requires t < 64
  {
    K[t]
  }

  // One round, with what its four functions give.
  lemma Next(v: Vars, m: seq<Byte>, t: nat, a: bv32, b: bv32, c: bv32, d: Word, e: bv32, f: bv32, g: bv32, h: Word, k: Word, w: Word,
             s1: bv32, ch: bv32, s0: bv32, mj: bv32, na: Word, ne: Word)
    requires |m| == 64 && t < 64 && Rounds(v, m, t) == Vars(a as int, b as int, c as int, d, e as int, f as int, g as int, h)
    requires Key(t) == k && Schedule(m, t) == w
    requires Big1(e) == s1 && ChBits(e, f, g) == ch && Big0(a) == s0 && MajBits(a, b, c) == mj
    requires na == (h as int + s1 as int + ch as int + k + w + s0 as int + mj as int) % 0x1_0000_0000
    requires ne == (d as int + h + s1 as int + ch as int + k + w) % 0x1_0000_0000
    ensures Rounds(v, m, t + 1) == Vars(na, a as int, b as int, c as int, ne, e as int, f as int, g as int)
  {
    hide Rounds, Schedule, BigSigma0, BigSigma1, Ch, Maj, Big0, Big1, ChBits, MajBits, Add;
    RoundsNext(v, m, t);
    Big1Is(e);
    ChIs(e, f, g);
    Big0Is(a);
    ChIs(a, b, c);
    RoundSum(h, s1 as int, ch as int, k, w, s0 as int, mj as int, d);
  }

  lemma RoundSum(h: Word, s1: Word, ch: Word, k: Word, w: Word, s0: Word, mj: Word, d: Word)
    ensures Add(Add(Add(Add(Add(h, s1), ch), k), w), Add(s0, mj)) == (h as int + s1 + ch + k + w + s0 + mj) % 0x1_0000_0000
    ensures Add(d, Add(Add(Add(Add(h, s1), ch), k), w)) == (d as int + h + s1 + ch + k + w) % 0x1_0000_0000
  {
    hide Add;
    FiveTerms(h, s1, ch, k, w);
    AddIs(s0, mj);
    var x := h as int + s1 + ch + k + w;
    AddIs(U32(x), Add(s0, mj));
    AddIs(d, U32(x));
    Fold(x, d);
    Fold(x, s0 as int + mj);
    Fold(s0 as int + mj, U32(x));
  }

  lemma AddIs(a: Word, b: Word)
    ensures Add(a, b) == U32(a as int + b)
  {
  }

  // ----- the trace -----

  lemma Words16(m: seq<Byte>)
    requires IsAbc(m)
    ensures Schedule(m, 16) == 0x61626380 && Schedule(m, 17) == 0x000f0000 && Schedule(m, 18) == 0x7da86405 && Schedule(m, 19) == 0x600003c6
    ensures Schedule(m, 20) == 0x3e9d7b78 && Schedule(m, 21) == 0x0183fc00 && Schedule(m, 22) == 0x12dcbfdb && Schedule(m, 23) == 0xe2e2c38e
    ensures Schedule(m, 24) == 0xc8215c1a && Schedule(m, 25) == 0xb73679a2 && Schedule(m, 26) == 0xe5bc3909 && Schedule(m, 27) == 0x32663c5b
    ensures Schedule(m, 28) == 0x9d209d67 && Schedule(m, 29) == 0xec8726cb && Schedule(m, 30) == 0x702138a4 && Schedule(m, 31) == 0xd3b7973b
    ensures Schedule(m, 32) == 0x93f5997f && Schedule(m, 33) == 0x3b68ba73 && Schedule(m, 34) == 0xaff4ffc1 && Schedule(m, 35) == 0xf10a5c62
    ensures Schedule(m, 36) == 0x0a8b3996 && Schedule(m, 37) == 0x72af830a && Schedule(m, 38) == 0x9409e33e && Schedule(m, 39) == 0x24641522
  {
    hide Schedule, IsAbc;
    FirstWords(m);
    NextWord(m, 16, 0x61626380, 0x00000000, 0x00000000, 0x00000000, 0x00000000, 0x00000000, 0x61626380);
    NextWord(m, 17, 0x00000000, 0x00000000, 0x00000000, 0x00000018, 0x00000000, 0x000f0000, 0x000f0000);
    NextWord(m, 18, 0x00000000, 0x00000000, 0x00000000, 0x61626380, 0x00000000, 0x7da86405, 0x7da86405);
    NextWord(m, 19, 0x00000000, 0x00000000, 0x00000000, 0x000f0000, 0x00000000, 0x600003c6, 0x600003c6);
    NextWord(m, 20, 0x00000000, 0x00000000, 0x00000000, 0x7da86405, 0x00000000, 0x3e9d7b78, 0x3e9d7b78);
    NextWord(m, 21, 0x00000000, 0x00000000, 0x00000000, 0x600003c6, 0x00000000, 0x0183fc00, 0x0183fc00);
    NextWord(m, 22, 0x00000000, 0x00000000, 0x00000018, 0x3e9d7b78, 0x00000000, 0x12dcbfc3, 0x12dcbfdb);
    NextWord(m, 23, 0x00000000, 0x00000000, 0x61626380, 0x0183fc00, 0x00000000, 0x8180600e, 0xe2e2c38e);
    NextWord(m, 24, 0x00000000, 0x00000000, 0x000f0000, 0x12dcbfdb, 0x00000000, 0xc8125c1a, 0xc8215c1a);
    NextWord(m, 25, 0x00000000, 0x00000000, 0x7da86405, 0xe2e2c38e, 0x00000000, 0x398e159d, 0xb73679a2);
    NextWord(m, 26, 0x00000000, 0x00000000, 0x600003c6, 0xc8215c1a, 0x00000000, 0x85bc3543, 0xe5bc3909);
    NextWord(m, 27, 0x00000000, 0x00000000, 0x3e9d7b78, 0xb73679a2, 0x00000000, 0xf3c8c0e3, 0x32663c5b);
    NextWord(m, 28, 0x00000000, 0x00000000, 0x0183fc00, 0xe5bc3909, 0x00000000, 0x9b9ca167, 0x9d209d67);
    NextWord(m, 29, 0x00000000, 0x00000000, 0x12dcbfdb, 0x32663c5b, 0x00000000, 0xd9aa66f0, 0xec8726cb);
    NextWord(m, 30, 0x00000000, 0x00000018, 0xe2e2c38e, 0x9d209d67, 0x30060003, 0x5d387513, 0x702138a4);
    NextWord(m, 31, 0x00000018, 0x61626380, 0xc8215c1a, 0xec8726cb, 0x940e90ef, 0x7787aa1a, 0xd3b7973b);
    NextWord(m, 32, 0x61626380, 0x000f0000, 0xb73679a2, 0x702138a4, 0xc001fe03, 0xbb5abe5a, 0x93f5997f);
    NextWord(m, 33, 0x000f0000, 0x7da86405, 0xe5bc3909, 0xd3b7973b, 0x1c4f0322, 0x394e7e48, 0x3b68ba73);
    NextWord(m, 34, 0x7da86405, 0x600003c6, 0x32663c5b, 0x93f5997f, 0x8031987f, 0x7fb4c6e2, 0xaff4ffc1);
    NextWord(m, 35, 0x600003c6, 0x3e9d7b78, 0x9d209d67, 0x3b68ba73, 0xa9709a3e, 0x4a7920f7, 0xf10a5c62);
    NextWord(m, 36, 0x3e9d7b78, 0x0183fc00, 0xec8726cb, 0xaff4ffc1, 0xff337818, 0xe0331f3b, 0x0a8b3996);
    NextWord(m, 37, 0x0183fc00, 0x12dcbfdb, 0x702138a4, 0xf10a5c62, 0x9b88ea33, 0x65816433, 0x72af830a);
    NextWord(m, 38, 0x12dcbfdb, 0xe2e2c38e, 0xd3b7973b, 0x0a8b3996, 0xb17a254e, 0xfbfb66da, 0x9409e33e);
    NextWord(m, 39, 0xe2e2c38e, 0xc8215c1a, 0x93f5997f, 0x72af830a, 0x7b92db33, 0x31f8dce2, 0x24641522);
  }

  lemma Words40(m: seq<Byte>)
    requires IsAbc(m)
    ensures Schedule(m, 40) == 0x9f47bf94 && Schedule(m, 41) == 0xf0a64f5a && Schedule(m, 42) == 0x3e246a79 && Schedule(m, 43) == 0x27333ba3
    ensures Schedule(m, 44) == 0x0c4763f2 && Schedule(m, 45) == 0x840abf27 && Schedule(m, 46) == 0x7a290d5d && Schedule(m, 47) == 0x065c43da
    ensures Schedule(m, 48) == 0xfb3e89cb && Schedule(m, 49) == 0xcc7617db && Schedule(m, 50) == 0xb9e66c34 && Schedule(m, 51) == 0xa9993667
    ensures Schedule(m, 52) == 0x84badedd && Schedule(m, 53) == 0xc21462bc && Schedule(m, 54) == 0x1487472c && Schedule(m, 55) == 0xb20f7a99
    ensures Schedule(m, 56) == 0xef57b9cd && Schedule(m, 57) == 0xebe6b238 && Schedule(m, 58) == 0x9fe3095e && Schedule(m, 59) == 0x78bc8d4b
    ensures Schedule(m, 60) == 0xa43fcf15 && Schedule(m, 61) == 0x668b2ff8 && Schedule(m, 62) == 0xeeaba2cc && Schedule(m, 63) == 0x12b1edeb
  {
    hide Schedule, IsAbc;
    Words16(m);
    NextWord(m, 40, 0xc8215c1a, 0xb73679a2, 0x3b68ba73, 0x9409e33e, 0xcde00e0a, 0xcddd9afd, 0x9f47bf94);
    NextWord(m, 41, 0xb73679a2, 0xe5bc3909, 0xaff4ffc1, 0x24641522, 0x013e863c, 0x883c4fbb, 0xf0a64f5a);
    NextWord(m, 42, 0xe5bc3909, 0x32663c5b, 0xf10a5c62, 0x9f47bf94, 0x3f3ec76a, 0x281f0da4, 0x3e246a79);
    NextWord(m, 43, 0x32663c5b, 0x9d209d67, 0x0a8b3996, 0xf0a64f5a, 0xfbc7b5de, 0xee7a0fd4, 0x27333ba3);
    NextWord(m, 44, 0x9d209d67, 0xec8726cb, 0x72af830a, 0x3e246a79, 0x43fb11b5, 0xb87c31cc, 0x0c4763f2);
    NextWord(m, 45, 0xec8726cb, 0x702138a4, 0x9409e33e, 0x27333ba3, 0x08cd796d, 0xfaac3bb1, 0x840abf27);
    NextWord(m, 46, 0x702138a4, 0xd3b7973b, 0x24641522, 0x0c4763f2, 0x881f6924, 0x5d845673, 0x7a290d5d);
    NextWord(m, 47, 0xd3b7973b, 0x93f5997f, 0x9f47bf94, 0x840abf27, 0x8b06bce0, 0x0856302b, 0x065c43da);
    NextWord(m, 48, 0x93f5997f, 0x3b68ba73, 0xf0a64f5a, 0x7a290d5d, 0xcf8708e0, 0xa71b9812, 0xfb3e89cb);
    NextWord(m, 49, 0x3b68ba73, 0xaff4ffc1, 0x3e246a79, 0x065c43da, 0xa9511dfa, 0xa997d4f5, 0xcc7617db);
    NextWord(m, 50, 0xaff4ffc1, 0xf10a5c62, 0x27333ba3, 0xfb3e89cb, 0x4cdbe376, 0x95e24d5a, 0xb9e66c34);
    NextWord(m, 51, 0xf10a5c62, 0x0a8b3996, 0x0c4763f2, 0xcc7617db, 0xe321f3e3, 0xc9258230, 0xa9993667);
    NextWord(m, 52, 0x0a8b3996, 0x72af830a, 0x840abf27, 0xb9e66c34, 0xfa7233cc, 0xfbb2b254, 0x84badedd);
    NextWord(m, 53, 0x72af830a, 0x9409e33e, 0x7a290d5d, 0xa9993667, 0x17668aa3, 0xbdd547b2, 0xc21462bc);
    NextWord(m, 54, 0x9409e33e, 0x24641522, 0x065c43da, 0x84badedd, 0x458cc397, 0x34945c7d, 0x1487472c);
    NextWord(m, 55, 0x24641522, 0x9f47bf94, 0xfb3e89cb, 0xc21462bc, 0xd5335f5c, 0xbd397c50, 0xb20f7a99);
    NextWord(m, 56, 0x9f47bf94, 0xf0a64f5a, 0xcc7617db, 0x1487472c, 0x3823395c, 0x4b76a902, 0xef57b9cd);
    NextWord(m, 57, 0xf0a64f5a, 0x3e246a79, 0xb9e66c34, 0xb20f7a99, 0xef268a12, 0x52336c98, 0xebe6b238);
    NextWord(m, 58, 0x3e246a79, 0x27333ba3, 0xa9993667, 0xef57b9cd, 0x8c40c8cf, 0x2be49faf, 0x9fe3095e);
    NextWord(m, 59, 0x27333ba3, 0x0c4763f2, 0x84badedd, 0xebe6b238, 0x3d6ce1a8, 0x8f619123, 0x78bc8d4b);
    NextWord(m, 60, 0x0c4763f2, 0x840abf27, 0xc21462bc, 0x9fe3095e, 0xf040a398, 0xe5a364cf, 0xa43fcf15);
    NextWord(m, 61, 0x840abf27, 0x7a290d5d, 0x1487472c, 0x78bc8d4b, 0xf6e62d3b, 0xd712fc6a, 0x668b2ff8);
    NextWord(m, 62, 0x7a290d5d, 0x065c43da, 0xb20f7a99, 0xa43fcf15, 0xa431b16b, 0x1e41696b, 0xeeaba2cc);
    NextWord(m, 63, 0x065c43da, 0xfb3e89cb, 0xef57b9cd, 0x668b2ff8, 0x2ae352e5, 0xf21a9d5f, 0x12b1edeb);
  }

  lemma Keys0()
    ensures Key(0) == 0x428a2f98 && Key(1) == 0x71374491 && Key(2) == 0xb5c0fbcf && Key(3) == 0xe9b5dba5
    ensures Key(4) == 0x3956c25b && Key(5) == 0x59f111f1 && Key(6) == 0x923f82a4 && Key(7) == 0xab1c5ed5
  {
  }

  lemma Keys8()
    ensures Key(8) == 0xd807aa98 && Key(9) == 0x12835b01 && Key(10) == 0x243185be && Key(11) == 0x550c7dc3
    ensures Key(12) == 0x72be5d74 && Key(13) == 0x80deb1fe && Key(14) == 0x9bdc06a7 && Key(15) == 0xc19bf174
  {
  }

  lemma Keys16()
    ensures Key(16) == 0xe49b69c1 && Key(17) == 0xefbe4786 && Key(18) == 0x0fc19dc6 && Key(19) == 0x240ca1cc
    ensures Key(20) == 0x2de92c6f && Key(21) == 0x4a7484aa && Key(22) == 0x5cb0a9dc && Key(23) == 0x76f988da
  {
  }

  lemma Keys24()
    ensures Key(24) == 0x983e5152 && Key(25) == 0xa831c66d && Key(26) == 0xb00327c8 && Key(27) == 0xbf597fc7
    ensures Key(28) == 0xc6e00bf3 && Key(29) == 0xd5a79147 && Key(30) == 0x06ca6351 && Key(31) == 0x14292967
  {
  }

  lemma Keys32()
    ensures Key(32) == 0x27b70a85 && Key(33) == 0x2e1b2138 && Key(34) == 0x4d2c6dfc && Key(35) == 0x53380d13
    ensures Key(36) == 0x650a7354 && Key(37) == 0x766a0abb && Key(38) == 0x81c2c92e && Key(39) == 0x92722c85
  {
  }

  lemma Keys40()
    ensures Key(40) == 0xa2bfe8a1 && Key(41) == 0xa81a664b && Key(42) == 0xc24b8b70 && Key(43) == 0xc76c51a3
    ensures Key(44) == 0xd192e819 && Key(45) == 0xd6990624 && Key(46) == 0xf40e3585 && Key(47) == 0x106aa070
  {
  }

  lemma Keys48()
    ensures Key(48) == 0x19a4c116 && Key(49) == 0x1e376c08 && Key(50) == 0x2748774c && Key(51) == 0x34b0bcb5
    ensures Key(52) == 0x391c0cb3 && Key(53) == 0x4ed8aa4a && Key(54) == 0x5b9cca4f && Key(55) == 0x682e6ff3
  {
  }

  lemma Keys56()
    ensures Key(56) == 0x748f82ee && Key(57) == 0x78a5636f && Key(58) == 0x84c87814 && Key(59) == 0x8cc70208
    ensures Key(60) == 0x90befffa && Key(61) == 0xa4506ceb && Key(62) == 0xbef9a3f7 && Key(63) == 0xc67178f2
  {
  }

  lemma Rounds32(v: Vars, m: seq<Byte>)
    requires IsAbc(m) && v == Start()
    ensures Rounds(v, m, 32) == Vars(0x73b33bf5, 0xea992a22, 0xa0060b30, 0x363482c9, 0xba591112, 0x0109ab3a, 0xade79437, 0x6112a3b7)
  {
    hide Rounds, Schedule, IsAbc, Key;
    FirstRounds(v, m);
    FirstWords(m);
    Words16(m);
    Keys0();
    Keys8();
    Keys16();
    Keys24();
    Next(v, m, 0, 0x6a09e667, 0xbb67ae85, 0x3c6ef372, 0xa54ff53a, 0x510e527f, 0x9b05688c, 0x1f83d9ab, 0x5be0cd19, 0x428a2f98, 0x61626380, 0x3587272b, 0x1f85c98c, 0xce20b47e, 0x3a6fe667, 0x5d6aebcd, 0xfa2a4622);
    Next(v, m, 1, 0x5d6aebcd, 0x6a09e667, 0xbb67ae85, 0x3c6ef372, 0xfa2a4622, 0x510e527f, 0x9b05688c, 0x1f83d9ab, 0x71374491, 0x00000000, 0x5a94fd2d, 0x510f6aae, 0xa29f64d1, 0x7b6beec5, 0x5a6ad9ad, 0x78ce7989);
    Next(v, m, 2, 0x5a6ad9ad, 0x5d6aebcd, 0x6a09e667, 0xbb67ae85, 0x78ce7989, 0xfa2a4622, 0x510e527f, 0x9b05688c, 0xb5c0fbcf, 0x00000000, 0x73f0e495, 0x790a4276, 0x3096d054, 0x5a6aebed, 0xc8c347a7, 0xf92939eb);
    Next(v, m, 3, 0xc8c347a7, 0x5a6ad9ad, 0x5d6aebcd, 0x6a09e667, 0xf92939eb, 0x78ce7989, 0xfa2a4622, 0x510e527f, 0xe9b5dba5, 0x00000000, 0x0607743c, 0x7a0a7f89, 0xc21008d0, 0x586acbad, 0xd550f666, 0x24e00850);
    Next(v, m, 4, 0xd550f666, 0xc8c347a7, 0x5a6ad9ad, 0x5d6aebcd, 0x24e00850, 0xf92939eb, 0x78ce7989, 0xfa2a4622, 0x3956c25b, 0x00000000, 0x3a933432, 0x782e79c9, 0x45bb0c4b, 0xd842d7a7, 0x04409a6a, 0x43ada245);
    Next(v, m, 5, 0x04409a6a, 0xd550f666, 0xc8c347a7, 0x5a6ad9ad, 0x43ada245, 0x24e00850, 0xf92939eb, 0x78ce7989, 0x59f111f1, 0x00000000, 0x8b77e19c, 0xb8a019ea, 0x5029ac8f, 0xc440d666, 0x2b4209f5, 0x714260ad);
    Next(v, m, 6, 0x2b4209f5, 0x04409a6a, 0xd550f666, 0xc8c347a7, 0x714260ad, 0x43ada245, 0x24e00850, 0xf92939eb, 0x923f82a4, 0x00000000, 0x015b7776, 0x45a02855, 0x0d5e0cc0, 0x05409a66, 0xe5030380, 0x9b27a401);
    Next(v, m, 7, 0xe5030380, 0x2b4209f5, 0x04409a6a, 0xd550f666, 0x9b27a401, 0x714260ad, 0x43ada245, 0x24e00850, 0xab1c5ed5, 0x00000000, 0x158dfaa9, 0x518a2245, 0x2949eb6c, 0x25420be0, 0x85a07b5f, 0x0c657a79);
    Next(v, m, 8, 0x85a07b5f, 0xe5030380, 0x2b4209f5, 0x04409a6a, 0x0c657a79, 0x9b27a401, 0x714260ad, 0x43ada245, 0xd807aa98, 0x00000000, 0x99ad25c0, 0x79272085, 0xba794dc2, 0xa5020bd5, 0x8e04ecb9, 0x32ca2d8c);
    Next(v, m, 9, 0x8e04ecb9, 0x85a07b5f, 0xe5030380, 0x2b4209f5, 0x32ca2d8c, 0x0c657a79, 0x9b27a401, 0x714260ad, 0x12835b01, 0x00000000, 0xe45bb7ea, 0x8965a809, 0x15ffad31, 0x85006b99, 0x8c87346b, 0x1cc92596);
    Next(v, m, 10, 0x8c87346b, 0x8e04ecb9, 0x85a07b5f, 0xe5030380, 0x1cc92596, 0x32ca2d8c, 0x0c657a79, 0x9b27a401, 0x243185be, 0x00000000, 0x8e2276bc, 0x10ec7fed, 0x5cac0711, 0x8c847c7b, 0x4798a3f4, 0x436b23e8);
    Next(v, m, 11, 0x4798a3f4, 0x8c87346b, 0x8e04ecb9, 0x85a07b5f, 0x436b23e8, 0x1cc92596, 0x32ca2d8c, 0x0c657a79, 0x550c7dc3, 0x00000000, 0x699435ca, 0x30c92d84, 0x6ccbc526, 0x8e84a4f9, 0xf71fc5a9, 0x816fd6e9);
    Next(v, m, 12, 0xf71fc5a9, 0x4798a3f4, 0x8c87346b, 0x8e04ecb9, 0x816fd6e9, 0x436b23e8, 0x1cc92596, 0x32ca2d8c, 0x72be5d74, 0x00000000, 0xccdee661, 0x1deb23fe, 0x2f9eee48, 0xc79fa5e9, 0x87912990, 0x1e578218);
    Next(v, m, 13, 0x87912990, 0xf71fc5a9, 0x4798a3f4, 0x8c87346b, 0x1e578218, 0x816fd6e9, 0x436b23e8, 0x1cc92596, 0x80deb1fe, 0x00000000, 0x08bb98f7, 0x416fa3e8, 0x29c634f3, 0xc799a1b0, 0xd932eb16, 0x745a48de);
    Next(v, m, 14, 0xd932eb16, 0x87912990, 0xf71fc5a9, 0x4798a3f4, 0x745a48de, 0x1e578218, 0x816fd6e9, 0x436b23e8, 0x9bdc06a7, 0x00000000, 0x4f3b8d50, 0x95779639, 0x25562836, 0xd713e990, 0xc0645fde, 0x0b92f20c);
    Next(v, m, 15, 0xc0645fde, 0xd932eb16, 0x87912990, 0xf71fc5a9, 0x0b92f20c, 0x745a48de, 0x1e578218, 0x816fd6e9, 0xc19bf174, 0x00000018, 0xb8d63f93, 0x1457401c, 0xdf906fd4, 0xc1306b96, 0xb0fa238e, 0x07590dcd);
    Next(v, m, 16, 0xb0fa238e, 0xc0645fde, 0xd932eb16, 0x87912990, 0x07590dcd, 0x0b92f20c, 0x745a48de, 0x1e578218, 0xe49b69c1, 0x61626380, 0x213b6995, 0x7312401e, 0x58c535f1, 0xd0726b9e, 0x21da9a9b, 0x8034229c);
    Next(v, m, 17, 0x21da9a9b, 0xb0fa238e, 0xc0645fde, 0xd932eb16, 0x8034229c, 0x07590dcd, 0x0b92f20c, 0x745a48de, 0xefbe4786, 0x000f0000, 0x3b81984e, 0x0b92d08c, 0x76c5c4f5, 0xa0fa1b9e, 0xc2fbd9d1, 0x846ee454);
    Next(v, m, 18, 0xc2fbd9d1, 0x21da9a9b, 0xb0fa238e, 0xc0645fde, 0x846ee454, 0x8034229c, 0x07590dcd, 0x0b92f20c, 0x0fc19dc6, 0x7da86405, 0xeff31c0f, 0x8335299d, 0x5157a6a1, 0xa0fa9b9b, 0xfe777bbf, 0xcc899961);
    Next(v, m, 19, 0xfe777bbf, 0xc2fbd9d1, 0x21da9a9b, 0xb0fa238e, 0xcc899961, 0x846ee454, 0x8034229c, 0x07590dcd, 0x240ca1cc, 0x600003c6, 0xefc707b0, 0x843ca2dc, 0xff8cd2ad, 0xe2fbdb9b, 0xe1f20c33, 0xb0638179);
    Next(v, m, 20, 0xe1f20c33, 0xfe777bbf, 0xc2fbd9d1, 0x21da9a9b, 0xb0638179, 0xcc899961, 0x846ee454, 0x8034229c, 0x2de92c6f, 0x3e9d7b78, 0xf8373ead, 0x840de565, 0x51d3431b, 0xe2f359b3, 0x9dc68b63, 0x8ada8930);
    Next(v, m, 21, 0x9dc68b63, 0xe1f20c33, 0xfe777bbf, 0xc2fbd9d1, 0x8ada8930, 0xb0638179, 0xcc899961, 0x846ee454, 0x4a7484aa, 0x0183fc00, 0x897ea930, 0xc4439171, 0xa640c29b, 0xfdf60b33, 0xc2606d6d, 0xe1257970);
    Next(v, m, 22, 0xc2606d6d, 0x9dc68b63, 0xe1f20c33, 0xfe777bbf, 0xe1257970, 0x8ada8930, 0xb0638179, 0xcc899961, 0x5cb0a9dc, 0x12dcbfdb, 0x7f24093a, 0x90428939, 0x9a43bf51, 0xc1e20d63, 0xa7a3623f, 0x49f5114a);
    Next(v, m, 23, 0xa7a3623f, 0xc2606d6d, 0x9dc68b63, 0xe1f20c33, 0x49f5114a, 0xe1257970, 0x8ada8930, 0xb0638179, 0x76f988da, 0xe2e2c38e, 0xfae64fc3, 0xc32f9970, 0x759d1b0a, 0x87e26b6f, 0xc5d53d8d, 0xaa47c347);
    Next(v, m, 24, 0xc5d53d8d, 0xa7a3623f, 0xc2606d6d, 0x9dc68b63, 0xaa47c347, 0x49f5114a, 0xe1257970, 0x8ada8930, 0x983e5152, 0xc8215c1a, 0x55bdf420, 0x49653972, 0xc9ed56dd, 0xc7e16d2d, 0x1c2c2838, 0x2823ef91);
    Next(v, m, 25, 0x1c2c2838, 0xc5d53d8d, 0xa7a3623f, 0xc2606d6d, 0x2823ef91, 0xaa47c347, 0x49f5114a, 0xe1257970, 0xa831c66d, 0xb73679a2, 0xa7724357, 0x69d7d34b, 0xf66b0b1f, 0x85a5283d, 0xcde8037d, 0x14383d8e);
    Next(v, m, 26, 0xcde8037d, 0x1c2c2838, 0xc5d53d8d, 0xa7a3623f, 0x14383d8e, 0x2823ef91, 0xaa47c347, 0x49f5114a, 0xb00327c8, 0xe5bc3909, 0x958ca0fb, 0xaa67efc1, 0xc89998a8, 0xcdec293d, 0xb62ec4bc, 0xc74c6516);
    Next(v, m, 27, 0xb62ec4bc, 0xcde8037d, 0x1c2c2838, 0xc5d53d8d, 0xc74c6516, 0x14383d8e, 0x2823ef91, 0xaa47c347, 0xbf597fc7, 0x32663c5b, 0x5ff7537b, 0x2c2baf87, 0xb37cf281, 0x9c2c003c, 0x77d37528, 0xedffbff8);
    Next(v, m, 28, 0x77d37528, 0xb62ec4bc, 0xcde8037d, 0x1c2c2838, 0xedffbff8, 0xc74c6516, 0x14383d8e, 0x2823ef91, 0xc6e00bf3, 0x9d209d67, 0xe375bd7e, 0xd54c2516, 0xf963c20e, 0xf7ea453c, 0x363482c9, 0x6112a3b7);
    Next(v, m, 29, 0x363482c9, 0x77d37528, 0xb62ec4bc, 0xcde8037d, 0x6112a3b7, 0xedffbff8, 0xc74c6516, 0x14383d8e, 0xd5a79147, 0xec8726cb, 0x2239b36a, 0xe75ee7b0, 0x89cfb5ce, 0x3636c4a8, 0xa0060b30, 0xade79437);
    Next(v, m, 30, 0xa0060b30, 0x363482c9, 0x77d37528, 0xb62ec4bc, 0xade79437, 0x6112a3b7, 0xedffbff8, 0xc74c6516, 0x06ca6351, 0x702138a4, 0xab883974, 0x611aabff, 0x69a8407c, 0x36160328, 0xea992a22, 0x0109ab3a);
    Next(v, m, 31, 0xea992a22, 0xa0060b30, 0x363482c9, 0x77d37528, 0x0109ab3a, 0xade79437, 0x6112a3b7, 0xedffbff8, 0x14292967, 0xd3b7973b, 0x0b919a99, 0x611380b7, 0x8f1995eb, 0xa2140a20, 0x73b33bf5, 0xba591112);
  }

  lemma FirstWords(m: seq<Byte>)
    requires IsAbc(m)
    ensures Schedule(m, 0) == 0x61626380 && forall t :: 1 <= t < 15 ==> Schedule(m, t) == 0
    ensures Schedule(m, 15) == 0x18
  {
    AbcBytes(m);
    assert WordOf(m, 0) == 0x61626380;
  }

  lemma FirstRounds(v: Vars, m: seq<Byte>)
    requires IsAbc(m) && v == Start()
    ensures Rounds(v, m, 0) == Start()
  {
  }

  lemma AbcState(m: seq<Byte>)
    requires IsAbc(m)
    ensures Compress(INITIAL, m) == [0xba7816bf, 0x8f01cfea, 0x414140de, 0x5dae2223, 0xb00361a3, 0x96177a9c, 0xb410ff61, 0xf20015ad]
  {
    hide Rounds, Schedule, IsAbc, Key;
    Rounds32(Start(), m);
    Words16(m);
    Words40(m);
    Keys32();
    Keys40();
    Keys48();
    Keys56();
    Next(Start(), m, 32, 0x73b33bf5, 0xea992a22, 0xa0060b30, 0x363482c9, 0xba591112, 0x0109ab3a, 0xade79437, 0x6112a3b7, 0x27b70a85, 0x93f5997f, 0x4436a63b, 0x05af8537, 0x4fa886aa, 0xe2932b30, 0x98e12507, 0x9cd9f5f6);
    Next(Start(), m, 33, 0x98e12507, 0x73b33bf5, 0xea992a22, 0xa0060b30, 0x9cd9f5f6, 0xba591112, 0x0109ab3a, 0xade79437, 0x2e1b2138, 0x3b68ba73, 0x085a07a7, 0x99591b1a, 0x4a90902b, 0xfab12b27, 0xfe604df5, 0x59249dd3);
    Next(Start(), m, 34, 0xfe604df5, 0x98e12507, 0x73b33bf5, 0xea992a22, 0x59249dd3, 0x9cd9f5f6, 0xba591112, 0x0109ab3a, 0x4d2c6dfc, 0xaff4ffc1, 0x65415f48, 0xba5995d2, 0x91003786, 0xfae12df5, 0xa9a7738c, 0x085f3833);
    Next(Start(), m, 35, 0xa9a7738c, 0xfe604df5, 0x98e12507, 0x73b33bf5, 0x085f3833, 0x59249dd3, 0x9cd9f5f6, 0xba591112, 0x53380d13, 0xf10a5c62, 0xe5dc6e83, 0x9c84ddd7, 0x2bc2a37e, 0xb8e16585, 0x65a0cfe4, 0xf4b002d6);
    Next(Start(), m, 36, 0x65a0cfe4, 0xa9a7738c, 0xfe604df5, 0x98e12507, 0xf4b002d6, 0x085f3833, 0x59249dd3, 0x9cd9f5f6, 0x650a7354, 0x0a8b3996, 0x590d3d71, 0x09149d13, 0xe5748f69, 0xeda04fe4, 0x41a65cb1, 0x0772a26b);
    Next(Start(), m, 37, 0x41a65cb1, 0x65a0cfe4, 0xa9a7738c, 0xfe604df5, 0x0772a26b, 0xf4b002d6, 0x085f3833, 0x59249dd3, 0x766a0abb, 0x72af830a, 0x582c115e, 0x0c3d1a52, 0x2c915f18, 0x61a65fa4, 0x34df1604, 0xa507a53d);
    Next(Start(), m, 38, 0x34df1604, 0x41a65cb1, 0x65a0cfe4, 0xa9a7738c, 0xa507a53d, 0x0772a26b, 0xf4b002d6, 0x085f3833, 0x81c2c92e, 0x9409e33e, 0xd2f220b2, 0x55b2a2eb, 0xc14e73aa, 0x65a65ea4, 0x6dc57a8a, 0xf0781bc8);
    Next(Start(), m, 39, 0x6dc57a8a, 0x34df1604, 0x41a65cb1, 0x65a0cfe4, 0xf0781bc8, 0xa507a53d, 0x0772a26b, 0xf4b002d6, 0x92722c85, 0x24641522, 0x66d20b14, 0xa702a12b, 0x5ac8193e, 0x65c75e80, 0x79ea687a, 0x1efbc0a0);
    Next(Start(), m, 40, 0x79ea687a, 0x6dc57a8a, 0x34df1604, 0x41a65cb1, 0x1efbc0a0, 0xf0781bc8, 0xa507a53d, 0x0772a26b, 0xa2bfe8a1, 0x9f47bf94, 0xe9986075, 0xb17c259d, 0x7408bcaa, 0x7dcf7a0a, 0xd6670766, 0x26352d63);
    Next(Start(), m, 41, 0xd6670766, 0x79ea687a, 0x6dc57a8a, 0x34df1604, 0x26352d63, 0x1efbc0a0, 0xf0781bc8, 0xa507a53d, 0xa81a664b, 0xf0a64f5a, 0x3a6aa383, 0xd67912a8, 0x12b2e9b8, 0x7de76a6a, 0xdf46652f, 0x838b2711);
    Next(Start(), m, 42, 0xdf46652f, 0xd6670766, 0x79ea687a, 0x6dc57a8a, 0x838b2711, 0x26352d63, 0x1efbc0a0, 0xf0781bc8, 0xc24b8b70, 0x3e246a79, 0x61add539, 0x1e71e5a1, 0xc73bdc05, 0xdf66656e, 0x17aa0dfe, 0xdecd4715);
    Next(Start(), m, 43, 0x17aa0dfe, 0xdf46652f, 0xd6670766, 0x79ea687a, 0xdecd4715, 0x838b2711, 0x26352d63, 0x1efbc0a0, 0xc76c51a3, 0x27333ba3, 0xd363665b, 0xa2b92f73, 0x422dc671, 0xd766056e, 0x9d4baf93, 0xfda24c2e);
    Next(Start(), m, 44, 0x9d4baf93, 0x17aa0dfe, 0xdf46652f, 0xd6670766, 0xfda24c2e, 0xdecd4715, 0x838b2711, 0x26352d63, 0xd192e819, 0x0c4763f2, 0xef0f2a07, 0xde896715, 0xb5704fcc, 0x9f4a2dbf, 0x26628815, 0xa80f11f0);
    Next(Start(), m, 45, 0x26628815, 0x9d4baf93, 0x17aa0dfe, 0xdf46652f, 0xa80f11f0, 0xfda24c2e, 0xdecd4715, 0x838b2711, 0xd6990624, 0x840abf27, 0xfb3dc5f1, 0xfec24625, 0x8311c588, 0x176a8d97, 0x72ab4b91, 0xb7755da1);
    Next(Start(), m, 46, 0x72ab4b91, 0x26628815, 0x9d4baf93, 0x17aa0dfe, 0xb7755da1, 0xa80f11f0, 0xfda24c2e, 0xdecd4715, 0xf40e3585, 0x7a290d5d, 0x8845eb06, 0xe88711ae, 0xad0f0274, 0x366b8b91, 0xa14c14b0, 0xd57b94a9);
    Next(Start(), m, 47, 0xa14c14b0, 0x72ab4b91, 0x26628815, 0x9d4baf93, 0xd57b94a9, 0xb7755da1, 0xa80f11f0, 0xfda24c2e, 0x106aa070, 0x065c43da, 0x8fa515ca, 0xbd7515f1, 0xbd84cdc9, 0x226a0891, 0x4172328d, 0xfecf0bc6);
    Next(Start(), m, 48, 0x4172328d, 0xa14c14b0, 0x72ab4b91, 0x26628815, 0xfecf0bc6, 0xd57b94a9, 0xb7755da1, 0xa80f11f0, 0x19a4c116, 0xfb3e89cb, 0x04a106b1, 0xd57b54a1, 0x0cfcb237, 0x616a1291, 0x05757ceb, 0xbd714038);
    Next(Start(), m, 49, 0x05757ceb, 0x4172328d, 0xa14c14b0, 0x72ab4b91, 0xbd714038, 0xfecf0bc6, 0xd57b94a9, 0xb7755da1, 0x1e376c08, 0xcc7617db, 0x5d427776, 0xfc4b9481, 0xf3f6d884, 0x017434a9, 0xf11bfaa8, 0x6e5c390c);
    Next(Start(), m, 50, 0xf11bfaa8, 0x05757ceb, 0x4172328d, 0xa14c14b0, 0x6e5c390c, 0xbd714038, 0xfecf0bc6, 0xd57b94a9, 0x2748774c, 0xb9e66c34, 0x3e283d54, 0xbcd302ca, 0x86ebd5b1, 0x41737aa9, 0x7a0508a1, 0x52f1ccf7);
    Next(Start(), m, 51, 0x7a0508a1, 0xf11bfaa8, 0x05757ceb, 0x4172328d, 0x52f1ccf7, 0x6e5c390c, 0xbd714038, 0xfecf0bc6, 0x34b0bcb5, 0xa9993667, 0x3b47e2a3, 0xef50080c, 0x0fa817e8, 0x711578a9, 0x886e7a22, 0x49231c1e);
    Next(Start(), m, 52, 0x886e7a22, 0x7a0508a1, 0xf11bfaa8, 0x05757ceb, 0x49231c1e, 0x52f1ccf7, 0x6e5c390c, 0xbd714038, 0x391c0cb3, 0x84badedd, 0x6b63a737, 0x667d2d16, 0xcae757da, 0xf80f7aa0, 0x101fd28f, 0x529e7d00);
    Next(Start(), m, 53, 0x101fd28f, 0x886e7a22, 0x7a0508a1, 0xf11bfaa8, 0x529e7d00, 0x49231c1e, 0x52f1ccf7, 0x6e5c390c, 0x4ed8aa4a, 0xc21462bc, 0xee7eaa12, 0x40639cf7, 0x2f35481d, 0x180f5aa3, 0xf5702fdb, 0x9f4787c3);
    Next(Start(), m, 54, 0xf5702fdb, 0x101fd28f, 0x886e7a22, 0x7a0508a1, 0x9f4787c3, 0x529e7d00, 0x49231c1e, 0x52f1ccf7, 0x5b9cca4f, 0x1487472c, 0x55cd1720, 0x52261d1c, 0x433ccfa2, 0x907e7a8b, 0x3ec45cdb, 0xe50e1b4f);
    Next(Start(), m, 55, 0x3ec45cdb, 0xf5702fdb, 0x101fd28f, 0x886e7a22, 0xe50e1b4f, 0x9f4787c3, 0x529e7d00, 0x49231c1e, 0x682e6ff3, 0xb20f7a99, 0xd1653e5c, 0x97966743, 0x381b8def, 0x34545edb, 0x38cc9913, 0x54cb266b);
    Next(Start(), m, 56, 0x38cc9913, 0x3ec45cdb, 0xf5702fdb, 0x101fd28f, 0x54cb266b, 0xe50e1b4f, 0x9f4787c3, 0x529e7d00, 0x748f82ee, 0xef57b9cd, 0x05aa8057, 0xcf0e83cb, 0x34ceacc3, 0x3cc41ddb, 0xfcd1887b, 0x9b5e906c);
    Next(Start(), m, 57, 0xfcd1887b, 0x38cc9913, 0x3ec45cdb, 0xf5702fdb, 0x9b5e906c, 0x54cb266b, 0xe50e1b4f, 0x9f4787c3, 0x78a5636f, 0xebe6b238, 0x10b627de, 0x744a0b6b, 0xfaca6b61, 0x3cc4985b, 0xc062d46f, 0x7e44008e);
    Next(Start(), m, 58, 0xc062d46f, 0xfcd1887b, 0x38cc9913, 0x3ec45cdb, 0x7e44008e, 0x9b5e906c, 0x54cb266b, 0xe50e1b4f, 0x84c87814, 0x9fe3095e, 0x0a369fbd, 0x1acf266d, 0xd837090c, 0xf8c0987b, 0xffb70472, 0x6d83bfc6);
    Next(Start(), m, 59, 0xffb70472, 0xc062d46f, 0xfcd1887b, 0x38cc9913, 0x6d83bfc6, 0x7e44008e, 0x9b5e906c, 0x54cb266b, 0x8cc70208, 0x78bc8d4b, 0x20a45dbe, 0xfe5c00ae, 0x406bf75a, 0xfcf3847b, 0xb6ae8fff, 0xb21bad3d);
    Next(Start(), m, 60, 0xb6ae8fff, 0xffb70472, 0xc062d46f, 0xfcd1887b, 0xb21bad3d, 0x6d83bfc6, 0x7e44008e, 0x9b5e906c, 0x90befffa, 0xa43fcf15, 0x5ca8b318, 0x6c47ad86, 0x2869e851, 0xf6a6847f, 0xb85e2ce9, 0x961f4894);
    Next(Start(), m, 61, 0xb85e2ce9, 0xb6ae8fff, 0xffb70472, 0xc062d46f, 0x961f4894, 0xb21bad3d, 0x6d83bfc6, 0x7e44008e, 0xa4506ceb, 0x668b2ff8, 0x4f6ef480, 0xfb9bbf56, 0x71e9ef2a, 0xbebe0cfb, 0x04d24d6c, 0x948d25b6);
    Next(Start(), m, 62, 0x04d24d6c, 0xb85e2ce9, 0xb6ae8fff, 0xffb70472, 0x948d25b6, 0x961f4894, 0xb21bad3d, 0x6d83bfc6, 0xbef9a3f7, 0xeeaba2cc, 0x2a127e78, 0xb61f889d, 0x236105da, 0xb4de0ded, 0xd39a2165, 0xfb121210);
    Next(Start(), m, 63, 0xd39a2165, 0x04d24d6c, 0xb85e2ce9, 0xb6ae8fff, 0xfb121210, 0x948d25b6, 0x961f4894, 0xb21bad3d, 0xc67178f2, 0x12b1edeb, 0x88fa2277, 0x940d4894, 0x174d83c6, 0x90da2d6d, 0x506e3058, 0x5ef50f24);
  }

  // The digest of the example in FIPS 180-4.
  lemma DigestAbc()
    ensures Digest(SHA256, ABC) == [
              0xba, 0x78, 0x16, 0xbf, 0x8f, 0x01, 0xcf, 0xea, 0x41, 0x41, 0x40, 0xde, 0x5d, 0xae, 0x22, 0x23,
              0xb0, 0x03, 0x61, 0xa3, 0x96, 0x17, 0x7a, 0x9c, 0xb4, 0x10, 0xff, 0x61, 0xf2, 0x00, 0x15, 0xad]
  {
    hide Compress, Blocks, Padded, IsAbc, Digest, Split;
    OneBlock(SHA256);
    AbcState(Padded(ABC));
    EightWords(0xba7816bf, 0x8f01cfea, 0x414140de, 0x5dae2223, 0xb00361a3, 0x96177a9c, 0xb410ff61, 0xf20015ad);
    SplitsAbc();
  }

  lemma SplitsAbc()
    ensures Split(0xba7816bf) == [0xba, 0x78, 0x16, 0xbf]
    ensures Split(0x8f01cfea) == [0x8f, 0x01, 0xcf, 0xea]
    ensures Split(0x414140de) == [0x41, 0x41, 0x40, 0xde]
    ensures Split(0x5dae2223) == [0x5d, 0xae, 0x22, 0x23]
    ensures Split(0xb00361a3) == [0xb0, 0x03, 0x61, 0xa3]
    ensures Split(0x96177a9c) == [0x96, 0x17, 0x7a, 0x9c]
    ensures Split(0xb410ff61) == [0xb4, 0x10, 0xff, 0x61]
    ensures Split(0xf20015ad) == [0xf2, 0x00, 0x15, 0xad]
  {
  }

  lemma EightWords(a: Word, b: Word, c: Word, d: Word, e: Word, f: Word, g: Word, h: Word)
    ensures Bytewise([a, b, c, d, e, f, g, h]) == Split(a) + Split(b) + Split(c) + Split(d) + Split(e) + Split(f) + Split(g) + Split(h)
  {
    hide Split;
    assert Bytewise([]) == [] && [] + [a] == [a] && [a] + [b] == [a, b] && [a, b] + [c] == [a, b, c] && [a, b, c] + [d] == [a, b, c, d];
    assert [a, b, c, d] + [e] == [a, b, c, d, e] && [a, b, c, d, e] + [f] == [a, b, c, d, e, f];
    assert [a, b, c, d, e, f] + [g] == [a, b, c, d, e, f, g] && [a, b, c, d, e, f, g] + [h] == [a, b, c, d, e, f, g, h];
    BytewiseNext([], a);
    BytewiseNext([a], b);
    BytewiseNext([a, b], c);
    BytewiseNext([a, b, c], d);
    BytewiseNext([a, b, c, d], e);
    BytewiseNext([a, b, c, d, e], f);
    BytewiseNext([a, b, c, d, e, f], g);
    BytewiseNext([a, b, c, d, e, f, g], h);
  }
}
