/** SHA-1 of "abc", word by word and round by round, against the value in FIPS 180-4. */
module Sha1Abc {
  import opened BigNum
  import opened Bytes
  import opened Sha1
  import opened Sha256
  import opened ShaPadding
  import opened ShaStream

  function Start(): (v: Vars1) {
    Vars1(0x67452301, 0xefcdab89, 0x98badcfe, 0x10325476, 0xc3d2e1f0)
  }

  // ----- the functions of section 4.1.1 on bits, without numbers in between -----

  function Left1(x: bv32): (r: bv32) {
    (x << 1) | (x >> 31)
  }

  function Left5(x: bv32): (r: bv32) {
    (x << 5) | (x >> 27)
  }

  function Left30(x: bv32): (r: bv32) {
    (x << 30) | (x >> 2)
  }

  function FBits(t: nat, x: bv32, y: bv32, z: bv32): (r: bv32) {
    if t < 20 then ChBits(x, y, z) else if 40 <= t < 60 then MajBits(x, y, z) else Xor3(x, y, z)
  }

  lemma Left1Is(x: bv32)
    ensures Rol(x as int, 1) == Left1(x) as int
  {
    hide Left1, RolBits;
    Left1Bits(x);
  }

  lemma Left1Bits(x: bv32)
    ensures RolBits(x, 1) == Left1(x)
  {
    assert RolBits(x, 1) == (x << 1) | (x >> 31);
  }

  lemma Left5Is(x: bv32)
    ensures Rol(x as int, 5) == Left5(x) as int
  {
    hide Left5, RolBits;
    Left5Bits(x);
  }

  lemma Left5Bits(x: bv32)
    ensures RolBits(x, 5) == Left5(x)
  {
    assert RolBits(x, 5) == (x << 5) | (x >> 27);
  }

  lemma Left30Is(x: bv32)
    ensures Rol(x as int, 30) == Left30(x) as int
  {
    hide Left30, RolBits;
    Left30Bits(x);
  }

  lemma Left30Bits(x: bv32)
    ensures RolBits(x, 30) == Left30(x)
  {
    assert RolBits(x, 30) == (x << 30) | (x >> 2);
  }

  lemma FIs(t: nat, x: bv32, y: bv32, z: bv32)
    ensures F(t, x as int, y as int, z as int) == FBits(t, x, y, z) as int
  {
    hide ChBits, MajBits, Xor3;
  }

  lemma XorIs(x: bv32, y: bv32, z: bv32, w: bv32)
    ensures Xor4(x as int, y as int, z as int, w as int) == Xor4Bits(x, y, z, w) as int
  {
    hide Xor4Bits;
  }

  // ----- one step -----

  // One word of the schedule from the four it is made of.
  lemma NextWord(m: seq<Byte>, t: nat, w16: bv32, w14: bv32, w8: bv32, w3: bv32, r: bv32)
    requires |m| == 64 && t >= 16 && Schedule1(m, t - 16) == w16 as int && Schedule1(m, t - 14) == w14 as int
    requires Schedule1(m, t - 8) == w8 as int && Schedule1(m, t - 3) == w3 as int && Left1(Xor4Bits(w3, w8, w14, w16)) == r
    ensures Schedule1(m, t) == r as int
  {
    hide Schedule1, Rol, Xor4, Xor4Bits, Left1;
    ScheduleStep(m, t);
    XorIs(w3, w8, w14, w16);
    Left1Is(Xor4Bits(w3, w8, w14, w16));
  }

  lemma FiveTerms(a: Word, b: Word, c: Word, d: Word, e: Word)
    ensures Add(Add(Add(Add(a, b), c), d), e) == (a as int + b + c + d + e) % 0x1_0000_0000
  {
    Fold(a as int + b, c);
    Fold(a as int + b + c, d);
    Fold(a as int + b + c + d, e);
  }

  // One round, with what its functions give.
  lemma Next(v: Vars1, m: seq<Byte>, t: nat, a: bv32, b: bv32, c: bv32, d: bv32, e: Word, k: Word, w: Word,
             a5: bv32, f: bv32, b30: bv32, na: Word)
    requires |m| == 64 && Rounds1(v, m, t) == Vars1(a as int, b as int, c as int, d as int, e) && K1(t) == k && Schedule1(m, t) == w
    requires Left5(a) == a5 && FBits(t, b, c, d) == f && Left30(b) == b30
    requires na == (a5 as int + f as int + e + k + w) % 0x1_0000_0000
    ensures Rounds1(v, m, t + 1) == Vars1(na, a as int, b30 as int, c as int, d as int)
  {
    hide Rounds1, Schedule1, Rol, F, K1, Add, Left5, Left30, FBits;
    RoundsStep(v, m, t);
    Left5Is(a);
    FIs(t, b, c, d);
    Left30Is(b);
    FiveTerms(a5 as int, f as int, e, k, w);
  }

  // ----- the trace -----

  lemma FirstWords(m: seq<Byte>)
    requires IsAbc(m)
    ensures Schedule1(m, 0) == 0x61626380 && forall t :: 1 <= t < 15 ==> Schedule1(m, t) == 0
    ensures Schedule1(m, 15) == 0x18
  {
    AbcBytes(m);
    assert WordOf(m, 0) == 0x61626380;
  }

  lemma FirstRounds(v: Vars1, m: seq<Byte>)
    requires IsAbc(m) && v == Start()
    ensures Rounds1(v, m, 0) == Start()
  {
  }

  lemma Words16(m: seq<Byte>)
    requires IsAbc(m)
    ensures Schedule1(m, 16) == 0xc2c4c700 && Schedule1(m, 17) == 0x00000000 && Schedule1(m, 18) == 0x00000030 && Schedule1(m, 19) == 0x85898e01
    ensures Schedule1(m, 20) == 0x00000000 && Schedule1(m, 21) == 0x00000060 && Schedule1(m, 22) == 0x0b131c03 && Schedule1(m, 23) == 0x00000030
    ensures Schedule1(m, 24) == 0x85898ec1 && Schedule1(m, 25) == 0x16263806 && Schedule1(m, 26) == 0x00000000 && Schedule1(m, 27) == 0x00000180
    ensures Schedule1(m, 28) == 0x2c4c700c && Schedule1(m, 29) == 0x000000f0 && Schedule1(m, 30) == 0x93afb507 && Schedule1(m, 31) == 0x5898e048
  {
    hide Schedule1, IsAbc;
    FirstWords(m);
    NextWord(m, 16, 0x61626380, 0x00000000, 0x00000000, 0x00000000, 0xc2c4c700);
    NextWord(m, 17, 0x00000000, 0x00000000, 0x00000000, 0x00000000, 0x00000000);
    NextWord(m, 18, 0x00000000, 0x00000000, 0x00000000, 0x00000018, 0x00000030);
    NextWord(m, 19, 0x00000000, 0x00000000, 0x00000000, 0xc2c4c700, 0x85898e01);
    NextWord(m, 20, 0x00000000, 0x00000000, 0x00000000, 0x00000000, 0x00000000);
    NextWord(m, 21, 0x00000000, 0x00000000, 0x00000000, 0x00000030, 0x00000060);
    NextWord(m, 22, 0x00000000, 0x00000000, 0x00000000, 0x85898e01, 0x0b131c03);
    NextWord(m, 23, 0x00000000, 0x00000000, 0x00000018, 0x00000000, 0x00000030);
    NextWord(m, 24, 0x00000000, 0x00000000, 0xc2c4c700, 0x00000060, 0x85898ec1);
    NextWord(m, 25, 0x00000000, 0x00000000, 0x00000000, 0x0b131c03, 0x16263806);
    NextWord(m, 26, 0x00000000, 0x00000000, 0x00000030, 0x00000030, 0x00000000);
    NextWord(m, 27, 0x00000000, 0x00000000, 0x85898e01, 0x85898ec1, 0x00000180);
    NextWord(m, 28, 0x00000000, 0x00000000, 0x00000000, 0x16263806, 0x2c4c700c);
    NextWord(m, 29, 0x00000000, 0x00000018, 0x00000060, 0x00000000, 0x000000f0);
    NextWord(m, 30, 0x00000000, 0xc2c4c700, 0x0b131c03, 0x00000180, 0x93afb507);
    NextWord(m, 31, 0x00000018, 0x00000000, 0x00000030, 0x2c4c700c, 0x5898e048);
  }

  lemma Words32(m: seq<Byte>)
    requires IsAbc(m)
    ensures Schedule1(m, 32) == 0x8e9a9202 && Schedule1(m, 33) == 0x00000600 && Schedule1(m, 34) == 0xb131c0f0 && Schedule1(m, 35) == 0x16263bc6
    ensures Schedule1(m, 36) == 0x4ebed41e && Schedule1(m, 37) == 0x626380a1 && Schedule1(m, 38) == 0x16263806 && Schedule1(m, 39) == 0x000018c0
    ensures Schedule1(m, 40) == 0xd2e138c4 && Schedule1(m, 41) == 0x00000f00 && Schedule1(m, 42) == 0x3afb5079 && Schedule1(m, 43) == 0x898e04e5
    ensures Schedule1(m, 44) == 0xe2ba3c2b && Schedule1(m, 45) == 0x000060c0 && Schedule1(m, 46) == 0x053a37cd && Schedule1(m, 47) == 0x74458547
  {
    hide Schedule1, IsAbc;
    Words16(m);
    NextWord(m, 32, 0xc2c4c700, 0x00000030, 0x85898ec1, 0x000000f0, 0x8e9a9202);
    NextWord(m, 33, 0x00000000, 0x85898e01, 0x16263806, 0x93afb507, 0x00000600);
    NextWord(m, 34, 0x00000030, 0x00000000, 0x00000000, 0x5898e048, 0xb131c0f0);
    NextWord(m, 35, 0x85898e01, 0x00000060, 0x00000180, 0x8e9a9202, 0x16263bc6);
    NextWord(m, 36, 0x00000000, 0x0b131c03, 0x2c4c700c, 0x00000600, 0x4ebed41e);
    NextWord(m, 37, 0x00000060, 0x00000030, 0x000000f0, 0xb131c0f0, 0x626380a1);
    NextWord(m, 38, 0x0b131c03, 0x85898ec1, 0x93afb507, 0x16263bc6, 0x16263806);
    NextWord(m, 39, 0x00000030, 0x16263806, 0x5898e048, 0x4ebed41e, 0x000018c0);
    NextWord(m, 40, 0x85898ec1, 0x00000000, 0x8e9a9202, 0x626380a1, 0xd2e138c4);
    NextWord(m, 41, 0x16263806, 0x00000180, 0x00000600, 0x16263806, 0x00000f00);
    NextWord(m, 42, 0x00000000, 0x2c4c700c, 0xb131c0f0, 0x000018c0, 0x3afb5079);
    NextWord(m, 43, 0x00000180, 0x000000f0, 0x16263bc6, 0xd2e138c4, 0x898e04e5);
    NextWord(m, 44, 0x2c4c700c, 0x93afb507, 0x4ebed41e, 0x00000f00, 0xe2ba3c2b);
    NextWord(m, 45, 0x000000f0, 0x5898e048, 0x626380a1, 0x3afb5079, 0x000060c0);
    NextWord(m, 46, 0x93afb507, 0x8e9a9202, 0x16263806, 0x898e04e5, 0x053a37cd);
    NextWord(m, 47, 0x5898e048, 0x00000600, 0x000018c0, 0xe2ba3c2b, 0x74458547);
  }

  lemma Words48(m: seq<Byte>)
    requires IsAbc(m)
    ensures Schedule1(m, 48) == 0xda9415ed && Schedule1(m, 49) == 0x26380a16 && Schedule1(m, 50) == 0x626383a1 && Schedule1(m, 51) == 0x4ebf54de
    ensures Schedule1(m, 52) == 0x3835b44b && Schedule1(m, 53) == 0x0000f600 && Schedule1(m, 54) == 0x1e84c7a3 && Schedule1(m, 55) == 0x98e04d98
    ensures Schedule1(m, 56) == 0x651d16a0 && Schedule1(m, 57) == 0x62658ca1 && Schedule1(m, 58) == 0x458544d6 && Schedule1(m, 59) == 0x44584cb7
    ensures Schedule1(m, 60) == 0x7ba06619 && Schedule1(m, 61) == 0x6380aea2 && Schedule1(m, 62) == 0x0ae55269 && Schedule1(m, 63) == 0x627b49a1
  {
    hide Schedule1, IsAbc;
    Words32(m);
    NextWord(m, 48, 0x8e9a9202, 0xb131c0f0, 0xd2e138c4, 0x000060c0, 0xda9415ed);
    NextWord(m, 49, 0x00000600, 0x16263bc6, 0x00000f00, 0x053a37cd, 0x26380a16);
    NextWord(m, 50, 0xb131c0f0, 0x4ebed41e, 0x3afb5079, 0x74458547, 0x626383a1);
    NextWord(m, 51, 0x16263bc6, 0x626380a1, 0x898e04e5, 0xda9415ed, 0x4ebf54de);
    NextWord(m, 52, 0x4ebed41e, 0x16263806, 0xe2ba3c2b, 0x26380a16, 0x3835b44b);
    NextWord(m, 53, 0x626380a1, 0x000018c0, 0x000060c0, 0x626383a1, 0x0000f600);
    NextWord(m, 54, 0x16263806, 0xd2e138c4, 0x053a37cd, 0x4ebf54de, 0x1e84c7a3);
    NextWord(m, 55, 0x000018c0, 0x00000f00, 0x74458547, 0x3835b44b, 0x98e04d98);
    NextWord(m, 56, 0xd2e138c4, 0x3afb5079, 0xda9415ed, 0x0000f600, 0x651d16a0);
    NextWord(m, 57, 0x00000f00, 0x898e04e5, 0x26380a16, 0x1e84c7a3, 0x62658ca1);
    NextWord(m, 58, 0x3afb5079, 0xe2ba3c2b, 0x626383a1, 0x98e04d98, 0x458544d6);
    NextWord(m, 59, 0x898e04e5, 0x000060c0, 0x4ebf54de, 0x651d16a0, 0x44584cb7);
    NextWord(m, 60, 0xe2ba3c2b, 0x053a37cd, 0x3835b44b, 0x62658ca1, 0x7ba06619);
    NextWord(m, 61, 0x000060c0, 0x74458547, 0x0000f600, 0x458544d6, 0x6380aea2);
    NextWord(m, 62, 0x053a37cd, 0xda9415ed, 0x1e84c7a3, 0x44584cb7, 0x0ae55269);
    NextWord(m, 63, 0x74458547, 0x26380a16, 0x98e04d98, 0x7ba06619, 0x627b49a1);
  }

  lemma Words64(m: seq<Byte>)
    requires IsAbc(m)
    ensures Schedule1(m, 64) == 0x7cd45c9d && Schedule1(m, 65) == 0x000f0000 && Schedule1(m, 66) == 0xfb50753a && Schedule1(m, 67) == 0xec6765e8
    ensures Schedule1(m, 68) == 0xba3c2be2 && Schedule1(m, 69) == 0x0060c000 && Schedule1(m, 70) == 0x3a37cd05 && Schedule1(m, 71) == 0x458546f4
    ensures Schedule1(m, 72) == 0xb8599dd6 && Schedule1(m, 73) == 0x380a1a26 && Schedule1(m, 74) == 0x01e02203 && Schedule1(m, 75) == 0xe7cc3456
    ensures Schedule1(m, 76) == 0xe6e60b69 && Schedule1(m, 77) == 0x00f60a00 && Schedule1(m, 78) == 0x5795ef4f && Schedule1(m, 79) == 0x822e0879
  {
    hide Schedule1, IsAbc;
    Words48(m);
    NextWord(m, 64, 0xda9415ed, 0x626383a1, 0x651d16a0, 0x6380aea2, 0x7cd45c9d);
    NextWord(m, 65, 0x26380a16, 0x4ebf54de, 0x62658ca1, 0x0ae55269, 0x000f0000);
    NextWord(m, 66, 0x626383a1, 0x3835b44b, 0x458544d6, 0x627b49a1, 0xfb50753a);
    NextWord(m, 67, 0x4ebf54de, 0x0000f600, 0x44584cb7, 0x7cd45c9d, 0xec6765e8);
    NextWord(m, 68, 0x3835b44b, 0x1e84c7a3, 0x7ba06619, 0x000f0000, 0xba3c2be2);
    NextWord(m, 69, 0x0000f600, 0x98e04d98, 0x6380aea2, 0xfb50753a, 0x0060c000);
    NextWord(m, 70, 0x1e84c7a3, 0x651d16a0, 0x0ae55269, 0xec6765e8, 0x3a37cd05);
    NextWord(m, 71, 0x98e04d98, 0x62658ca1, 0x627b49a1, 0xba3c2be2, 0x458546f4);
    NextWord(m, 72, 0x651d16a0, 0x458544d6, 0x7cd45c9d, 0x0060c000, 0xb8599dd6);
    NextWord(m, 73, 0x62658ca1, 0x44584cb7, 0x000f0000, 0x3a37cd05, 0x380a1a26);
    NextWord(m, 74, 0x458544d6, 0x7ba06619, 0xfb50753a, 0x458546f4, 0x01e02203);
    NextWord(m, 75, 0x44584cb7, 0x6380aea2, 0xec6765e8, 0xb8599dd6, 0xe7cc3456);
    NextWord(m, 76, 0x7ba06619, 0x0ae55269, 0xba3c2be2, 0x380a1a26, 0xe6e60b69);
    NextWord(m, 77, 0x6380aea2, 0x627b49a1, 0x0060c000, 0x01e02203, 0x00f60a00);
    NextWord(m, 78, 0x0ae55269, 0x7cd45c9d, 0x3a37cd05, 0xe7cc3456, 0x5795ef4f);
    NextWord(m, 79, 0x627b49a1, 0x000f0000, 0x458546f4, 0xe6e60b69, 0x822e0879);
  }

  lemma Rounds48(v: Vars1, m: seq<Byte>)
    requires IsAbc(m) && v == Start()
    ensures Rounds1(v, m, 48) == Vars1(0xbead02ca, 0xa01b846c, 0x8714787c, 0x503ca382, 0xfb86c6ab)
  {
    hide Rounds1, Schedule1, IsAbc;
    FirstRounds(v, m);
    FirstWords(m);
    Words16(m);
    Words32(m);
    Next(v, m, 0, 0x67452301, 0xefcdab89, 0x98badcfe, 0x10325476, 0xc3d2e1f0, 0x5a827999, 0x61626380, 0xe8a4602c, 0x98badcfe, 0x7bf36ae2, 0x0116fc33);
    Next(v, m, 1, 0x0116fc33, 0x67452301, 0x7bf36ae2, 0x98badcfe, 0x10325476, 0x5a827999, 0x00000000, 0x22df8660, 0xfbfbfefe, 0x59d148c0, 0x8990536d);
    Next(v, m, 2, 0x8990536d, 0x0116fc33, 0x59d148c0, 0x7bf36ae2, 0x98badcfe, 0x5a827999, 0x00000000, 0x320a6db1, 0x7bf14ac0, 0xc045bf0c, 0xa1390f08);
    Next(v, m, 3, 0xa1390f08, 0x8990536d, 0xc045bf0c, 0x59d148c0, 0x7bf36ae2, 0x5a827999, 0x00000000, 0x2721e114, 0xd0411b8c, 0x626414db, 0xcdd8e11b);
    Next(v, m, 4, 0xcdd8e11b, 0xa1390f08, 0x626414db, 0xc045bf0c, 0x59d148c0, 0x5a827999, 0x00000000, 0xbb1c2379, 0x6064b40c, 0x284e43c2, 0xcfd499de);
    Next(v, m, 5, 0xcfd499de, 0xcdd8e11b, 0x284e43c2, 0x626414db, 0xc045bf0c, 0x5a827999, 0x00000000, 0xfa933bd9, 0x2a6c55c2, 0xf3763846, 0x3fc7ca40);
    Next(v, m, 6, 0x3fc7ca40, 0xcfd499de, 0xf3763846, 0x284e43c2, 0x626414db, 0x5a827999, 0x00000000, 0xf8f94807, 0xe35e5a46, 0xb3f52677, 0x993e30c1);
    Next(v, m, 7, 0x993e30c1, 0x3fc7ca40, 0xb3f52677, 0xf3763846, 0x284e43c2, 0x5a827999, 0x00000000, 0x27c61833, 0xf3f53246, 0x0ff1f290, 0x9e8c07d4);
    Next(v, m, 8, 0x9e8c07d4, 0x993e30c1, 0x0ff1f290, 0xb3f52677, 0xf3763846, 0x5a827999, 0x00000000, 0xd180fa93, 0x2bf136b6, 0x664f8c30, 0x4b6ae328);
    Next(v, m, 9, 0x4b6ae328, 0x9e8c07d4, 0x664f8c30, 0x0ff1f290, 0xb3f52677, 0x5a827999, 0x00000000, 0x6d5c6509, 0x077df410, 0x27a301f5, 0x8351f929);
    Next(v, m, 10, 0x8351f929, 0x4b6ae328, 0x27a301f5, 0x664f8c30, 0x0ff1f290, 0x5a827999, 0x00000000, 0x6a3f2530, 0x27270d30, 0x12dab8ca, 0xfbda9e89);
    Next(v, m, 11, 0xfbda9e89, 0x8351f929, 0x12dab8ca, 0x27a301f5, 0x664f8c30, 0x5a827999, 0x00000000, 0x7b53d13f, 0x26f2b8dc, 0x60d47e4a, 0x63188fe4);
    Next(v, m, 12, 0x63188fe4, 0xfbda9e89, 0x60d47e4a, 0x12dab8ca, 0x27a301f5, 0x5a827999, 0x00000000, 0x6311fc8c, 0x60d03e4a, 0x7ef6a7a2, 0x4607b664);
    Next(v, m, 13, 0x4607b664, 0x63188fe4, 0x7ef6a7a2, 0x60d47e4a, 0x12dab8ca, 0x5a827999, 0x00000000, 0xc0f6cc88, 0x62d4f7aa, 0x18c623f9, 0x9128f695);
    Next(v, m, 14, 0x9128f695, 0x4607b664, 0x18c623f9, 0x7ef6a7a2, 0x60d47e4a, 0x5a827999, 0x00000000, 0x251ed2b2, 0x38f623e2, 0x1181ed99, 0x196bee77);
    Next(v, m, 15, 0x196bee77, 0x9128f695, 0x1181ed99, 0x18c623f9, 0x7ef6a7a2, 0x5a827999, 0x00000018, 0x2d7dcee3, 0x19c6e5f9, 0x644a3da5, 0x20bdd62f);
    Next(v, m, 16, 0x20bdd62f, 0x196bee77, 0x644a3da5, 0x1181ed99, 0x18c623f9, 0x5a827999, 0xc2c4c700, 0x17bac5e4, 0x00ca2dad, 0xc65afb9d, 0x4e925823);
    Next(v, m, 17, 0x4e925823, 0x20bdd62f, 0xc65afb9d, 0x644a3da5, 0x1181ed99, 0x5a827999, 0x00000000, 0xd24b0469, 0x445afb8d, 0xc82f758b, 0x82aa6728);
    Next(v, m, 18, 0x82aa6728, 0x4e925823, 0xc82f758b, 0xc65afb9d, 0x644a3da5, 0x5a827999, 0x00000030, 0x554ce510, 0xc84af39f, 0xd3a49608, 0xdc64901d);
    Next(v, m, 19, 0xdc64901d, 0x82aa6728, 0xd3a49608, 0xc82f758b, 0xc65afb9d, 0x5a827999, 0x85898e01, 0x8c9203bb, 0xcaa5168b, 0x20aa99ca, 0xfd9e1d7d);
    Next(v, m, 20, 0xfd9e1d7d, 0xdc64901d, 0x20aa99ca, 0xd3a49608, 0xc82f758b, 0x6ed9eba1, 0x00000000, 0xb3c3afbf, 0x2f6a9fdf, 0x77192407, 0x1a37b0ca);
    Next(v, m, 21, 0x1a37b0ca, 0xfd9e1d7d, 0x77192407, 0x20aa99ca, 0xd3a49608, 0x6ed9eba1, 0x00000060, 0x46f61943, 0xaa2da0b0, 0x7f67875f, 0x33a23bfc);
    Next(v, m, 22, 0x33a23bfc, 0x1a37b0ca, 0x7f67875f, 0x77192407, 0x20aa99ca, 0x6ed9eba1, 0x0b131c03, 0x74477f86, 0x12491392, 0x868dec32, 0x21283486);
    Next(v, m, 23, 0x21283486, 0x33a23bfc, 0x868dec32, 0x7f67875f, 0x77192407, 0x6ed9eba1, 0x00000030, 0x250690c4, 0xca485091, 0x0ce88eff, 0xd541f12d);
    Next(v, m, 24, 0xd541f12d, 0x21283486, 0x0ce88eff, 0x868dec32, 0x7f67875f, 0x6ed9eba1, 0x85898ec1, 0xa83e25ba, 0xab4d564b, 0x884a0d21, 0xc7567dc6);
    Next(v, m, 25, 0xc7567dc6, 0xd541f12d, 0x884a0d21, 0x0ce88eff, 0x868dec32, 0x6ed9eba1, 0x16263806, 0xeacfb8d8, 0x51e372f3, 0x75507c4b, 0x48413ba4);
    Next(v, m, 26, 0x48413ba4, 0xc7567dc6, 0x75507c4b, 0x884a0d21, 0x0ce88eff, 0x6ed9eba1, 0x00000000, 0x08277489, 0x3a4c0cac, 0xb1d59f71, 0xbe35fbd5);
    Next(v, m, 27, 0xbe35fbd5, 0x48413ba4, 0xb1d59f71, 0x75507c4b, 0x884a0d21, 0x6ed9eba1, 0x00000180, 0xc6bf7ab7, 0x8cc4d89e, 0x12104ee9, 0x4aa84d97);
    Next(v, m, 28, 0x4aa84d97, 0xbe35fbd5, 0x12104ee9, 0xb1d59f71, 0x75507c4b, 0x6ed9eba1, 0x2c4c700c, 0x5509b2e9, 0x1df02a4d, 0x6f8d7ef5, 0x8370b52e);
    Next(v, m, 29, 0x8370b52e, 0x4aa84d97, 0x6f8d7ef5, 0x12104ee9, 0xb1d59f71, 0x6ed9eba1, 0x000000f0, 0x6e16a5d0, 0x37357d8b, 0xd2aa1365, 0xc5fbaf5d);
    Next(v, m, 30, 0xc5fbaf5d, 0x8370b52e, 0xd2aa1365, 0x6f8d7ef5, 0x12104ee9, 0x6ed9eba1, 0x93afb507, 0xbf75ebb8, 0x3e57d8be, 0xa0dc2d4b, 0x1267b407);
    Next(v, m, 31, 0x1267b407, 0xc5fbaf5d, 0xa0dc2d4b, 0xd2aa1365, 0x6f8d7ef5, 0x6ed9eba1, 0x5898e048, 0x4cf680e2, 0xb78d9173, 0x717eebd7, 0x3b845d33);
    Next(v, m, 32, 0x3b845d33, 0x1267b407, 0x717eebd7, 0xa0dc2d4b, 0xd2aa1365, 0x6ed9eba1, 0x8e9a9202, 0x708ba667, 0xc3c5729b, 0xc499ed01, 0x046faa0a);
    Next(v, m, 33, 0x046faa0a, 0x3b845d33, 0xc499ed01, 0x717eebd7, 0xa0dc2d4b, 0x6ed9eba1, 0x00000600, 0x8df54140, 0x8e635be5, 0xcee1174c, 0x2c0ebc11);
    Next(v, m, 34, 0x2c0ebc11, 0x046faa0a, 0xcee1174c, 0xc499ed01, 0x717eebd7, 0x6ed9eba1, 0xb131c0f0, 0x81d78225, 0x0e175047, 0x811bea82, 0x21796ad4);
    Next(v, m, 35, 0x21796ad4, 0x2c0ebc11, 0x811bea82, 0xcee1174c, 0xc499ed01, 0x6ed9eba1, 0x16263bc6, 0x2f2d5a84, 0x63f441df, 0x4b03af04, 0xdcbbb0cb);
    Next(v, m, 36, 0xdcbbb0cb, 0x21796ad4, 0x4b03af04, 0x811bea82, 0xcee1174c, 0x6ed9eba1, 0x4ebed41e, 0x9776197b, 0xeb612f52, 0x085e5ab5, 0x0f511fd8);
    Next(v, m, 37, 0x0f511fd8, 0xdcbbb0cb, 0x085e5ab5, 0x4b03af04, 0x811bea82, 0x6ed9eba1, 0x626380a1, 0xea23fb01, 0x9fe6457a, 0xf72eec32, 0xdc63973f);
    Next(v, m, 38, 0xdc63973f, 0x0f511fd8, 0xf72eec32, 0x085e5ab5, 0x4b03af04, 0x6ed9eba1, 0x16263806, 0x8c72e7fb, 0xf021a95f, 0x03d447f6, 0x4c986405);
    Next(v, m, 39, 0x4c986405, 0xdc63973f, 0x03d447f6, 0xf72eec32, 0x085e5ab5, 0x6ed9eba1, 0x000018c0, 0x930c80a9, 0x28993cfb, 0xf718e5cf, 0x32de1cba);
    Next(v, m, 40, 0x32de1cba, 0x4c986405, 0xf718e5cf, 0x03d447f6, 0xf72eec32, 0x8f1bbcdc, 0xd2e138c4, 0x5bc39746, 0x479865c7, 0x53261901, 0xfc87dedf);
    Next(v, m, 41, 0xfc87dedf, 0x32de1cba, 0x53261901, 0xf718e5cf, 0x03d447f6, 0x8f1bbcdc, 0x00000f00, 0x90fbdbff, 0x731e1d8b, 0x8cb7872e, 0x970a0d5c);
    Next(v, m, 42, 0x970a0d5c, 0xfc87dedf, 0x8cb7872e, 0x53261901, 0xf718e5cf, 0x8f1bbcdc, 0x3afb5079, 0xe141ab92, 0xdca79f0f, 0xff21f7b7, 0x7f193dc5);
    Next(v, m, 43, 0x7f193dc5, 0x970a0d5c, 0xff21f7b7, 0x8cb7872e, 0x53261901, 0x8f1bbcdc, 0x898e04e5, 0xe327b8af, 0x9f23873e, 0x25c28357, 0xee1b1aaf);
    Next(v, m, 44, 0xee1b1aaf, 0x7f193dc5, 0x25c28357, 0xff21f7b7, 0x8cb7872e, 0x8f1bbcdc, 0xe2ba3c2b, 0xc36355fd, 0x7f01b7d7, 0x5fc64f71, 0x40f28e09);
    Next(v, m, 45, 0x40f28e09, 0xee1b1aaf, 0x5fc64f71, 0x25c28357, 0xff21f7b7, 0x8f1bbcdc, 0x000060c0, 0x1e51c128, 0x6fc20b77, 0xfb86c6ab, 0x1c51e1f2);
    Next(v, m, 46, 0x1c51e1f2, 0x40f28e09, 0xfb86c6ab, 0x5fc64f71, 0x25c28357, 0x8f1bbcdc, 0x053a37cd, 0x8a3c3e43, 0x5bc6ce29, 0x503ca382, 0xa01b846c);
    Next(v, m, 47, 0xa01b846c, 0x1c51e1f2, 0x503ca382, 0xfb86c6ab, 0x5fc64f71, 0x8f1bbcdc, 0x74458547, 0x03708d94, 0x5814e3a2, 0x8714787c, 0xbead02ca);
  }

  lemma AbcState(m: seq<Byte>)
    requires IsAbc(m)
    ensures Compress1(INITIAL1, m) == [0xa9993e36, 0x4706816a, 0xba3e2571, 0x7850c26c, 0x9cd0d89d]
  {
    hide Rounds1, Schedule1, IsAbc;
    Rounds48(Start(), m);
    Words48(m);
    Words64(m);
    Next(Start(), m, 48, 0xbead02ca, 0xa01b846c, 0x8714787c, 0x503ca382, 0xfb86c6ab, 0x8f1bbcdc, 0xda9415ed, 0xd5a05957, 0x801ca06c, 0x2806e11b, 0xbaf39337);
    Next(Start(), m, 49, 0xbaf39337, 0xbead02ca, 0x2806e11b, 0x8714787c, 0x503ca382, 0x8f1bbcdc, 0x26380a16, 0x5e7266f7, 0xae04605a, 0xafab40b2, 0x120731c5);
    Next(Start(), m, 50, 0x120731c5, 0xbaf39337, 0xafab40b2, 0x2806e11b, 0x8714787c, 0x8f1bbcdc, 0x626383a1, 0x40e638a2, 0xaaa3c133, 0xeebce4cd, 0x641db2ce);
    Next(Start(), m, 51, 0x641db2ce, 0x120731c5, 0xeebce4cd, 0xafab40b2, 0x2806e11b, 0x8f1bbcdc, 0x4ebf54de, 0x83b659cc, 0xaeaf60c5, 0x4481cc71, 0x3847ad66);
    Next(Start(), m, 52, 0x3847ad66, 0x641db2ce, 0x4481cc71, 0xeebce4cd, 0xafab40b2, 0x8f1bbcdc, 0x3835b44b, 0x08f5acc7, 0x649de4cd, 0x99076cb3, 0xe490436d);
    Next(Start(), m, 53, 0xe490436d, 0x3847ad66, 0x99076cb3, 0x4481cc71, 0xeebce4cd, 0x8f1bbcdc, 0x0000f600, 0x92086dbc, 0x1807ec73, 0x8e11eb59, 0x27e9f1d8);
    Next(Start(), m, 54, 0x27e9f1d8, 0xe490436d, 0x8e11eb59, 0x99076cb3, 0x4481cc71, 0x8f1bbcdc, 0x1e84c7a3, 0xfd3e3b04, 0x8c116b79, 0x792410db, 0x7b71f76d);
    Next(Start(), m, 55, 0x7b71f76d, 0x27e9f1d8, 0x792410db, 0x8e11eb59, 0x99076cb3, 0x8f1bbcdc, 0x98e04d98, 0x6e3eedaf, 0x2f21f1d9, 0x09fa7c76, 0x5e6456af);
    Next(Start(), m, 56, 0x5e6456af, 0x7b71f76d, 0x09fa7c76, 0x792410db, 0x8e11eb59, 0x8f1bbcdc, 0x651d16a0, 0xcc8ad5eb, 0x7970747f, 0x5edc7ddb, 0xc846093f);
    Next(Start(), m, 57, 0xc846093f, 0x5e6456af, 0x5edc7ddb, 0x09fa7c76, 0x792410db, 0x8f1bbcdc, 0x62658ca1, 0x08c127f9, 0x5efc7cff, 0xd79915ab, 0xd262ff50);
    Next(Start(), m, 58, 0xd262ff50, 0xc846093f, 0xd79915ab, 0x5edc7ddb, 0x09fa7c76, 0x8f1bbcdc, 0x458544d6, 0x4c5fea1a, 0xdedc1dbb, 0xf211824f, 0x09d785fd);
    Next(Start(), m, 59, 0x09d785fd, 0xd262ff50, 0xf211824f, 0xd79915ab, 0x5edc7ddb, 0x8f1bbcdc, 0x44584cb7, 0x3af0bfa1, 0xd211974b, 0x3498bfd4, 0x3f52de5a);
    Next(Start(), m, 60, 0x3f52de5a, 0x09d785fd, 0x3498bfd4, 0xf211824f, 0xd79915ab, 0xca62c1d6, 0x7ba06619, 0xea5bcb47, 0xcf5eb866, 0x4275e17f, 0xd756c147);
    Next(Start(), m, 61, 0xd756c147, 0x3f52de5a, 0x4275e17f, 0x3498bfd4, 0xf211824f, 0xca62c1d6, 0x6380aea2, 0xead828fa, 0x49bf80f1, 0x8fd4b796, 0x548c9cb2);
    Next(Start(), m, 62, 0x548c9cb2, 0xd756c147, 0x8fd4b796, 0x4275e17f, 0x3498bfd4, 0xca62c1d6, 0x0ae55269, 0x9193964a, 0x1af797ae, 0xf5d5b051, 0xb66c020b);
    Next(Start(), m, 63, 0xb66c020b, 0x548c9cb2, 0xf5d5b051, 0x8fd4b796, 0x4275e17f, 0xca62c1d6, 0x627b49a1, 0xcd804176, 0x2e8d9b75, 0x9523272c, 0x6b61c9e1);
    Next(Start(), m, 64, 0x6b61c9e1, 0xb66c020b, 0x9523272c, 0xf5d5b051, 0x8fd4b796, 0xca62c1d6, 0x7cd45c9d, 0x6c393c2d, 0xd69a9576, 0xed9b0082, 0x19dfa7ac);
    Next(Start(), m, 65, 0x19dfa7ac, 0x6b61c9e1, 0xed9b0082, 0x9523272c, 0xf5d5b051, 0xca62c1d6, 0x000f0000, 0x3bf4f583, 0x13d9ee4f, 0x5ad87278, 0x101655f9);
    Next(Start(), m, 66, 0x101655f9, 0x19dfa7ac, 0x5ad87278, 0xed9b0082, 0x9523272c, 0xca62c1d6, 0xfb50753a, 0x02cabf22, 0xae9cd556, 0x0677e9eb, 0x0c3df2b4);
    Next(Start(), m, 67, 0x0c3df2b4, 0x101655f9, 0x0677e9eb, 0x5ad87278, 0xed9b0082, 0xca62c1d6, 0xec6765e8, 0x87be5681, 0x4cb9ce6a, 0x4405957e, 0x78dd4d2b);
    Next(Start(), m, 68, 0x78dd4d2b, 0x0c3df2b4, 0x4405957e, 0x0677e9eb, 0x5ad87278, 0xca62c1d6, 0xba3c2be2, 0x1ba9a56f, 0x4e4f8e21, 0x030f7cad, 0x497093c0);
    Next(Start(), m, 69, 0x497093c0, 0x78dd4d2b, 0x030f7cad, 0x4405957e, 0x0677e9eb, 0xca62c1d6, 0x0060c000, 0x2e127809, 0x3fd7a4f8, 0xde37534a, 0x3f2588c2);
    Next(Start(), m, 70, 0x3f2588c2, 0x497093c0, 0xde37534a, 0x030f7cad, 0x4405957e, 0xca62c1d6, 0x3a37cd05, 0xe4b11847, 0x9448bc27, 0x125c24f0, 0xc199f8c7);
    Next(Start(), m, 71, 0xc199f8c7, 0x3f2588c2, 0x125c24f0, 0xde37534a, 0x030f7cad, 0xca62c1d6, 0x458546f4, 0x333f18f8, 0xf34eff78, 0x8fc96230, 0x39859de7);
    Next(Start(), m, 72, 0x39859de7, 0xc199f8c7, 0x8fc96230, 0x125c24f0, 0xde37534a, 0xca62c1d6, 0xb8599dd6, 0x30b3bce7, 0x5c0cbe07, 0xf0667e31, 0xedb42de4);
    Next(Start(), m, 73, 0xedb42de4, 0x39859de7, 0xf0667e31, 0x8fc96230, 0x125c24f0, 0xca62c1d6, 0x380a1a26, 0xb685bc9d, 0x462a81e6, 0xce616779, 0x11793f6f);
    Next(Start(), m, 74, 0x11793f6f, 0xedb42de4, 0xce616779, 0xf0667e31, 0x8fc96230, 0xca62c1d6, 0x01e02203, 0x2f27ede2, 0xd3b334ac, 0x3b6d0b79, 0x5ee76897);
    Next(Start(), m, 75, 0x5ee76897, 0x11793f6f, 0x3b6d0b79, 0xce616779, 0xf0667e31, 0xca62c1d6, 0xe7cc3456, 0xdced12eb, 0xe475536f, 0xc45e4fdb, 0x63f7dab7);
    Next(Start(), m, 76, 0x63f7dab7, 0x5ee76897, 0xc45e4fdb, 0x3b6d0b79, 0xce616779, 0xca62c1d6, 0xe6e60b69, 0x7efb56ec, 0xa1d42c35, 0xd7b9da25, 0xa079b7d9);
    Next(Start(), m, 77, 0xa079b7d9, 0x63f7dab7, 0xd7b9da25, 0xc45e4fdb, 0x3b6d0b79, 0xca62c1d6, 0x00f60a00, 0x0f36fb34, 0x70104f49, 0xd8fdf6ad, 0x860d21cc);
    Next(Start(), m, 78, 0x860d21cc, 0xa079b7d9, 0xd8fdf6ad, 0xd7b9da25, 0xc45e4fdb, 0xca62c1d6, 0x5795ef4f, 0xc1a43990, 0xaf3d9b51, 0x681e6df6, 0x5738d5e1);
    Next(Start(), m, 79, 0x5738d5e1, 0x860d21cc, 0x681e6df6, 0xd8fdf6ad, 0xd7b9da25, 0xca62c1d6, 0x822e0879, 0xe71abc2a, 0x36eeba97, 0x21834873, 0x42541b35);
  }

  // The digest of the example in FIPS 180-4.
  lemma DigestAbc()
    ensures Digest(SHA1, ABC) == [
              0xa9, 0x99, 0x3e, 0x36, 0x47, 0x06, 0x81, 0x6a, 0xba, 0x3e,
              0x25, 0x71, 0x78, 0x50, 0xc2, 0x6c, 0x9c, 0xd0, 0xd8, 0x9d]
  {
    hide Compress1, Blocks, Padded, IsAbc, Digest, Split;
    OneBlock(SHA1);
    AbcState(Padded(ABC));
    FiveWords(0xa9993e36, 0x4706816a, 0xba3e2571, 0x7850c26c, 0x9cd0d89d);
    SplitsAbc();
  }

  lemma SplitsAbc()
    ensures Split(0xa9993e36) == [0xa9, 0x99, 0x3e, 0x36]
    ensures Split(0x4706816a) == [0x47, 0x06, 0x81, 0x6a]
    ensures Split(0xba3e2571) == [0xba, 0x3e, 0x25, 0x71]
    ensures Split(0x7850c26c) == [0x78, 0x50, 0xc2, 0x6c]
    ensures Split(0x9cd0d89d) == [0x9c, 0xd0, 0xd8, 0x9d]
  {
  }

  lemma FiveWords(a: Word, b: Word, c: Word, d: Word, e: Word)
    ensures Bytewise([a, b, c, d, e]) == Split(a) + Split(b) + Split(c) + Split(d) + Split(e)
  {
    hide Split;
    assert Bytewise([]) == [] && [] + [a] == [a] && [a] + [b] == [a, b] && [a, b] + [c] == [a, b, c];
    assert [a, b, c] + [d] == [a, b, c, d] && [a, b, c, d] + [e] == [a, b, c, d, e];
    BytewiseNext([], a);
    BytewiseNext([a], b);
    BytewiseNext([a, b], c);
    BytewiseNext([a, b, c], d);
    BytewiseNext([a, b, c, d], e);
  }
}
