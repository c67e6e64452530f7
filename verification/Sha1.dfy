/** sha.c: the compression function of SHA-1 (section 6.1.2 of FIPS 180-4). */
module Sha1 {
  import opened BigNum
  import opened Bytes
  import opened Sha256

  function RolBits(a: bv32, n: nat): (r: bv32)
    requires 0 < n < 32
  {
    (a << (n as bv6)) | (a >> ((32 - n) as bv6))
  }

  function Rol(x: Word, n: nat): (r: Word)
    requires 0 < n < 32
  {
    ToWord(RolBits(ToBits(x), n))
  }

  function Parity(x: Word, y: Word, z: Word): (r: Word) {
    ToWord(Xor3(ToBits(x), ToBits(y), ToBits(z)))
  }

  function Xor4Bits(a: bv32, b: bv32, c: bv32, d: bv32): (r: bv32) {
    a ^ b ^ c ^ d
  }

  function Xor4(x: Word, y: Word, z: Word, w: Word): (r: Word) {
    ToWord(Xor4Bits(ToBits(x), ToBits(y), ToBits(z), ToBits(w)))
  }

  // The forms of Ch and Maj that the source computes.
  function ChFormBits(a: bv32, b: bv32, c: bv32): (r: bv32) {
    c ^ (a & (b ^ c))
  }

  function MajFormBits(a: bv32, b: bv32, c: bv32): (r: bv32) {
    (a & b) | (c & (a | b))
  }

  function ChForm(x: Word, y: Word, z: Word): (r: Word) {
    ToWord(ChFormBits(ToBits(x), ToBits(y), ToBits(z)))
  }

  function MajForm(x: Word, y: Word, z: Word): (r: Word) {
    ToWord(MajFormBits(ToBits(x), ToBits(y), ToBits(z)))
  }

  lemma ChSame(a: bv32, b: bv32, c: bv32)
    ensures c ^ (a & (b ^ c)) == (a & b) ^ (!a & c)
  {
  }

  lemma MajSame(a: bv32, b: bv32, c: bv32)
    ensures (a & b) | (c & (a | b)) == (a & b) ^ (a & c) ^ (b & c)
  {
  }

  lemma FormBits(a: bv32, b: bv32, c: bv32)
    ensures ChFormBits(a, b, c) == ChBits(a, b, c)
    ensures MajFormBits(a, b, c) == MajBits(a, b, c)
  {
    ChSame(a, b, c);
    MajSame(a, b, c);
  }

  // They are the functions of section 4.1.1.
  lemma FormsAgree(x: Word, y: Word, z: Word)
    ensures ChForm(x, y, z) == Ch(x, y, z) && MajForm(x, y, z) == Maj(x, y, z)
  {
    hide ToBits, ToWord, ChFormBits, MajFormBits, ChBits, MajBits;
    FormBits(ToBits(x), ToBits(y), ToBits(z));
  }

  const INITIAL1: seq<Word> := [0x67452301, 0xefcdab89, 0x98badcfe, 0x10325476, 0xc3d2e1f0]

  // The function and the constant of round t, sections 4.1.1 and 4.2.1.
  function F(t: nat, x: Word, y: Word, z: Word): (r: Word) {
    if t < 20 then Ch(x, y, z) else if 40 <= t < 60 then Maj(x, y, z) else Parity(x, y, z)
  }

  function K1(t: nat): (k: Word) {
    if t < 20 then 0x5a827999 else if t < 40 then 0x6ed9eba1 else if t < 60 then 0x8f1bbcdc else 0xca62c1d6
  }

  // Word t of the message schedule.
  function Schedule1(block: seq<Byte>, t: nat): (w: Word)
    requires |block| == 64
  {
    if t < 16 then WordOf(block, 4 * t)
    else Rol(Xor4(Schedule1(block, t - 3), Schedule1(block, t - 8), Schedule1(block, t - 14), Schedule1(block, t - 16)), 1)
  }

  datatype Vars1 = Vars1(a: Word, b: Word, c: Word, d: Word, e: Word)

  // One round of section 6.1.2, step 3.
  function Round1(v: Vars1, t: nat, w: Word): (r: Vars1) {
    var sum := Add(Add(Add(Add(Rol(v.a, 5), F(t, v.b, v.c, v.d)), v.e), K1(t)), w);
    Vars1(sum, v.a, Rol(v.b, 30), v.c, v.d)
  }

  function Rounds1(v: Vars1, block: seq<Byte>, t: nat): (r: Vars1)
    requires |block| == 64
  {
    if t == 0 then v else Round1(Rounds1(v, block, t - 1), t - 1, Schedule1(block, t - 1))
  }

  function Compress1(s: seq<Word>, block: seq<Byte>): (r: seq<Word>)
    requires |s| == 5 && |block| == 64
    ensures |r| == 5
  {
    var v := Rounds1(Vars1(s[0], s[1], s[2], s[3], s[4]), block, 80);
    [Add(s[0], v.a), Add(s[1], v.b), Add(s[2], v.c), Add(s[3], v.d), Add(s[4], v.e)]
  }

  lemma ScheduleStep(block: seq<Byte>, t: nat)
    requires |block| == 64
    ensures t < 16 ==> Schedule1(block, t) == Sum4(block[4 * t], block[4 * t + 1], block[4 * t + 2], block[4 * t + 3])
    ensures t >= 16 ==>
              Schedule1(block, t)
              == Rol(Xor4(Schedule1(block, t - 3), Schedule1(block, t - 8), Schedule1(block, t - 14), Schedule1(block, t - 16)), 1)
  {
    hide Rol, Xor4;
  }

  method FillSchedule1(buf: array<Byte>) returns (w: array<Word>)
    requires buf.Length == 64
    ensures fresh(w) && w.Length == 80
    ensures forall k :: 0 <= k < 80 ==> w[k] == Schedule1(buf[..], k)
  {
    hide Rol, Xor4, Schedule1, Join, Sum4;
    w := new Word[80](i => 0);
    ghost var block := buf[..];
    var t := 0;
    while t < 16
      invariant 0 <= t <= 16 && buf[..] == block
      invariant forall k :: 0 <= k < t ==> w[k] == Schedule1(block, k)
    {
      ScheduleStep(block, t);
      JoinSum(buf[4 * t], buf[4 * t + 1], buf[4 * t + 2], buf[4 * t + 3]);
      w[t] := Join(buf[4 * t], buf[4 * t + 1], buf[4 * t + 2], buf[4 * t + 3]);
      t := t + 1;
    }
    while t < 80
      invariant 16 <= t <= 80 && buf[..] == block
      invariant forall k :: 0 <= k < t ==> w[k] == Schedule1(block, k)
    {
      ScheduleStep(block, t);
      w[t] := Rol(Xor4(w[t - 3], w[t - 8], w[t - 14], w[t - 16]), 1);
      t := t + 1;
    }
  }

  // The sum of a round in the order in which the source adds it up.
  lemma RoundSum(a: Word, e: Word, w: Word, f: Word, k: Word)
    ensures Add(Add(Add(a, e), w), Add(f, k)) == Add(Add(Add(Add(a, f), e), k), w)
  {
    hide Add;
    AddAssoc(Add(Add(a, e), w), f, k);
    AddComm(Add(Add(a, e), w), f);
    AddAssoc(f, Add(a, e), w);
    AddAssoc(f, a, e);
    AddComm(f, a);
    AddAssoc(Add(Add(a, f), e), w, k);
    AddComm(w, k);
    AddAssoc(Add(Add(a, f), e), k, w);
  }

  lemma RoundsStep(v: Vars1, block: seq<Byte>, t: nat)
    requires |block| == 64
    ensures Rounds1(v, block, 0) == v
    ensures Rounds1(v, block, t + 1) == Round1(Rounds1(v, block, t), t, Schedule1(block, t))
  {
    hide Round1, Schedule1;
  }

  // What the source adds in round t.
  function Mix(t: nat, b: Word, c: Word, d: Word): (r: Word) {
    if t < 20 then Add(ChForm(b, c, d), 0x5a827999)
    else if t < 40 then Add(Parity(b, c, d), 0x6ed9eba1)
    else if t < 60 then Add(MajForm(b, c, d), 0x8f1bbcdc)
    else Add(Parity(b, c, d), 0xca62c1d6)
  }

  lemma MixIs(t: nat, b: Word, c: Word, d: Word)
    ensures Mix(t, b, c, d) == Add(F(t, b, c, d), K1(t))
  {
    hide Add, ChForm, MajForm, Ch, Maj, Parity;
    FormsAgree(b, c, d);
  }

  // SHA1_Transform: one block into the state.
  method Transform1(state: array<Word>, buf: array<Byte>)
    requires state.Length == 5 && buf.Length == 64
    modifies state
    ensures state[..] == Compress1(old(state[..]), buf[..])
  {
    hide Rounds1, Schedule1, Rol, Mix, F, K1, Add;
    var w := FillSchedule1(buf);
    ghost var block, s := buf[..], state[..];
    ghost var v := Vars1(state[0], state[1], state[2], state[3], state[4]);
    var a, b, c, d, e := state[0], state[1], state[2], state[3], state[4];
    RoundsStep(v, block, 0);
    var t := 0;
    while t < 80
      invariant 0 <= t <= 80 && Vars1(a, b, c, d, e) == Rounds1(v, block, t)
      invariant forall k :: 0 <= k < 80 ==> w[k] == Schedule1(block, k)
      invariant state[..] == s
    {
      RoundsStep(v, block, t);
      RoundSum(Rol(a, 5), e, w[t], F(t, b, c, d), K1(t));
      MixIs(t, b, c, d);
      var tmp := Add(Add(Rol(a, 5), e), w[t]);
      tmp := Add(tmp, Mix(t, b, c, d));
      e := d;
      d := c;
      c := Rol(b, 30);
      b := a;
      a := tmp;
      t := t + 1;
    }
    assert forall k :: 0 <= k < 5 ==> state[k] == s[k];
    state[0], state[1], state[2] := Add(state[0], a), Add(state[1], b), Add(state[2], c);
    state[3], state[4] := Add(state[3], d), Add(state[4], e);
    assert state[..] == Compress1(s, block);
  }
}
