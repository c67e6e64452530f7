/** sha256.c: the compression function of SHA-256 (section 6.2.2 of FIPS 180-4). */
module Sha256 {
  import opened BigNum
  import opened Bytes

  // A word as 32 bits and back.
  function ToBits(x: Word): (b: bv32) {
    x as bv32
  }

  function ToWord(b: bv32): (x: Word) {
    b as int
  }

  // Addition modulo 2^32.
  function Add(x: Word, y: Word): (r: Word) {
    U32(x as int + y)
  }

  function Ror(a: bv32, n: nat): (r: bv32)
    requires 0 < n < 32
  {
    (a >> (n as bv6)) | (a << ((32 - n) as bv6))
  }

  // The functions of section 4.1.2.
  function ChBits(a: bv32, b: bv32, c: bv32): (r: bv32) {
    (a & b) ^ (!a & c)
  }

  function MajBits(a: bv32, b: bv32, c: bv32): (r: bv32) {
    (a & b) ^ (a & c) ^ (b & c)
  }

  function Ch(x: Word, y: Word, z: Word): (r: Word) {
    ToWord(ChBits(ToBits(x), ToBits(y), ToBits(z)))
  }

  function Maj(x: Word, y: Word, z: Word): (r: Word) {
    ToWord(MajBits(ToBits(x), ToBits(y), ToBits(z)))
  }

  function Xor3(a: bv32, b: bv32, c: bv32): (r: bv32) {
    a ^ b ^ c
  }

  function BigSigma0(x: Word): (r: Word) {
    ToWord(Xor3(Ror(ToBits(x), 2), Ror(ToBits(x), 13), Ror(ToBits(x), 22)))
  }

  function BigSigma1(x: Word): (r: Word) {
    ToWord(Xor3(Ror(ToBits(x), 6), Ror(ToBits(x), 11), Ror(ToBits(x), 25)))
  }

  function SmallSigma0(x: Word): (r: Word) {
    ToWord(Xor3(Ror(ToBits(x), 7), Ror(ToBits(x), 18), ToBits(x) >> 3))
  }

  function SmallSigma1(x: Word): (r: Word) {
    ToWord(Xor3(Ror(ToBits(x), 17), Ror(ToBits(x), 19), ToBits(x) >> 10))
  }

  // The big-endian word of four bytes.
  function WordOf(b: seq<Byte>, at: nat): (w: Word)
    requires at + 4 <= |b|
  {
    Sum4(b[at], b[at + 1], b[at + 2], b[at + 3])
  }

  // The constants of section 4.2.2, eight in a row.
  const K: seq<Word> :=
    [0x428a2f98, 0x71374491, 0xb5c0fbcf, 0xe9b5dba5, 0x3956c25b, 0x59f111f1, 0x923f82a4, 0xab1c5ed5]
    + [0xd807aa98, 0x12835b01, 0x243185be, 0x550c7dc3, 0x72be5d74, 0x80deb1fe, 0x9bdc06a7, 0xc19bf174]
    + [0xe49b69c1, 0xefbe4786, 0x0fc19dc6, 0x240ca1cc, 0x2de92c6f, 0x4a7484aa, 0x5cb0a9dc, 0x76f988da]
    + [0x983e5152, 0xa831c66d, 0xb00327c8, 0xbf597fc7, 0xc6e00bf3, 0xd5a79147, 0x06ca6351, 0x14292967]
    + [0x27b70a85, 0x2e1b2138, 0x4d2c6dfc, 0x53380d13, 0x650a7354, 0x766a0abb, 0x81c2c92e, 0x92722c85]
    + [0xa2bfe8a1, 0xa81a664b, 0xc24b8b70, 0xc76c51a3, 0xd192e819, 0xd6990624, 0xf40e3585, 0x106aa070]
    + [0x19a4c116, 0x1e376c08, 0x2748774c, 0x34b0bcb5, 0x391c0cb3, 0x4ed8aa4a, 0x5b9cca4f, 0x682e6ff3]
    + [0x748f82ee, 0x78a5636f, 0x84c87814, 0x8cc70208, 0x90befffa, 0xa4506ceb, 0xbef9a3f7, 0xc67178f2]

  const INITIAL: seq<Word> := [0x6a09e667, 0xbb67ae85, 0x3c6ef372, 0xa54ff53a, 0x510e527f, 0x9b05688c, 0x1f83d9ab, 0x5be0cd19]

  // Word t of the message schedule.
  function Schedule(block: seq<Byte>, t: nat): (w: Word)
    requires |block| == 64
  {
    if t < 16 then WordOf(block, 4 * t)
    else Add(Add(Add(SmallSigma1(Schedule(block, t - 2)), Schedule(block, t - 7)), SmallSigma0(Schedule(block, t - 15))), Schedule(block, t - 16))
  }

  datatype Vars = Vars(a: Word, b: Word, c: Word, d: Word, e: Word, f: Word, g: Word, h: Word)

  // One round of section 6.2.2, step 3.
  function Round(v: Vars, k: Word, w: Word): (r: Vars) {
    var t1 := Add(Add(Add(Add(v.h, BigSigma1(v.e)), Ch(v.e, v.f, v.g)), k), w);
    var t2 := Add(BigSigma0(v.a), Maj(v.a, v.b, v.c));
    Vars(Add(t1, t2), v.a, v.b, v.c, Add(v.d, t1), v.e, v.f, v.g)
  }

  function Rounds(v: Vars, block: seq<Byte>, t: nat): (r: Vars)
    requires |block| == 64 && t <= 64
  {
    if t == 0 then v else Round(Rounds(v, block, t - 1), K[t - 1], Schedule(block, t - 1))
  }

  function Compress(s: seq<Word>, block: seq<Byte>): (r: seq<Word>)
    requires |s| == 8 && |block| == 64
    ensures |r| == 8
  {
    var v := Rounds(Vars(s[0], s[1], s[2], s[3], s[4], s[5], s[6], s[7]), block, 64);
    [Add(s[0], v.a), Add(s[1], v.b), Add(s[2], v.c), Add(s[3], v.d),
     Add(s[4], v.e), Add(s[5], v.f), Add(s[6], v.g), Add(s[7], v.h)]
  }

  lemma Reorder(a: Word, b: Word, c: Word, d: Word)
    ensures Add(Add(Add(a, b), c), d) == Add(Add(Add(d, c), b), a)
  {
    hide Add;
    AddComm(Add(Add(a, b), c), d);
    AddComm(Add(a, b), c);
    AddComm(a, b);
    AddAssoc(d, c, Add(b, a));
    AddAssoc(Add(d, c), b, a);
  }

  lemma AddComm(a: Word, b: Word)
    ensures Add(a, b) == Add(b, a)
  {
  }

  lemma AddAssoc(a: Word, b: Word, c: Word)
    ensures Add(Add(a, b), c) == Add(a, Add(b, c))
  {
    hide U32;
    Fold(a as int + b, c);
    Fold(b as int + c, a);
  }

  lemma Fold(s: int, c: int)
    ensures U32(U32(s) + c) == U32(s + c) && U32(c + U32(s)) == U32(s + c)
  {
  }

  // The schedule in the order in which the source adds it up.
  lemma ScheduleNext(block: seq<Byte>, t: nat)
    requires |block| == 64 && t >= 16
    ensures Schedule(block, t)
            == Add(Add(Add(Schedule(block, t - 16), SmallSigma0(Schedule(block, t - 15))), Schedule(block, t - 7)),
                   SmallSigma1(Schedule(block, t - 2)))
  {
    hide SmallSigma0, SmallSigma1, WordOf, Add;
    Reorder(SmallSigma1(Schedule(block, t - 2)), Schedule(block, t - 7), SmallSigma0(Schedule(block, t - 15)), Schedule(block, t - 16));
  }

  // The words of the schedule for the block in a buffer.
  method FillSchedule(buf: array<Byte>) returns (w: array<Word>)
    requires buf.Length == 64
    ensures fresh(w) && w.Length == 64
    ensures forall k :: 0 <= k < 64 ==> w[k] == Schedule(buf[..], k)
  {
    hide SmallSigma0, SmallSigma1, WordOf, Add, Schedule, Join, Sum4;
    w := new Word[64](i => 0);
    ghost var block := buf[..];
    var t := 0;
    while t < 16
      invariant 0 <= t <= 16 && buf[..] == block
      invariant forall k :: 0 <= k < t ==> w[k] == Schedule(block, k)
    {
      ScheduleFirst(block, t);
      JoinSum(buf[4 * t], buf[4 * t + 1], buf[4 * t + 2], buf[4 * t + 3]);
      w[t] := Join(buf[4 * t], buf[4 * t + 1], buf[4 * t + 2], buf[4 * t + 3]);
      t := t + 1;
    }
    while t < 64
      invariant 16 <= t <= 64 && buf[..] == block
      invariant forall k :: 0 <= k < t ==> w[k] == Schedule(block, k)
    {
      ScheduleNext(block, t);
      var s0 := SmallSigma0(w[t - 15]);
      var s1 := SmallSigma1(w[t - 2]);
      w[t] := Add(Add(Add(w[t - 16], s0), w[t - 7]), s1);
      t := t + 1;
    }
  }

  lemma ScheduleFirst(block: seq<Byte>, t: nat)
    requires |block| == 64 && t < 16
    ensures Schedule(block, t) == WordOf(block, 4 * t) == Sum4(block[4 * t], block[4 * t + 1], block[4 * t + 2], block[4 * t + 3])
  {
  }

  lemma RoundsNext(v: Vars, block: seq<Byte>, t: nat)
    requires |block| == 64 && t < 64
    ensures Rounds(v, block, 0) == v
    ensures Rounds(v, block, t + 1) == Round(Rounds(v, block, t), K[t], Schedule(block, t))
  {
    hide Round, Schedule;
  }

  // SHA256_Transform: one block into the state.
  method Transform(state: array<Word>, buf: array<Byte>)
    requires state.Length == 8 && buf.Length == 64
    modifies state
    ensures state[..] == Compress(old(state[..]), buf[..])
  {
    hide Rounds, Schedule, BigSigma0, BigSigma1, Ch, Maj, Add;
    var w := FillSchedule(buf);
    ghost var block, s := buf[..], state[..];
    ghost var v := Vars(state[0], state[1], state[2], state[3], state[4], state[5], state[6], state[7]);
    var a, b, c, d := state[0], state[1], state[2], state[3];
    var e, f, g, h := state[4], state[5], state[6], state[7];
    RoundsNext(v, block, 0);
    var t := 0;
    while t < 64
      invariant 0 <= t <= 64 && Vars(a, b, c, d, e, f, g, h) == Rounds(v, block, t)
      invariant forall k :: 0 <= k < 64 ==> w[k] == Schedule(block, k)
      invariant state[..] == s
    {
      RoundsNext(v, block, t);
      var s0 := BigSigma0(a);
      var maj := Maj(a, b, c);
      var t2 := Add(s0, maj);
      var s1 := BigSigma1(e);
      var ch := Ch(e, f, g);
      var t1 := Add(Add(Add(Add(h, s1), ch), K[t]), w[t]);
      h := g;
      g := f;
      f := e;
      e := Add(d, t1);
      d := c;
      c := b;
      b := a;
      a := Add(t1, t2);
      t := t + 1;
    }
    assert forall k :: 0 <= k < 8 ==> state[k] == s[k];
    state[0], state[1], state[2], state[3] := Add(state[0], a), Add(state[1], b), Add(state[2], c), Add(state[3], d);
    state[4], state[5], state[6], state[7] := Add(state[4], e), Add(state[5], f), Add(state[6], g), Add(state[7], h);
    assert state[..] == Compress(s, block);
  }
}
