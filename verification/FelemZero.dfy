/** p256_ec.c: felem_is_zero_vartime. */
module FelemZero {
  import opened Arith
  import opened BigNum
  import opened Felem
  import opened Residue
  import opened FelemLinear
  import opened FelemProduct

  const KZERO: seq<Word> := [0, 0, 0, 0, 0, 0, 0, 0, 0]
  const KP: seq<Word> := [0x1fff_ffff, 0xfff_ffff, 0x1fff_ffff, 0x3ff, 0, 0, 0x20_0000, 0xf00_0000, 0xfff_ffff]
  const K2P: seq<Word> := [0x1fff_fffe, 0xfff_ffff, 0x1fff_ffff, 0x7ff, 0, 0, 0x40_0000, 0xe00_0000, 0x1fff_ffff]

  // ----- a carried form is unique -----

  lemma {:induction false} FvBound(s: seq<Word>)
    requires Carried(s)
    ensures 0 <= Fv(s) < W(|s|)
  {
    if |s| == 0 {
      FvBase();
    } else {
      hide W;
      var n := |s| - 1;
      FvBound(s[..n]);
      WSucc(n);
      MulMono(0, s[n], W(n));
      MulMono(s[n], Radix(n) - 1, W(n));
      MulSubLeft(Radix(n), 1, W(n));
    }
  }

  lemma {:induction false} FvUnique(s: seq<Word>, t: seq<Word>)
    requires |s| == |t| && Carried(s) && Carried(t) && Fv(s) == Fv(t)
    ensures s == t
  {
    if |s| > 0 {
      hide W;
      var n := |s| - 1;
      FvBound(s[..n]);
      FvBound(t[..n]);
      DivModUnique(Fv(s), s[n], Fv(s[..n]), W(n));
      DivModUnique(Fv(t), t[n], Fv(t[..n]), W(n));
      FvUnique(s[..n], t[..n]);
      assert s == s[..n] + [s[n]] && t == t[..n] + [t[n]];
    }
  }

  lemma ZeroForms()
    ensures Normal(KZERO) && Normal(KP) && Normal(K2P)
    ensures Fv(KZERO) == 0 && Fv(KP) == P && Fv(K2P) == 2 * P
  {
    hide Fv;
    FvSum9(KZERO);
    FvSum9(KP);
    FvSum9(K2P);
  }

  lemma NormalUnique(s: seq<Word>, t: seq<Word>)
    requires Normal(s) && Normal(t)
    ensures 0 <= Fv(s) < RR
    ensures s == t <==> Fv(s) == Fv(t)
  {
    hide Fv, W;
    NormalCarried(s);
    NormalCarried(t);
    FvBound(s);
    Weights();
    if Fv(s) == Fv(t) {
      FvUnique(s, t);
    }
  }

  lemma NormalCarried(s: seq<Word>)
    requires Normal(s)
    ensures |s| == 9 && Carried(s)
  {
  }

  // Below 2^257 the only multiples of P are 0, P and 2P.
  lemma ZeroMultiples(v: int)
    requires 0 <= v < RR
    ensures v % P == 0 <==> v == 0 || v == P || v == 2 * P
  {
    assert v == (v / P) * P + v % P;
  }

  lemma MinimalIsZero(s: seq<Word>)
    requires Normal(s)
    ensures Fv(s) % P == 0 <==> s == KZERO || s == KP || s == K2P
  {
    hide Fv, Normal;
    ZeroForms();
    NormalUnique(s, KZERO);
    NormalUnique(s, KP);
    NormalUnique(s, K2P);
    ZeroMultiples(Fv(s));
  }

  // ----- the loop -----

  // One pass of carries and the multiple of 2P taken for the carry that is left.
  method ReducePass(tmp: array<Word>) returns (carry: Word)
    requires tmp.Length == 9 && Loose(tmp[..])
    modifies tmp
    ensures Ok(tmp[..]) && (carry == 0 ==> Normal(tmp[..]))
    ensures Fv(tmp[..]) == old(Fv(tmp[..])) - carry * (2 * P) && Fv(tmp[..]) >= 0
  {
    hide Fv, W, U32, Kept, Moved, Chain, Ok, Normal, Loose;
    ghost var z, done: seq<Word> := tmp[..], [];
    carry := 0;
    var i := 0;
    ChainStart(z);
    while i < 9
      invariant 0 <= i <= 9 && carry < 16 && (i == 9 ==> carry < 8)
      invariant |done| == i && tmp[..i] == done && Chain(done, carry, z)
      invariant tmp[i..] == z[i..]
    {
      PassWord(z, i, carry);
      assert tmp[i] == z[i];
      var w := U32(tmp[i] as int + carry);
      ChainWord(done, carry, z, w);
      ghost var rest := tmp[i + 1..];
      assert rest == z[i..][1..] == z[i + 1..];
      tmp[i], carry := Kept(i, w), Moved(i, w);
      done := done + [Kept(i, w)];
      assert tmp[..i + 1] == done && tmp[i + 1..] == rest;
      i := i + 1;
    }
    assert tmp[..] == done;
    ChainNormal(done, carry, z);
    NormalUnique(done, done);
    ReduceCarry(tmp, carry);
    PassValue(done, carry, z);
    assert carry == 0 ==> tmp[..] == done;
  }

  lemma PassWord(z: seq<Word>, i: nat, carry: Word)
    requires Loose(z) && i < 9 && carry < 16
    ensures |z| == 9 && U32(z[i] as int + carry) == z[i] + carry
  {
  }

  lemma PassValue(done: seq<Word>, carry: Word, z: seq<Word>)
    requires |done| == 9 && |z| == 9 && Chain(done, carry, z) && Fv(done) >= 0
    ensures Fv(z) == Fv(done) + carry * RR
    ensures Fv(z) - carry * (2 * P) >= 0
  {
    hide Fv, W, Carried;
    Weights();
    assert z[..9] == z;
  }

  lemma ModAfterPasses(v: int, c: int, goal: int)
    requires v % P == goal % P
    ensures (v - c * (2 * P)) % P == goal % P
  {
    CongIntro(v - c * (2 * P), v, -2 * c, P);
  }

  // Tells the multiples of P apart, whatever form they are held in; every pass that
  // leaves a carry lowers the value, so the loop ends.
  method FelemIsZeroVartime(in1: array<Word>) returns (zero: bool)
    requires in1.Length == 9 && Loose(in1[..])
    ensures zero <==> Fv(in1[..]) % P == 0
    ensures zero <==> Res(in1[..]) == 0
  {
    hide Fv, Normal, Loose, Unscaled;
    ghost var goal := Fv(in1[..]);
    var tmp := new Word[9](i => 0);
    FelemAssign(tmp, in1);
    ZeroStands(goal);
    ModAfterPasses(goal, 0, goal);
    var carry := ReducePass(tmp);
    ModAfterPasses(goal, carry, goal);
    while carry != 0
      invariant Ok(tmp[..]) && Fv(tmp[..]) >= 0 && (carry == 0 ==> Normal(tmp[..]))
      invariant Fv(tmp[..]) % P == goal % P
      decreases carry != 0, Fv(tmp[..])
    {
      ghost var v := Fv(tmp[..]);
      carry := ReducePass(tmp);
      ModAfterPasses(v, carry, goal);
    }
    MinimalIsZero(tmp[..]);
    zero := tmp[..] == KZERO || tmp[..] == KP || tmp[..] == K2P;
  }
}
