/** p256_ec.c: felem_inv, the power P - 2 of a field element. */
module FelemPower {
  import opened Arith
  import opened BigNum
  import opened Felem
  import opened Residue
  import opened FelemProduct

  function PowP(x: int, e: nat): (r: nat) {
    Pow(x, e) % P
  }

  lemma PowPOne(x: int)
    requires 0 <= x < P
    ensures PowP(x, 1) == x
  {
    assert Pow(x, 1) == x * Pow(x, 0) == x;
  }

  lemma PowPAdd(x: int, a: nat, b: nat)
    ensures MulP(PowP(x, a), PowP(x, b)) == PowP(x, a + b)
  {
    hide Pow, Cong;
    PowAdd(x, a, b);
    CongMod(Pow(x, a), P);
    CongMod(Pow(x, b), P);
    CongMul(PowP(x, a), Pow(x, a), PowP(x, b), Pow(x, b), P);
    CongAreMods(PowP(x, a) * PowP(x, b), Pow(x, a + b));
  }

  lemma CongAreMods(a: int, b: int)
    requires Cong(a, b, P)
    ensures a % P == b % P
  {
  }

  // The lengths of the runs of squarings.
  lemma TwoPowers()
    ensures Pow(2, 0) == 1 && Pow(2, 1) == 2 && Pow(2, 2) == 4 && Pow(2, 4) == 0x10 && Pow(2, 8) == 0x100 && Pow(2, 16) == 0x1_0000 && Pow(2, 32) == 0x1_0000_0000
    ensures Pow(2, 192) == 0x1_0000_0000_0000_0000_0000_0000_0000_0000_0000_0000_0000_0000
  {
    assert Pow(2, 2) == 4;
    PowAdd(2, 2, 2);
    PowAdd(2, 4, 4);
    PowAdd(2, 8, 8);
    PowAdd(2, 16, 16);
    PowAdd(2, 32, 32);
    PowAdd(2, 64, 64);
    PowAdd(2, 128, 64);
  }

  // The limbs hold the power e of x.
  ghost predicate HoldsPower(s: seq<Word>, x: int, e: nat) {
    Ok(s) && Res(s) == PowP(x, e)
  }

  // f = f^(2^n), one squaring at a time.
  method Squarings(f: array<Word>, n: nat, ghost x: int, ghost e: nat)
    requires f.Length == 9 && HoldsPower(f[..], x, e)
    modifies f
    ensures Pow(2, n) > 0 && HoldsPower(f[..], x, e * Pow(2, n))
  {
    hide Loose, Res, PowP, MulP;
    var i := 0;
    assert Pow(2, 0) == 1;
    while i < n
      invariant 0 <= i <= n && Pow(2, i) > 0 && HoldsPower(f[..], x, e * Pow(2, i))
    {
      FelemSquare(f, f);
      PowPAdd(x, e * Pow(2, i), e * Pow(2, i));
      DoubledPower(e, i);
      i := i + 1;
    }
  }

  lemma DoubledPower(e: nat, i: nat)
    ensures e * Pow(2, i) + e * Pow(2, i) == e * Pow(2, i + 1) && Pow(2, i + 1) == 2 * Pow(2, i)
  {
    MulSwap(e, 2, Pow(2, i));
    MulAssoc(e, 2, Pow(2, i));
  }

  // f = f^(2^n) * g, the step by which the addition chain joins two runs of ones.
  method Join(f: array<Word>, n: nat, g: array<Word>, ghost x: int, ghost e: nat, ghost d: nat)
    requires f.Length == 9 == g.Length && f != g && HoldsPower(f[..], x, e) && HoldsPower(g[..], x, d)
    modifies f
    ensures Pow(2, n) > 0 && HoldsPower(f[..], x, e * Pow(2, n) + d)
  {
    hide Loose, Res, PowP, MulP, Pow;
    Squarings(f, n, x, e);
    FelemMul(f, f, g);
    PowPAdd(x, e * Pow(2, n), d);
  }

  // Joins a run of ones to itself and keeps a copy of the longer run.
  method Extend(f: array<Word>, n: nat, run: array<Word>, ghost x: int, ghost e: nat) returns (kept: array<Word>)
    requires f.Length == 9 == run.Length && f != run && HoldsPower(f[..], x, e) && HoldsPower(run[..], x, e)
    modifies f
    ensures fresh(kept) && kept.Length == 9
    ensures Pow(2, n) > 0 && HoldsPower(f[..], x, e * Pow(2, n) + e) && HoldsPower(kept[..], x, e * Pow(2, n) + e)
  {
    hide HoldsPower, Pow;
    Join(f, n, run, x, e, e);
    kept := new Word[9](i => 0);
    FelemAssign(kept, f);
  }

  lemma Itself(s: seq<Word>)
    requires Ok(s)
    ensures HoldsPower(s, Res(s), 1)
  {
    PowPOne(Res(s));
  }

  // The powers 2^k - 1 for k = 2, 4, ..., 32; f holds the last one too.
  method RunsOfOnes(in1: array<Word>, ghost x: int)
    returns (f: array<Word>, e2: array<Word>, e4: array<Word>, e8: array<Word>, e16: array<Word>, e32: array<Word>)
    requires in1.Length == 9 && HoldsPower(in1[..], x, 1)
    ensures fresh(f) && fresh(e2) && fresh(e4) && fresh(e8) && fresh(e16) && fresh(e32)
    ensures f !in {e2, e4, e8, e16, e32}
    ensures f.Length == e2.Length == e4.Length == e8.Length == e16.Length == e32.Length == 9
    ensures HoldsPower(e2[..], x, 0x3) && HoldsPower(e4[..], x, 0xf) && HoldsPower(e8[..], x, 0xff)
    ensures HoldsPower(e16[..], x, 0xffff) && HoldsPower(e32[..], x, 0xffff_ffff) && HoldsPower(f[..], x, 0xffff_ffff)
  {
    hide HoldsPower, Pow;
    TwoPowers();
    f := new Word[9](i => 0);
    FelemAssign(f, in1);
    e2 := Extend(f, 1, in1, x, 0x1);
    e4 := Extend(f, 2, e2, x, 0x3);
    e8 := Extend(f, 4, e4, x, 0xf);
    e16 := Extend(f, 8, e8, x, 0xff);
    e32 := Extend(f, 16, e16, x, 0xffff);
  }

  // f = x^(2^96 - 3) from x^(2^64 - 2^32).
  method LowHalf(f: array<Word>, in1: array<Word>, e2: array<Word>, e4: array<Word>, e8: array<Word>,
                 e16: array<Word>, e32: array<Word>, ghost x: int)
    requires f.Length == in1.Length == e2.Length == e4.Length == e8.Length == e16.Length == e32.Length == 9
    requires f !in {in1, e2, e4, e8, e16, e32}
    requires HoldsPower(f[..], x, 0xffff_ffff_0000_0000) && HoldsPower(in1[..], x, 1)
    requires HoldsPower(e2[..], x, 0x3) && HoldsPower(e4[..], x, 0xf) && HoldsPower(e8[..], x, 0xff)
    requires HoldsPower(e16[..], x, 0xffff) && HoldsPower(e32[..], x, 0xffff_ffff)
    modifies f
    ensures HoldsPower(f[..], x, 0xffff_ffff_ffff_ffff_ffff_fffd)
  {
    hide HoldsPower, Pow;
    TwoPowers();
    Join(f, 0, e32, x, 0xffff_ffff_0000_0000, 0xffff_ffff);
    Join(f, 16, e16, x, 0xffff_ffff_ffff_ffff, 0xffff);
    Join(f, 8, e8, x, 0xffff_ffff_ffff_ffff_ffff, 0xff);
    Join(f, 4, e4, x, 0xffff_ffff_ffff_ffff_ffff_ff, 0xf);
    Join(f, 2, e2, x, 0xffff_ffff_ffff_ffff_ffff_fff, 0x3);
    Join(f, 2, in1, x, 0x3fff_ffff_ffff_ffff_ffff_ffff, 1);
  }

  // out = in1^(P - 2) for every element, by the addition chain of the source.
  method FelemInv(out: array<Word>, in1: array<Word>)
    requires out.Length == in1.Length == 9 && Ok(in1[..])
    modifies out
    ensures Ok(out[..]) && Res(out[..]) == PowP(old(Res(in1[..])), P - 2)
  {
    hide HoldsPower, Ok, Res, Pow;
    ghost var x := Res(in1[..]);
    TwoPowers();
    Itself(in1[..]);
    var ftmp, e2, e4, e8, e16, e32 := RunsOfOnes(in1, x);
    Squarings(ftmp, 32, x, 0xffff_ffff);
    var ftmp2 := new Word[9](i => 0);
    FelemAssign(ftmp2, ftmp);
    Join(ftmp, 0, in1, x, 0xffff_ffff_0000_0000, 1);
    Squarings(ftmp, 192, x, 0xffff_ffff_0000_0001);
    LowHalf(ftmp2, in1, e2, e4, e8, e16, e32, x);
    LastProduct(out, ftmp2, ftmp, x);
  }

  // The two halves of the exponent: 2^96 - 3 and 2^256 - 2^224 + 2^192.
  method LastProduct(out: array<Word>, low: array<Word>, high: array<Word>, ghost x: int)
    requires out.Length == low.Length == high.Length == 9 && out != low && out != high
    requires HoldsPower(low[..], x, 0xffff_ffff_ffff_ffff_ffff_fffd)
    requires HoldsPower(high[..], x, 0xffff_ffff_0000_0001_0000_0000_0000_0000_0000_0000_0000_0000_0000_0000_0000_0000)
    modifies out
    ensures Ok(out[..]) && Res(out[..]) == PowP(x, P - 2)
  {
    hide Loose, Res, PowP, MulP;
    FelemMul(out, low, high);
    PowPAdd(x, 0xffff_ffff_ffff_ffff_ffff_fffd, 0xffff_ffff_0000_0001_0000_0000_0000_0000_0000_0000_0000_0000_0000_0000_0000_0000);
  }

  // Fermat's little theorem modulo P, which holds because P is prime.
  ghost predicate Fermat() {
    forall a: int :: a % P != 0 ==> Cong(Pow(a, P - 1), 1, P)
  }

  // felem_inv computes the inverse of every nonzero element, and zero for zero.
  lemma PowerInverts(x: int)
    requires Fermat() && 0 <= x < P
    ensures x != 0 ==> MulP(x, PowP(x, P - 2)) == 1
    ensures x == 0 ==> PowP(x, P - 2) == 0
  {
    hide Pow, Cong;
    PowPOne(x);
    PowPAdd(x, 1, P - 2);
    if x == 0 {
      ZeroPower(P - 2);
    } else {
      CongSmall(x % P, x, P) by { CongMod(x, P); }
      assert x % P != 0;
      CongAreMods(Pow(x, P - 1), 1);
    }
  }

  lemma ZeroPower(e: nat)
    requires e > 0
    ensures PowP(0, e) == 0
  {
    assert Pow(0, e) == 0 * Pow(0, e - 1);
  }
}
