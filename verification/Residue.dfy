/** p256_ec.c: the residue modulo P that a field element in Montgomery form stands for. */
module Residue {
  import opened Arith
  import opened BigNum
  import opened Felem

  // 2^-257 mod P.
  const RINV: nat := 0x7fffffff00000001fffffffe8000000100000000ffffffff0000000180000000

  // Arithmetic modulo P on canonical residues.
  function AddP(a: int, b: int): (r: nat) {
    (a + b) % P
  }

  function SubP(a: int, b: int): (r: nat) {
    (a - b) % P
  }

  function MulP(a: int, b: int): (r: nat) {
    (a * b) % P
  }

  // The residue x of a value x * 2^257 mod P.
  function Unscaled(f: int): (x: nat)
    ensures x < P
  {
    (f * RINV) % P
  }

  // The residue that limbs stand for.
  function Res(s: seq<Word>): (x: nat)
    ensures x < P
  {
    Unscaled(Fv(s))
  }

  lemma RInverts()
    ensures Cong(RR * RINV, 1, P)
  {
    CongIntro(RR * RINV, 1, 0xffffffff00000002000000000000000000000001000000000000000000000001, P);
  }

  lemma UnscaledCong(f: int)
    ensures Cong(Unscaled(f), f * RINV, P)
  {
    CongMod(f * RINV, P);
  }

  // Only values congruent to x * 2^257 stand for x.
  lemma UnscaledIff(f: int, x: int)
    ensures Cong(f, x * RR, P) <==> Cong(Unscaled(f), x, P)
  {
    hide Cong;
    RInverts();
    UnscaledCong(f);
    if Cong(f, x * RR, P) {
      CongMul(f, x * RR, RINV, RINV, P) by { CongRefl(RINV, P); }
      MulAssoc(x, RR, RINV);
      CongMul(x, x, RR * RINV, 1, P) by { CongRefl(x, P); }
      CongTrans(Unscaled(f), f * RINV, x * RR * RINV, P);
      CongTrans(Unscaled(f), x * (RR * RINV), x, P);
    }
    if Cong(Unscaled(f), x, P) {
      CongMul(Unscaled(f), x, RR, RR, P) by { CongRefl(RR, P); }
      CongMul(Unscaled(f), f * RINV, RR, RR, P) by { CongRefl(RR, P); }
      MulAssoc(f, RINV, RR);
      CongMul(f, f, RR * RINV, 1, P) by { CongRefl(f, P); }
      CongSym(Unscaled(f) * RR, f * RINV * RR, P);
      CongTrans(f * (RINV * RR), Unscaled(f) * RR, x * RR, P);
      CongSym(f * (RINV * RR), f, P);
      CongTrans(f, f * (RINV * RR), x * RR, P);
    }
  }

  lemma UnscaledUnique(f: int, x: int)
    requires Cong(f, x * RR, P)
    ensures Unscaled(f) == x % P
  {
    UnscaledIff(f, x);
    CongReduced(Unscaled(f), x, P);
  }

  lemma Scaled(f: int)
    ensures Cong(f, Unscaled(f) * RR, P)
  {
    UnscaledIff(f, Unscaled(f));
    CongRefl(Unscaled(f), P);
  }

  lemma SumStands(f: int, a: int, b: int)
    requires Cong(f, a + b, P)
    ensures Unscaled(f) == AddP(Unscaled(a), Unscaled(b))
  {
    hide Cong;
    var x, y := Unscaled(a), Unscaled(b);
    Scaled(a);
    Scaled(b);
    CongAdd(a, x * RR, b, y * RR, P);
    MulAddLeft(x, y, RR);
    CongTrans(f, a + b, (x + y) * RR, P);
    UnscaledUnique(f, x + y);
  }

  lemma DiffStands(f: int, a: int, b: int)
    requires Cong(f, a - b, P)
    ensures Unscaled(f) == SubP(Unscaled(a), Unscaled(b))
  {
    hide Cong;
    var x, y := Unscaled(a), Unscaled(b);
    Scaled(a);
    Scaled(b);
    CongSub(a, x * RR, b, y * RR, P);
    MulSubLeft(x, y, RR);
    CongTrans(f, a - b, (x - y) * RR, P);
    UnscaledUnique(f, x - y);
  }

  lemma ScaleStands(f: int, c: int, a: int)
    requires Cong(f, c * a, P)
    ensures Unscaled(f) == MulP(c, Unscaled(a))
  {
    hide Cong;
    var x := Unscaled(a);
    Scaled(a);
    CongMul(c, c, a, x * RR, P) by { CongRefl(c, P); }
    MulAssoc(c, x, RR);
    CongTrans(f, c * a, c * x * RR, P);
    UnscaledUnique(f, c * x);
  }

  // A Montgomery product drops one of the two factors 2^257.
  lemma ProductStands(f: int, a: int, b: int)
    requires Cong(f * RR, a * b, P)
    ensures Unscaled(f) == MulP(Unscaled(a), Unscaled(b))
  {
    hide Cong;
    var x, y := Unscaled(a), Unscaled(b);
    Scaled(a);
    Scaled(b);
    CongMul(a, x * RR, b, y * RR, P);
    MulSwap(x, RR, y * RR);
    MulAssoc(x, y, RR);
    CongTrans(f * RR, a * b, (x * y * RR) * RR, P);
    RInverts();
    CongCancel(f, x * y * RR, RR, RINV, P) by { assert Inverse(RR, RINV, P); }
    UnscaledUnique(f, x * y);
  }

  // A residue is zero exactly when the limbs hold a multiple of P.
  lemma ZeroStands(f: int)
    ensures Unscaled(f) == 0 <==> f % P == 0
  {
    UnscaledIff(f, 0);
    assert 0 % P == 0;
  }

  // The limbs stand for any integer congruent to their residue.
  predicate Is(s: seq<Word>, v: int) {
    Cong(Res(s), v, P)
  }

  lemma IsRes(s: seq<Word>)
    ensures Is(s, Res(s))
  {
    CongRefl(Res(s), P);
  }

  lemma SumIs(o: seq<Word>, a: seq<Word>, b: seq<Word>, v: int, w: int)
    requires Res(o) == AddP(Res(a), Res(b)) && Is(a, v) && Is(b, w)
    ensures Is(o, v + w)
  {
    hide Res, Cong;
    CongMod(Res(a) + Res(b), P);
    CongAdd(Res(a), v, Res(b), w, P);
    CongTrans(Res(o), Res(a) + Res(b), v + w, P);
  }

  lemma DiffIs(o: seq<Word>, a: seq<Word>, b: seq<Word>, v: int, w: int)
    requires Res(o) == SubP(Res(a), Res(b)) && Is(a, v) && Is(b, w)
    ensures Is(o, v - w)
  {
    hide Res, Cong;
    CongMod(Res(a) - Res(b), P);
    CongSub(Res(a), v, Res(b), w, P);
    CongTrans(Res(o), Res(a) - Res(b), v - w, P);
  }

  lemma ProductIs(o: seq<Word>, a: seq<Word>, b: seq<Word>, v: int, w: int)
    requires Res(o) == MulP(Res(a), Res(b)) && Is(a, v) && Is(b, w)
    ensures Is(o, v * w)
  {
    hide Res, Cong;
    CongMod(Res(a) * Res(b), P);
    CongMul(Res(a), v, Res(b), w, P);
    CongTrans(Res(o), Res(a) * Res(b), v * w, P);
  }

  lemma ScaleIs(o: seq<Word>, c: int, a: seq<Word>, v: int)
    requires Res(o) == MulP(c, Res(a)) && Is(a, v)
    ensures Is(o, c * v)
  {
    hide Res, Cong;
    CongMod(c * Res(a), P);
    CongRefl(c, P);
    CongMul(c, c, Res(a), v, P);
    CongTrans(Res(o), c * Res(a), c * v, P);
  }
}
