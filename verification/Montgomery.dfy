/** p256_ec.c: to_montgomery and from_montgomery. */
module Montgomery {
  import opened Arith
  import opened BigNum
  import opened Bits
  import opened P256Int
  import opened P256Shift
  import opened P256Compare
  import opened P256ModMul
  import opened Felem
  import opened Residue
  import opened FelemLinear
  import opened FelemZero

  // The modulus, 2^257 mod P and 2^-257 mod P as eight digits.
  const PDIGITS: seq<Word> := [ONES, ONES, ONES, 0, 0, 0, 1, ONES]
  const KR: seq<Word> := [2, 0, 0, 0xffff_fffe, ONES, ONES, 0xffff_fffd, 1]
  const KRINV: seq<Word> := [0x8000_0000, 1, ONES, 0, 0x8000_0001, 0xffff_fffe, 1, 0x7fff_ffff]

  // The explicit sum behind Val for eight digits.
  function Sum8(s: seq<Word>): (v: int)
    requires |s| == 8
  {
    s[0]
    + s[1] as int * 0x1_0000_0000
    + s[2] as int * 0x1_0000_0000_0000_0000
    + s[3] as int * 0x1_0000_0000_0000_0000_0000_0000
    + s[4] as int * 0x1_0000_0000_0000_0000_0000_0000_0000_0000
    + s[5] as int * 0x1_0000_0000_0000_0000_0000_0000_0000_0000_0000_0000
    + s[6] as int * 0x1_0000_0000_0000_0000_0000_0000_0000_0000_0000_0000_0000_0000
    + s[7] as int * 0x1_0000_0000_0000_0000_0000_0000_0000_0000_0000_0000_0000_0000_0000_0000
  }

  lemma ValSum8(s: seq<Word>)
    requires |s| == 8
    ensures Val(s) == Sum8(s)
  {
    hide Val, BPow;
    ValBase();
    forall i | 0 <= i < 8
      ensures Val(s[..i + 1]) == Val(s[..i]) + s[i] * BPow(i)
    {
      ValPrefix(s, i);
    }
    assert s[..0] == [] && s[..8] == s;
    BPows();
  }

  lemma BPows()
    ensures BPow(0) == 1 && BPow(1) == 0x1_0000_0000
    ensures BPow(2) == 0x1_0000_0000_0000_0000
    ensures BPow(3) == 0x1_0000_0000_0000_0000_0000_0000
    ensures BPow(4) == 0x1_0000_0000_0000_0000_0000_0000_0000_0000
    ensures BPow(5) == 0x1_0000_0000_0000_0000_0000_0000_0000_0000_0000_0000
    ensures BPow(6) == 0x1_0000_0000_0000_0000_0000_0000_0000_0000_0000_0000_0000_0000
    ensures BPow(7) == 0x1_0000_0000_0000_0000_0000_0000_0000_0000_0000_0000_0000_0000_0000_0000
  {
  }

  lemma Constants()
    ensures |PDIGITS| == |KR| == |KRINV| == 8
    ensures Val(PDIGITS) == P && Val(KRINV) == RINV && Cong(Val(KR), RR, P)
  {
    hide Val, Cong;
    ValSum8(PDIGITS);
    ValSum8(KR);
    ValSum8(KRINV);
    CongIntro(Val(KR), RR, -2, P);
  }

  method Digits(s: seq<Word>) returns (a: array<Word>)
    requires |s| == 8
    ensures fresh(a) && a.Length == 8 && a[..] == s
  {
    a := new Word[8](i requires 0 <= i < 8 => s[i]);
  }

  // ----- into limbs -----

  // The bits above limb i that are still to be taken, and what the taken limbs are worth.
  ghost predicate Taken(done: seq<Word>, left: int, v: int) {
    Carried(done) && left >= 0 && Fv(done) + left * W(|done|) == v
  }

  lemma TakeLimb(done: seq<Word>, left: int, v: int, lo: Word, rest: int)
    requires Taken(done, left, v) && lo < Radix(|done|) && left == lo + rest * Radix(|done|) && rest >= 0
    ensures Taken(done + [lo], rest, v)
  {
    hide Fv, W, Carried;
    var i := |done|;
    CarriedSnoc(done, lo);
    FvSnoc(done, lo);
    WSucc(i);
    MulAddLeft(lo, rest * Radix(i), W(i));
    MulAssoc(rest, Radix(i), W(i));
  }

  // The low bits of a number are those of its lowest digit.
  lemma LowDigit(s: seq<Word>, i: nat)
    requires |s| == 8
    ensures Radix(i) > 0 && Kept(i, s[0]) == Val(s) % Radix(i)
  {
    hide Val, BPow, Low29, Low28;
    ValSum8(s);
    LowOfSum(s);
  }

  lemma LowOfSum(s: seq<Word>)
    requires |s| == 8
    ensures Sum8(s) % 0x2000_0000 == s[0] % 0x2000_0000 && Sum8(s) % 0x1000_0000 == s[0] % 0x1000_0000
  {
    var k := (Sum8(s) - s[0]) / B;
    assert Sum8(s) == s[0] + k * B;
    CongIntro(Sum8(s), s[0], k * 8, 0x2000_0000);
    CongIntro(Sum8(s), s[0], k * 16, 0x1000_0000);
  }

  lemma RadixIsPow(i: nat)
    ensures Radix(i) == Pow(2, if i % 2 == 0 then 29 else 28)
  {
    hide Pow;
    LimbPowers();
  }

  lemma AllTaken(done: seq<Word>, left: int, v: int)
    requires |done| == 9 && Taken(done, left, v) && 0 <= v < RR
    ensures Normal(done) && Fv(done) == v
  {
    hide Fv, W;
    FvBound(done);
    Weights();
  }

  // out = the element that stands for in1, for every 256-bit number.
  method ToMontgomery(out: array<Word>, in1: array<Word>)
    requires out.Length == 9 && in1.Length == 8
    modifies out
    ensures Normal(out[..]) && Ok(out[..])
    ensures Res(out[..]) == old(Val(in1[..])) % P
  {
    hide Fv, Val, Cong, Wide, Kept, Normal, Ok, Res, Pow, Radix, Taken;
    ghost var x := Val(in1[..]);
    Constants();
    var p := Digits(PDIGITS);
    var r := Digits(KR);
    var shifted := new Word[8](i => 0);
    ModMul(p, in1, 0, r, shifted);
    ghost var v := Val(shifted[..]);
    ghost var done: seq<Word> := [];
    NoneTaken(v);
    var i := 0;
    while i < 9
      invariant 0 <= i <= 9 && |done| == i && out[..i] == done
      invariant Taken(done, Val(shifted[..]), v)
    {
      ghost var left := Val(shifted[..]);
      LowDigit(shifted[..], i);
      RadixIsPow(i);
      out[i] := Kept(i, shifted[0]);
      done := done + [out[i]];
      assert out[..i + 1] == done;
      if i % 2 == 0 {
        Shr(shifted, 29, shifted);
      } else {
        Shr(shifted, 28, shifted);
      }
      TakenNext(done[..i], left, v, done[i], Val(shifted[..]));
      assert done[..i] + [done[i]] == done;
      i := i + 1;
    }
    assert out[..] == done;
    AllTaken(done, Val(shifted[..]), v);
    Lifted(out[..], x, Val(KR), v);
  }

  lemma NoneTaken(v: int)
    requires v >= 0
    ensures Taken([], v, v)
  {
    FvBase();
  }

  lemma TakenNext(done: seq<Word>, left: int, v: int, lo: Word, rest: int)
    requires Radix(|done|) > 0
    requires Taken(done, left, v) && lo == left % Radix(|done|) && rest == left / Radix(|done|)
    ensures Taken(done + [lo], rest, v)
  {
    hide Taken, Radix;
    TakenParts(done, left, v);
    TakeLimb(done, left, v, lo, rest);
  }

  lemma TakenParts(done: seq<Word>, left: int, v: int)
    requires Taken(done, left, v)
    ensures left >= 0
  {
  }

  // A normal form of x * 2^257 mod P stands for x.
  lemma Lifted(s: seq<Word>, x: nat, r: nat, v: int)
    requires Normal(s) && Fv(s) == v && v < P && Cong(v, Wide(x, 0, r), P) && Cong(r, RR, P)
    ensures Ok(s) && Res(s) == x % P
  {
    hide Fv, Cong;
    assert Wide(x, 0, r) == x * r;
    CongRefl(x, P);
    CongMul(x, x, r, RR, P);
    CongTrans(v, x * r, x * RR, P);
    UnscaledUnique(v, x);
  }

  // ----- out of limbs -----

  // The limbs from i up, by Horner's rule: h is what they are worth at position i.
  ghost predicate Gathered(x: seq<Word>, i: nat, h: int) {
    |x| == 9 && i <= 9 && h >= 0 && Fv(x[..i]) + h * W(i) == Fv(x)
  }

  lemma GatherLimb(x: seq<Word>, i: nat, h: int)
    requires 0 < i <= 9 && Gathered(x, i, h)
    ensures Gathered(x, i - 1, h * Radix(i - 1) + x[i - 1])
  {
    hide Fv, W;
    FvPrefix(x, i - 1);
    WSucc(i - 1);
    MulAssoc(h, Radix(i - 1), W(i - 1));
    MulAddLeft(h * Radix(i - 1), x[i - 1], W(i - 1));
  }

  lemma GatherStart(x: seq<Word>)
    requires |x| == 9
    ensures Gathered(x, 9, 0)
  {
    assert x[..9] == x;
  }

  lemma GatherEnd(x: seq<Word>, h: int)
    requires Gathered(x, 0, h)
    ensures h == Fv(x)
  {
    FvBase();
    assert x[..0] == [];
  }

  lemma {:induction false} FvNonNegative(x: seq<Word>)
    ensures Fv(x) >= 0
  {
    if |x| > 0 {
      FvNonNegative(x[..|x| - 1]);
      MulMono(0, x[|x| - 1], W(|x| - 1));
    }
  }

  // Above the lowest limb the gathered number is far below 2^256.
  lemma GatheredBelow(x: seq<Word>, i: nat, h: int)
    requires 0 < i <= 9 && Loose(x) && Gathered(x, i, h)
    ensures 0 <= h < R
  {
    hide Fv, W;
    FvNonNegative(x[..i]);
    FvSum9(x);
    WAtLeast(i);
    MulMono(W(1), W(i), h);
    Weights();
  }

  lemma WAtLeast(i: nat)
    requires 0 < i <= 9
    ensures W(i) >= W(1)
  {
    hide W;
    Weights();
  }

  // What the source's `|=` of the last carry needs: the bits shifted out of the eight
  // digits and the carry of the lowest limb do not meet in bit 0.
  predicate MergeExact(x: seq<Word>)
    requires |x| == 9
  {
    var high := Fv(x) - x[0];
    !((high / R) % 2 == 1 && high % R + x[0] >= R)
  }

  lemma OrCarry(t: nat, r: nat)
    requires r <= 1
    ensures Or(t, r) == if t % 2 == 1 && r == 1 then t else t + r
  {
    hide Or;
    assert Pow(2, 1) == 2;
    if r == 0 {
      OrZero(t);
    } else {
      OrShifted(t / 2, 1, 1);
      OrSame(t);
    }
  }

  lemma OrZero(t: nat)
    ensures Or(t, 0) == t
  {
  }

  lemma OrSame(t: nat)
    ensures t % 2 == 1 ==> Or(t, 1) == t
    ensures t % 2 == 0 ==> Or(t, 1) == t + 1
  {
    if t > 0 {
      OrZero(t / 2);
    }
  }

  // The digits and the merged top after the last step.
  predicate LastStep(x: seq<Word>, result: int, top: int)
    requires |x| == 9
  {
    var high := Fv(x) - x[0];
    && high >= 0 && high % R + x[0] >= 0
    && result == (high % R + x[0]) % R
    && top == Or(high / R, (high % R + x[0]) / R)
  }

  lemma LastMerge(x: seq<Word>, h: int, tmp: int, top: Word, r: Word, result: int)
    requires Gathered(x, 1, h) && Loose(x) && r <= 1
    requires 0 <= tmp < R && tmp + top * R == h * 0x2000_0000
    requires 0 <= result < R && result == tmp + x[0] - r * R
    ensures Or(top, r) < B && LastStep(x, result, Or(top, r))
  {
    hide Fv, W, Or, Loose;
    OrCarry(top, r);
    GatheredBelow(x, 1, h);
    GatherLimb(x, 1, h);
    GatherEnd(x, h * Radix(0) + x[0]);
    DivModUnique(Fv(x) - x[0], top, tmp, R);
    DivModUnique(tmp + x[0], r, result, R);
  }

  // The wrong merge loses 2^256, which is not a multiple of P.
  lemma MergedValue(x: seq<Word>, top: Word, result: nat, out: int)
    requires |x| == 9 && LastStep(x, result, top) && x[0] < R
    requires 0 <= out < P && Cong(out, Wide(RINV, top, result), P)
    ensures out == Res(x) <==> MergeExact(x)
  {
    hide Fv, Or, Cong, Wide;
    var high := Fv(x) - x[0];
    OrCarry(high / R, (high % R + x[0]) / R);
    WideIs(RINV, top, result);
    assert result + top * R == if MergeExact(x) then Fv(x) else Fv(x) - R;
    MergedResidue(Fv(x), MergeExact(x), result + top * R, out);
  }

  lemma MergedResidue(f: int, exact: bool, v: int, out: int)
    requires v == if exact then f else f - R
    requires 0 <= out < P && Cong(out, RINV * v, P)
    ensures out == Unscaled(f) <==> exact
  {
    hide Cong;
    UnscaledCong(f);
    assert RINV * v == v * RINV;
    if exact {
      CongSym(Unscaled(f), f * RINV, P);
      CongTrans(out, f * RINV, Unscaled(f), P);
      CongSmall(out, Unscaled(f), P);
    } else if out == Unscaled(f) {
      LostTop(f, out);
    }
  }

  lemma WideIs(a: nat, top: Word, b: nat)
    ensures Wide(a, top, b) == a * (b + top * R)
  {
  }

  lemma LostTop(f: int, out: int)
    requires Cong(out, f * RINV, P)
    ensures !Cong(out, (f - R) * RINV, P)
  {
    hide Cong;
    if Cong(out, (f - R) * RINV, P) {
      CongSub(out, f * RINV, out, (f - R) * RINV, P);
      MulSubLeft(f, R, RINV);
      NotAMultiple();
    }
  }

  lemma NotAMultiple()
    ensures !Cong(0, R * RINV, P)
  {
    assert (R * RINV) % P != 0;
  }

  // One step of the Horner rule with room in the eight digits.
  lemma RoomyStep(x: seq<Word>, i: nat, h: int, tmp: int, top: Word, r: Word, result: int)
    requires 1 < i <= 9 && Loose(x) && Gathered(x, i, h)
    requires 0 <= tmp && tmp + top * R == h * Radix(i - 1)
    requires 0 <= result && result == tmp + x[i - 1] - r * R
    ensures top == 0 && r == 0 && Gathered(x, i - 1, result)
  {
    hide Fv, W, Gathered, Loose;
    GatherParts(x, i, h);
    GatherLimb(x, i, h);
    GatheredBelow(x, i - 1, h * Radix(i - 1) + x[i - 1]);
  }

  lemma GatherParts(x: seq<Word>, i: nat, h: int)
    requires Gathered(x, i, h)
    ensures |x| == 9 && h >= 0
  {
  }

  lemma LooseNine(x: seq<Word>)
    requires Loose(x)
    ensures |x| == 9
  {
  }

  // One shift and one limb; the last step may leave bits above the eight digits.
  method HornerStep(result: array<Word>, tmp: array<Word>, in1: array<Word>, i: nat) returns (top: Word)
    requires result.Length == tmp.Length == 8 && in1.Length == 9 && result != tmp && i < 8
    requires Loose(in1[..]) && Gathered(in1[..], i + 1, Val(result[..]))
    modifies result, tmp
    ensures i > 0 ==> top == 0 && Gathered(in1[..], i, Val(result[..]))
    ensures i == 0 ==> LastStep(in1[..], Val(result[..]), top)
  {
    hide Fv, Val, Loose, Pow, Gathered, Or, LastStep, Radix;
    ghost var x, h := in1[..], Val(result[..]);
    GatherParts(x, i + 1, h);
    RadixIsPow(i);
    if i % 2 == 0 {
      top := Shl(result, 29, tmp);
    } else {
      top := Shl(result, 28, tmp);
    }
    ghost var t := Val(tmp[..]);
    DigitsBound(tmp[..]);
    var carry := AddD(tmp, in1[i], result);
    DigitsBound(result[..]);
    if i > 0 {
      RoomyStep(x, i + 1, h, t, top, carry, Val(result[..]));
      OrZero(0);
    } else {
      RadixZero();
      LastMerge(x, h, t, top, carry, Val(result[..]));
    }
    top := Or(top, carry);
  }

  lemma RadixZero()
    ensures Radix(0) == 0x2000_0000
  {
  }

  // out = the residue that in1 stands for, exactly when the last carry merges.
  method FromMontgomery(out: array<Word>, in1: array<Word>)
    requires out.Length == 8 && in1.Length == 9 && Loose(in1[..])
    modifies out
    ensures Val(out[..]) < P
    ensures Val(out[..]) == Res(in1[..]) <==> MergeExact(in1[..])
  {
    hide Fv, Val, Cong, Wide, Loose, Res, Pow, Gathered, Or, MergeExact, LastStep;
    ghost var x := in1[..];
    LooseNine(x);
    Constants();
    var p := Digits(PDIGITS);
    var rInv := Digits(KRINV);
    var tmp, result := new Word[8](i => 0), new Word[8](i => 0);
    ValZeros(tmp[..]);
    GatherStart(x);
    var top := AddD(tmp, in1[8], result);
    RoomyStep(x, 9, 0, 0, 0, top, Val(result[..]));
    var i := 7;
    while i >= 0
      invariant -1 <= i <= 7 && in1[..] == x
      invariant i >= 0 ==> Gathered(x, i + 1, Val(result[..]))
      invariant i < 0 ==> LastStep(x, Val(result[..]), top)
      invariant p[..] == PDIGITS && rInv[..] == KRINV
    {
      top := HornerStep(result, tmp, in1, i);
      i := i - 1;
    }
    ModMul(p, rInv, top, result, out);
    MergedValue(x, top, Val(result[..]), Val(out[..]));
  }

  // A lowest limb below its radix never carries into the bits above.
  lemma LowLimbMerges(x: seq<Word>)
    requires Loose(x) && x[0] < 0x2000_0000
    ensures MergeExact(x)
  {
    hide Fv, HighLimbs, Sum9;
    FvSum9(x);
    var high := Fv(x) - x[0];
    var h := HighLimbs(x);
    assert high == h * 0x2000_0000;
    var q, m := h / (R / 0x2000_0000), h % (R / 0x2000_0000);
    DivModUnique(high, q, m * 0x2000_0000, R);
  }

  // The limbs above the lowest, in units of its radix.
  function HighLimbs(x: seq<Word>): (h: int)
    requires |x| == 9
    ensures h >= 0 && Sum9(x) == x[0] + h * 0x2000_0000
  {
    x[1]
    + x[2] as int * 0x1000_0000
    + x[3] as int * 0x200_0000_0000_0000
    + x[4] as int * 0x20_0000_0000_0000_0000_0000
    + x[5] as int * 0x4_0000_0000_0000_0000_0000_0000_0000
    + x[6] as int * 0x4000_0000_0000_0000_0000_0000_0000_0000_0000
    + x[7] as int * 0x800_0000_0000_0000_0000_0000_0000_0000_0000_0000_0000
    + x[8] as int * 0x80_0000_0000_0000_0000_0000_0000_0000_0000_0000_0000_0000_0000
  }

  // A value below 2^257 leaves no room for the bits to meet.
  lemma BelowMerges(x: seq<Word>)
    requires |x| == 9 && 0 <= Fv(x) < RR
    ensures MergeExact(x)
  {
    hide Fv, HighLimbs;
    FvSum9(x);
    var high := Fv(x) - x[0];
    assert high == HighLimbs(x) * 0x2000_0000;
    assert high == (high / R) * R + high % R;
  }

  // The value 2^257 with a lowest limb of 2^29, within the bounds of every element.
  lemma MergeFails()
    ensures var x: seq<Word> := [0x2000_0000, 0xfff_ffff, 0x1fff_ffff, 0xfff_ffff, 0x1fff_ffff, 0xfff_ffff, 0x1fff_ffff,
                                 0xfff_ffff, 0x1fff_ffff];
            Ok(x) && Fv(x) == RR && !MergeExact(x)
  {
    hide Fv;
    FvSum9([0x2000_0000, 0xfff_ffff, 0x1fff_ffff, 0xfff_ffff, 0x1fff_ffff, 0xfff_ffff, 0x1fff_ffff, 0xfff_ffff, 0x1fff_ffff]);
  }

  // The two conversions undo each other, up to reduction modulo P.
  method ToAndFrom(in1: array<Word>, out: array<Word>)
    requires in1.Length == 8 == out.Length
    modifies out
    ensures Val(out[..]) == old(Val(in1[..])) % P
  {
    hide Fv, Val, Normal, Res, MergeExact;
    var felem := new Word[9](i => 0);
    ToMontgomery(felem, in1);
    NormalLoose(felem[..]);
    FromMontgomery(out, felem);
  }

  lemma NormalLoose(x: seq<Word>)
    requires Normal(x)
    ensures Loose(x) && MergeExact(x)
  {
    hide Fv;
    LowLimbMerges(x);
  }
}
