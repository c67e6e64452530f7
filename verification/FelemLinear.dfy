/** p256_ec.c: felem_sum, felem_diff and the small scalar multiples. */
module FelemLinear {
  import opened Arith
  import opened BigNum
  import opened P256Int
  import opened Felem
  import opened Residue

  // Limbs already carried: below their radix.
  ghost predicate Carried(s: seq<Word>) {
    forall k :: 0 <= k < |s| ==> s[k] < Radix(k)
  }

  lemma CarriedSnoc(s: seq<Word>, x: Word)
    requires Carried(s) && x < Radix(|s|)
    ensures Carried(s + [x])
  {
  }

  // A carry loop after |done| limbs: what is written and what is still carried
  // make up the value of the first |done| words of z.
  ghost predicate Chain(done: seq<Word>, carry: int, z: seq<int>) {
    |done| <= |z| && Carried(done) && Fv(done) + carry * W(|done|) == Fv(z[..|done|])
  }

  lemma ChainStart(z: seq<int>)
    ensures Chain([], 0, z)
  {
    assert z[..0] == [];
  }

  // The next word z[i] and the carry from below leave lo, and the carry c above.
  lemma ChainNext(done: seq<Word>, carry: int, z: seq<int>, lo: Word, c: int)
    requires Chain(done, carry, z) && |done| < |z|
    requires lo + c * Radix(|done|) == z[|done|] + carry && lo < Radix(|done|)
    ensures Chain(done + [lo], c, z)
  {
    hide Fv, W, Carried;
    var i := |done|;
    CarriedSnoc(done, lo);
    FvSnoc(done, lo);
    FvPrefix(z, i);
    WSucc(i);
    LimbUp(W(i), Radix(i), carry, z[i], lo, c);
  }

  lemma LimbUp(w: int, r: int, carry: int, f: int, lo: int, c: int)
    requires lo + c * r == f + carry
    ensures lo * w + c * (r * w) == carry * w + f * w
  {
    MulAddLeft(lo, c * r, w);
    MulAssoc(c, r, w);
    MulAddLeft(f, carry, w);
  }

  // The bits of a word that limb i keeps, and those that it carries: the source
  // takes even and odd limbs in turn, with a shift by 29 or 28 and the mask for it.
  function Kept(i: nat, w: Word): (lo: Word) {
    if i % 2 == 0 then Low29(w) else Low28(w)
  }

  function Moved(i: nat, w: Word): (c: Word) {
    if i % 2 == 0 then w / 0x2000_0000 else w / 0x1000_0000
  }

  // A word t = z[i] + carry that fits in 32 bits is split by a shift and a mask.
  lemma ChainWord(done: seq<Word>, carry: int, z: seq<int>, t: Word)
    requires Chain(done, carry, z) && |done| < |z| && t == z[|done|] + carry
    ensures Chain(done + [Kept(|done|, t)], Moved(|done|, t), z)
    ensures Moved(|done|, t) < 16 && (|done| % 2 == 0 ==> Moved(|done|, t) < 8)
  {
    hide Chain;
    ChainNext(done, carry, z, Kept(|done|, t), Moved(|done|, t));
  }

  lemma ChainNormal(done: seq<Word>, carry: int, z: seq<int>)
    requires |done| == 9 && Chain(done, carry, z)
    ensures Normal(done)
  {
    hide Fv, W;
  }

  // What is left after the last carry is traded for a multiple of P.
  lemma ChainEnd(done: seq<Word>, carry: int, z: seq<int>, out: int)
    requires |done| == 9 == |z| && Chain(done, carry, z)
    requires out == Fv(done) + carry * RR - carry * (2 * P)
    ensures Cong(out, Fv(z), P)
  {
    hide Fv, W, Cong, Carried;
    Weights();
    assert z[..9] == z;
    CongIntro(out, Fv(z), -2 * carry, P);
  }

  lemma WrapTwice(a: int, b: int, c: int)
    requires 0 <= a + b + c < 0x1_0000_0000
    ensures U32(U32(a + b) + c) == a + b + c
  {
  }

  // The carry into limb k, and how often the word of limb k overflows.
  function SumCarry(x: seq<Word>, y: seq<Word>, k: nat): (c: Word)
    requires |x| == 9 == |y| && k <= 9
    ensures c < 16 && (k == 9 ==> c < 8)
  {
    if k == 0 then 0
    else
      var w := U32(x[k - 1] as int + y[k - 1] + SumCarry(x, y, k - 1));
      Moved(k - 1, w)
  }

  function Overflow(x: seq<Word>, y: seq<Word>, k: nat): (g: nat)
    requires |x| == 9 == |y| && k < 9
    ensures g <= 2
  {
    (x[k] as int + y[k] + SumCarry(x, y, k)) / B
  }

  function Overflows(x: seq<Word>, y: seq<Word>): (g: seq<int>)
    requires |x| == 9 == |y|
  {
    seq(9, k requires 0 <= k < 9 => Overflow(x, y, k))
  }

  // The limbs of a sum, without what overflowed.
  function SumLimbs(x: seq<Word>, y: seq<Word>): (z: seq<int>)
    requires |x| == 9 == |y|
  {
    seq(9, k requires 0 <= k < 9 => x[k] as int + y[k] - B * Overflow(x, y, k))
  }

  lemma SumLimbsValue(x: seq<Word>, y: seq<Word>)
    requires |x| == 9 == |y|
    ensures Fv(SumLimbs(x, y)) == Fv(x) + Fv(y) - B * Fv(Overflows(x, y))
  {
    hide Fv, SumCarry, Overflow;
    FvSum9(x);
    FvSum9(y);
    FvSum9(SumLimbs(x, y));
    FvSum9(Overflows(x, y));
  }

  // No limb of the sum overflows its word once the carry from below is added.
  ghost predicate SumFits(x: seq<Word>, y: seq<Word>) {
    |x| == 9 == |y| && forall k :: 0 <= k < 9 ==> Overflow(x, y, k) == 0
  }

  // Room for the largest carry is enough, and elements have it.
  lemma RoomFits(x: seq<Word>, y: seq<Word>)
    requires |x| == 9 == |y| && forall k :: 0 <= k < 9 ==> x[k] as int + y[k] + 16 <= B
    ensures SumFits(x, y)
  {
    hide SumCarry;
  }

  lemma OkSum(x: seq<Word>, y: seq<Word>)
    ensures Ok(x) && Ok(y) ==> SumFits(x, y)
  {
    if Ok(x) && Ok(y) {
      RoomFits(x, y);
    }
  }

  // Room for the two limbs alone, which is what the comment asks for, is not.
  lemma CarryOverflows()
    ensures var x: seq<Word>, y: seq<Word> := [0x2000_0000, ONES, 0, 0, 0, 0, 0, 0, 0], [0, 0, 0, 0, 0, 0, 0, 0, 0];
            (forall k :: 0 <= k < 9 ==> x[k] as int + y[k] < B) && !SumFits(x, y)
  {
    var x: seq<Word>, y: seq<Word> := [0x2000_0000, ONES, 0, 0, 0, 0, 0, 0, 0], [0, 0, 0, 0, 0, 0, 0, 0, 0];
    assert SumCarry(x, y, 0) == 0;
    assert SumCarry(x, y, 1) == 1;
    assert Overflow(x, y, 1) == 1;
  }

  lemma SumWord(x: seq<Word>, y: seq<Word>, k: nat)
    requires |x| == 9 == |y| && k < 9
    ensures var c := SumCarry(x, y, k);
            var w := U32(U32(x[k] + y[k] as int) + c as int);
            w == SumLimbs(x, y)[k] + c && Moved(k, w) == SumCarry(x, y, k + 1)
  {
    hide U32, Moved;
    WrapSum(x[k] as int + y[k], SumCarry(x, y, k));
  }

  lemma WrapSum(a: int, c: int)
    ensures U32(U32(a) + c) == U32(a + c) == a + c - B * ((a + c) / B)
  {
  }

  // What overflows is never a multiple of P, because it is a number far below P times 2^32.
  lemma OverflowCounts(x: seq<Word>, y: seq<Word>, out: int)
    requires |x| == 9 == |y| && Cong(out, Fv(SumLimbs(x, y)), P)
    ensures Cong(out, Fv(x) + Fv(y), P) <==> SumFits(x, y)
  {
    hide Fv, Cong, Overflow, SumLimbs;
    var g := Fv(Overflows(x, y));
    SumLimbsValue(x, y);
    OverflowsSmall(x, y);
    if Cong(out, Fv(x) + Fv(y), P) {
      CongSub(out, Fv(x) + Fv(y), out, Fv(SumLimbs(x, y)), P);
      BInverts();
      CongSym(out - out, B * g, P);
      CongCancel(g, 0, B, BINV, P);
      CongSmall(g, 0, P);
    }
  }

  lemma OverflowsSmall(x: seq<Word>, y: seq<Word>)
    requires |x| == 9 == |y|
    ensures 0 <= Fv(Overflows(x, y)) < P
    ensures Fv(Overflows(x, y)) == 0 <==> SumFits(x, y)
  {
    hide Fv, SumCarry, Overflow;
    FvSum9(Overflows(x, y));
  }

  // 2^-32 mod P.
  const BINV: nat := 0xffffffff000000010000000000000000000000010000000000000000

  lemma BInverts()
    ensures Inverse(B, BINV, P)
  {
    CongIntro(B * BINV, 1, 1, P);
  }

  // out = in1 + in2, where out may be either operand. The result is within the bounds for any
  // words, and right exactly when no word overflows.
  method FelemSum(out: array<Word>, in1: array<Word>, in2: array<Word>)
    requires out.Length == in1.Length == in2.Length == 9
    modifies out
    ensures Ok(out[..])
    ensures Cong(Fv(out[..]), old(Fv(in1[..])) + old(Fv(in2[..])), P) <==> SumFits(old(in1[..]), old(in2[..]))
    ensures old(Ok(in1[..])) && old(Ok(in2[..])) ==> SumFits(old(in1[..]), old(in2[..]))
    ensures SumFits(old(in1[..]), old(in2[..])) ==> Res(out[..]) == AddP(old(Res(in1[..])), old(Res(in2[..])))
  {
    hide Fv, W, U32, Kept, Moved, Chain, Ok, Normal, Cong, Unscaled, AddP, SumCarry, SumLimbs, SumFits;
    ghost var x, y := in1[..], in2[..];
    OkSum(x, y);
    ghost var z, done: seq<Word> := SumLimbs(x, y), [];
    SumLength(x, y);
    var carry: Word := 0;
    var i := 0;
    ChainStart(z);
    while i < 9
      invariant 0 <= i <= 9 && carry == SumCarry(x, y, i)
      invariant |done| == i && out[..i] == done && Chain(done, carry, z)
      invariant forall k :: i <= k < 9 ==> in1[k] == x[k] && in2[k] == y[k]
    {
      SumWord(x, y, i);
      var w := U32(U32(in1[i] + in2[i] as int) + carry as int);
      ChainWord(done, carry, z, w);
      out[i], carry := Kept(i, w), Moved(i, w);
      done := done + [Kept(i, w)];
      assert out[..i + 1] == done;
      i := i + 1;
    }
    assert out[..] == done;
    ChainNormal(done, carry, z);
    ReduceCarry(out, carry);
    ChainEnd(done, carry, z, Fv(out[..]));
    OverflowCounts(x, y, Fv(out[..]));
    if SumFits(x, y) {
      SumStands(Fv(out[..]), Fv(x), Fv(y));
    }
  }

  lemma SumLength(x: seq<Word>, y: seq<Word>)
    requires |x| == 9 == |y|
    ensures |SumLimbs(x, y)| == 9 && SumCarry(x, y, 0) == 0
  {
  }

  // Eight times P, spread so that no limb of a difference goes below zero.
  const ZERO31: seq<Word> := [0x7fff_fff8, 0x3fff_fffc, 0x7fff_fffc, 0x4000_1ffc, 0x7fff_fffc,
                              0x3fff_fffc, 0x80ff_fffc, 0x37ff_fffc, 0x7fff_fffc]

  lemma Zero31Value()
    ensures |ZERO31| == 9 && Fv(ZERO31) == 8 * P
  {
    hide Fv;
    FvSum9(ZERO31);
  }

  function DiffLimbs(x: seq<int>, y: seq<int>): (z: seq<int>)
    requires |x| == 9 == |y|
  {
    seq(9, k requires 0 <= k < 9 => x[k] - y[k] + ZERO31[k])
  }

  lemma DiffValue(x: seq<int>, y: seq<int>)
    requires |x| == 9 == |y|
    ensures Fv(DiffLimbs(x, y)) == Fv(x) - Fv(y) + 8 * P
    ensures Cong(Fv(DiffLimbs(x, y)), Fv(x) - Fv(y), P)
  {
    hide Fv, Cong;
    Zero31Value();
    FvSum9(x);
    FvSum9(y);
    FvSum9(ZERO31);
    FvSum9(DiffLimbs(x, y));
    CongIntro(Fv(DiffLimbs(x, y)), Fv(x) - Fv(y), 8, P);
  }

  // The word of a difference never wraps once zero31 has been added.
  lemma DiffWord(x: seq<Word>, y: seq<Word>, i: nat, carry: Word)
    requires Loose(x) && Loose(y) && i < 9 && carry < 16
    ensures U32(U32(U32(x[i] as int - y[i]) + ZERO31[i] as int) + carry as int) == DiffLimbs(x, y)[i] + carry
  {
    hide U32;
    var d := x[i] as int - y[i] + ZERO31[i] + carry;
    assert 0 <= d < 0x1_0000_0000;
    WrapThrice(x[i] as int - y[i], ZERO31[i], carry);
  }

  lemma WrapThrice(a: int, b: int, c: int)
    requires 0 <= a + b + c < 0x1_0000_0000
    ensures U32(U32(U32(a) + b) + c) == a + b + c
  {
  }

  // out = in1 - in2 modulo P, where out may be either operand.
  method FelemDiff(out: array<Word>, in1: array<Word>, in2: array<Word>)
    requires out.Length == in1.Length == in2.Length == 9
    requires Loose(in1[..]) && Loose(in2[..])
    modifies out
    ensures Ok(out[..])
    ensures Cong(Fv(out[..]), old(Fv(in1[..])) - old(Fv(in2[..])), P)
    ensures Res(out[..]) == SubP(old(Res(in1[..])), old(Res(in2[..])))
  {
    hide Fv, W, U32, Kept, Moved, Chain, Ok, Normal, Cong, DiffLimbs, Loose, Unscaled, SubP;
    ghost var x, y := in1[..], in2[..];
    ghost var z, done: seq<Word> := DiffLimbs(x, y), [];
    DiffLength(x, y);
    var carry: Word := 0;
    var i := 0;
    ChainStart(z);
    while i < 9
      invariant 0 <= i <= 9 && carry < 16 && (i == 9 ==> carry < 8)
      invariant |done| == i && out[..i] == done && Chain(done, carry, z)
      invariant forall k :: i <= k < 9 ==> in1[k] == x[k] && in2[k] == y[k]
    {
      DiffWord(x, y, i, carry);
      var w := U32(U32(U32(in1[i] as int - in2[i]) + ZERO31[i] as int) + carry as int);
      ChainWord(done, carry, z, w);
      out[i], carry := Kept(i, w), Moved(i, w);
      done := done + [Kept(i, w)];
      assert out[..i + 1] == done;
      i := i + 1;
    }
    assert out[..] == done;
    ChainNormal(done, carry, z);
    ReduceCarry(out, carry);
    ChainEnd(done, carry, z, Fv(out[..]));
    DiffValue(x, y);
    CongTrans(Fv(out[..]), Fv(z), Fv(x) - Fv(y), P);
    DiffStands(Fv(out[..]), Fv(x), Fv(y));
  }

  lemma DiffLength(x: seq<int>, y: seq<int>)
    requires |x| == 9 == |y|
    ensures |DiffLimbs(x, y)| == 9
  {
  }

  function ScaleLimbs(c: int, x: seq<int>): (z: seq<int>)
    requires |x| == 9
  {
    seq(9, k requires 0 <= k < 9 => c * x[k])
  }

  lemma ScaleValue(c: int, x: seq<int>)
    requires |x| == 9 && c in {3, 4, 8}
    ensures Fv(ScaleLimbs(c, x)) == c * Fv(x)
  {
    hide Fv;
    FvSum9(x);
    FvSum9(ScaleLimbs(c, x));
  }

  lemma TripleWord(x: seq<Word>, i: nat, carry: Word)
    requires Loose(x) && i < 9 && carry < 16
    ensures U32(U32(x[i] as int * 3) + carry as int) == ScaleLimbs(3, x)[i] + carry
  {
    hide U32;
    WrapThrice(x[i] as int * 3, carry, 0);
    WrapTwice(x[i] as int * 3, 0, carry);
  }

  // out = 3 * out modulo P.
  method FelemScalar3(out: array<Word>)
    requires out.Length == 9 && Loose(out[..])
    modifies out
    ensures Ok(out[..])
    ensures Cong(Fv(out[..]), 3 * old(Fv(out[..])), P)
    ensures Res(out[..]) == MulP(3, old(Res(out[..])))
  {
    hide Fv, W, U32, Kept, Moved, Chain, Ok, Normal, Cong, ScaleLimbs, Loose, Unscaled, MulP;
    ghost var x := out[..];
    ghost var z, done: seq<Word> := ScaleLimbs(3, x), [];
    ScaleLength(3, x);
    var carry: Word := 0;
    var i := 0;
    ChainStart(z);
    while i < 9
      invariant 0 <= i <= 9 && carry < 16 && (i == 9 ==> carry < 8)
      invariant |done| == i && out[..i] == done && Chain(done, carry, z)
      invariant forall k :: i <= k < 9 ==> out[k] == x[k]
    {
      TripleWord(x, i, carry);
      var w := U32(U32(out[i] as int * 3) + carry as int);
      ChainWord(done, carry, z, w);
      out[i], carry := Kept(i, w), Moved(i, w);
      done := done + [Kept(i, w)];
      assert out[..i + 1] == done;
      i := i + 1;
    }
    assert out[..] == done;
    ChainNormal(done, carry, z);
    ReduceCarry(out, carry);
    ChainEnd(done, carry, z, Fv(out[..]));
    ScaleValue(3, x);
    ScaleStands(Fv(out[..]), 3, Fv(x));
  }

  lemma ScaleLength(c: int, x: seq<int>)
    requires |x| == 9
    ensures |ScaleLimbs(c, x)| == 9
  {
  }

  // x << log2(m) at limb i, as felem_scalar_4 and felem_scalar_8 take it apart: the
  // bits above the limb are fetched first because the shift drops those above 2^32.
  function ShiftKept(i: nat, m: int, x: Word, carry: Word): (w: Word) {
    U32(Kept(i, U32(x as int * m)) + carry as int)
  }

  function ShiftMoved(i: nat, m: int, x: Word, carry: Word): (c: Word)
    requires m in {4, 8}
  {
    U32(x / (Radix(i) / m) + Moved(i, ShiftKept(i, m, x, carry)) as int)
  }

  lemma ShiftWord(i: nat, m: int, x: Word, carry: Word)
    requires m in {4, 8} && carry <= 16 && x < 2 * Radix(i)
    ensures var lo := Kept(i, ShiftKept(i, m, x, carry));
            var c := ShiftMoved(i, m, x, carry);
            && lo + c * Radix(i) == m * x + carry && lo < Radix(i)
            && c <= 2 * m && (x < Radix(i) ==> c <= m)
  {
    hide U32, Kept, Moved, Radix;
    var h, low := DropHigh(i, m, x);
    RadixRange(i);
    SmallU32(low + carry);
    var q, lo := CarryOut(i, low + carry);
    SmallU32(h + q);
    Recombine(m * x, h, q, low, lo, carry, Radix(i));
  }

  lemma Recombine(v: int, h: int, q: int, low: int, lo: int, carry: int, r: int)
    requires v == low + h * r && low + carry == lo + q * r
    ensures lo + (h + q) * r == v + carry
  {
    MulAddLeft(h, q, r);
  }

  lemma RadixRange(i: nat)
    ensures 0x1000_0000 <= Radix(i) <= 0x2000_0000
  {
  }

  // The bits that the shift pushes above 2^32 are among those saved before it.
  lemma DropHigh(i: nat, m: int, x: Word) returns (h: int, low: int)
    requires m in {4, 8} && x < 2 * Radix(i)
    ensures Kept(i, U32(x as int * m)) == low && Radix(i) / m > 0 && x / (Radix(i) / m) == h
    ensures m * x == low + h * Radix(i) && 0 <= low < Radix(i)
    ensures 0 <= h < 2 * m && (x < Radix(i) ==> h < m)
  {
    hide U32, Low29, Low28;
    if i % 2 == 0 {
      if m == 4 {
        h, low := DropBits(0x2000_0000, 4, 0x800_0000, 8, x);
      } else {
        h, low := DropBits(0x2000_0000, 8, 0x400_0000, 8, x);
      }
    } else {
      if m == 4 {
        h, low := DropBits(0x1000_0000, 4, 0x400_0000, 16, x);
      } else {
        h, low := DropBits(0x1000_0000, 8, 0x200_0000, 16, x);
      }
    }
  }

  // A wrap at 2^32 = e * r is invisible modulo r, and the bits above r are those above g.
  lemma DropBits(r: int, m: int, g: int, e: int, x: Word) returns (h: int, low: int)
    requires m > 0 && g > 0 && r == m * g && e * r == 0x1_0000_0000
    ensures U32(x as int * m) % r == low && x / g == h
    ensures x as int * m == low + h * r && 0 <= low < r
  {
    hide U32;
    h, low := x / g, (x % g) * m;
    MulAddLeft(h * g, x % g, m);
    MulAssoc(h, g, m);
    MulMono(x % g, g - 1, m);
    MulMono(0, x % g, m);
    MulSubLeft(g, 1, m);
    DivModUnique(x as int * m, h, low, r);
    Unwrap(x as int * m, e, r);
  }

  lemma Unwrap(v: int, e: int, r: int)
    requires r > 0 && e * r == 0x1_0000_0000
    ensures U32(v) % r == v % r
  {
    var k := v / 0x1_0000_0000;
    MulAssoc(k, e, r);
    CongIntro(U32(v), v, -(k * e), r);
  }

  lemma CarryOut(i: nat, w: Word) returns (q: int, lo: int)
    requires w < Radix(i) + 16
    ensures Kept(i, w) == lo && Moved(i, w) == q
    ensures w == lo + q * Radix(i) && 0 <= lo < Radix(i) && 0 <= q <= 1
  {
    hide Low29, Low28;
    q, lo := Moved(i, w), Kept(i, w);
  }

  // out = 4 * out modulo P.
  method FelemScalar4(out: array<Word>)
    requires out.Length == 9 && Loose(out[..])
    modifies out
    ensures Ok(out[..])
    ensures Cong(Fv(out[..]), 4 * old(Fv(out[..])), P)
    ensures Res(out[..]) == MulP(4, old(Res(out[..])))
  {
    hide Fv, W, U32, Kept, Moved, ShiftKept, ShiftMoved, Chain, Ok, Normal, Cong, ScaleLimbs, Loose, Radix, Unscaled, MulP;
    ghost var x := out[..];
    ghost var z, done: seq<Word> := ScaleLimbs(4, x), [];
    ScaleLength(4, x);
    var carry: Word := 0;
    var i := 0;
    ChainStart(z);
    while i < 9
      invariant 0 <= i <= 9 && carry <= 8
      invariant |done| == i && out[..i] == done && Chain(done, carry, z)
      invariant forall k :: i <= k < 9 ==> out[k] == x[k]
    {
      ShiftLimb(done, 4, x, i, carry);
      var w := ShiftKept(i, 4, out[i], carry);
      carry := ShiftMoved(i, 4, out[i], carry);
      out[i] := Kept(i, w);
      done := done + [Kept(i, w)];
      assert out[..i + 1] == done;
      i := i + 1;
    }
    assert out[..] == done;
    ChainNormal(done, carry, z);
    ReduceCarry(out, carry);
    ChainEnd(done, carry, z, Fv(out[..]));
    ScaleValue(4, x);
    ScaleStands(Fv(out[..]), 4, Fv(x));
  }

  lemma ShiftLimb(done: seq<Word>, m: int, x: seq<Word>, i: nat, carry: Word)
    requires m in {4, 8} && |done| == i < 9 && Loose(x) && carry <= 16
    requires Chain(done, carry, ScaleLimbs(m, x))
    ensures var w := ShiftKept(i, m, x[i], carry);
            var c := ShiftMoved(i, m, x[i], carry);
            && Chain(done + [Kept(i, w)], c, ScaleLimbs(m, x))
            && c <= 2 * m && (i == 8 && x[8] < 0x2000_0000 ==> c <= m)
  {
    hide Chain, Kept, ShiftKept, ShiftMoved;
    ShiftWord(i, m, x[i], carry);
    var w := ShiftKept(i, m, x[i], carry);
    ChainNext(done, carry, ScaleLimbs(m, x), Kept(i, w), ShiftMoved(i, m, x[i], carry));
  }

  // Limb 7 that felem_scalar_8 leaves for eight times a value v.
  function Eighth7(v: int): (t: int) {
    (v / 0x100_0000_0000_0000_0000_0000_0000_0000_0000_0000_0000_0000_0000) % 0x1000_0000
    + (v / RR) * 0x200_0000 - (if v / RR == 0 then 0 else 1)
  }

  // out = 8 * out modulo P. The stated entry bound is not enough for the stated exit
  // bound, which holds exactly when limb 7 of the result does not outgrow it.
  method FelemScalar8(out: array<Word>)
    requires out.Length == 9 && Loose(out[..])
    modifies out
    ensures Cong(Fv(out[..]), 8 * old(Fv(out[..])), P)
    ensures Res(out[..]) == MulP(8, old(Res(out[..])))
    ensures Loose(out[..]) <==> Eighth7(8 * old(Fv(out[..]))) < 0x2000_0000
    ensures old(out[8]) < 0x2000_0000 ==> Ok(out[..])
  {
    hide Fv, W, U32, Kept, Moved, ShiftKept, ShiftMoved, Chain, Ok, Normal, Cong, ScaleLimbs, Loose, Radix, Eighth7, Unscaled, MulP;
    ghost var x := out[..];
    ghost var z, done: seq<Word> := ScaleLimbs(8, x), [];
    ScaleLength(8, x);
    var carry: Word := 0;
    var i := 0;
    ChainStart(z);
    while i < 9
      invariant 0 <= i <= 9 && carry <= 16 && (i == 9 && x[8] < 0x2000_0000 ==> carry <= 8)
      invariant |done| == i && out[..i] == done && Chain(done, carry, z)
      invariant forall k :: i <= k < 9 ==> out[k] == x[k]
    {
      ShiftLimb(done, 8, x, i, carry);
      var w := ShiftKept(i, 8, out[i], carry);
      carry := ShiftMoved(i, 8, out[i], carry);
      out[i] := Kept(i, w);
      done := done + [Kept(i, w)];
      assert out[..i + 1] == done;
      i := i + 1;
    }
    assert out[..] == done;
    ChainNormal(done, carry, z);
    ReduceCarry(out, carry);
    ChainEnd(done, carry, z, Fv(out[..]));
    ScaleValue(8, x);
    ScaleStands(Fv(out[..]), 8, Fv(x));
    Eighth7Limb(done, carry, z);
  }

  lemma Eighth7Limb(done: seq<Word>, carry: Word, z: seq<int>)
    requires |done| == 9 == |z| && Chain(done, carry, z)
    ensures Eighth7(Fv(z)) == done[7] + carry * 0x200_0000 - (if carry == 0 then 0 else 1)
  {
    hide Fv, W, Normal;
    ChainNormal(done, carry, z);
    Weights();
    assert z[..9] == z;
    NormalDigits(done, carry);
  }

  // The carry and limb 7 are digits of the value.
  lemma NormalDigits(s: seq<Word>, carry: Word)
    requires Normal(s)
    ensures var v := Fv(s) + carry * RR;
            && 0 <= Fv(s) < RR
            && v / RR == carry
            && (v / 0x100_0000_0000_0000_0000_0000_0000_0000_0000_0000_0000_0000_0000) % 0x1000_0000 == s[7]
  {
    hide Fv;
    FvSum9(s);
    TopDigits(s[7], s[8], carry, Fv(s));
  }

  lemma TopDigits(s7: Word, s8: Word, carry: Word, f: int)
    requires s7 < 0x1000_0000 && s8 < 0x2000_0000
    requires var w7 := 0x100_0000_0000_0000_0000_0000_0000_0000_0000_0000_0000_0000_0000;
             0 <= f - (s7 + 0x1000_0000 * s8) * w7 < w7
    ensures var v := f + carry * RR;
            && 0 <= f < RR && v / RR == carry
            && (v / 0x100_0000_0000_0000_0000_0000_0000_0000_0000_0000_0000_0000_0000) % 0x1000_0000 == s7
  {
    var w7 := 0x100_0000_0000_0000_0000_0000_0000_0000_0000_0000_0000_0000_0000;
    var top := s8 + 0x2000_0000 * carry;
    var high := s7 + 0x1000_0000 * top;
    DivModUnique(f + carry * RR, carry, f, RR);
    DivModUnique(f + carry * RR, high, f - (s7 + 0x1000_0000 * s8) * w7, w7);
    DivModUnique(high, top, s7, 0x1000_0000);
  }

  // An input within the stated entry bound whose result breaks the stated exit bound.
  lemma Scalar8Exceeds()
    ensures var x: seq<Word> := [0, 0, 0, 0, 0, 0, 0, 0x1fff_ffff, 0x3fff_ffff];
            Loose(x) && Eighth7(8 * Fv(x)) >= 0x2000_0000
  {
    hide Fv;
    FvSum9([0, 0, 0, 0, 0, 0, 0, 0x1fff_ffff, 0x3fff_ffff]);
  }
}
