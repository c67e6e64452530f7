/** p256.c: arithmetic on 256-bit integers held in eight 32-bit digits. */
module P256Int {
  import opened Arith
  import opened BigNum
  import opened Bits

  // 2^256, the first value that eight digits do not hold.
  const R: nat := 0x1_0000_0000_0000_0000_0000_0000_0000_0000_0000_0000_0000_0000_0000_0000_0000_0000

  const ONES: Word := 0xffff_ffff

  // The C complement of a word.
  function Not(x: Word): (w: Word) {
    ONES - x
  }

  lemma EightDigits()
    ensures BPow(8) == R
  {
  }

  lemma DigitsBound(s: seq<Word>)
    requires |s| == 8
    ensures Val(s) < R
  {
    hide Val, BPow;
    EightDigits();
    ValBound(s);
  }

  // A digit under an all-ones or all-zeros mask.
  lemma MaskedDigit(x: Word, mask: Word)
    requires mask == 0 || mask == ONES
    ensures And(x, mask) == if mask == 0 then 0 else x
  {
    if mask == ONES {
      OnesMask(x);
    }
  }

  lemma OnesMask(x: Word)
    ensures And(x, ONES) == x
  {
    hide And;
    ThirtyTwo();
    AndMask(x, 32);
    AndSym(x, ONES);
  }

  lemma ThirtyTwo()
    ensures Pow(2, 32) == B
  {
    assert Pow(2, 4) == 16;
    PowAdd(2, 4, 4);
    PowAdd(2, 8, 8);
    PowAdd(2, 16, 16);
  }

  // c[off..off + 8] += a * b; returns top plus the carry out.
  method MulAdd(a: array<Word>, b: Word, top: Word, c: array<Word>, off: nat) returns (r: Word)
    requires a.Length == 8 && off + 8 <= c.Length && a != c
    modifies c
    ensures c[..off] == old(c[..off]) && c[off + 8..] == old(c[off + 8..])
    ensures var s := old(Val(c[off..off + 8])) + Val(a[..]) * b;
            s >= 0 && Val(c[off..off + 8]) == s % R && r == U32(top + s / R)
  {
    hide Val, BPow, U32, U64, MulSum;
    ghost var was, x := c[..], a[..];
    ghost var w := was[off..off + 8];
    var i := 0;
    var carry: nat := 0;
    MulAddStart(w, x, b);
    assert c[off..off + 0] == [];
    while i < 8
      invariant 0 <= i <= 8 && carry < B
      invariant a[..] == x
      invariant forall k :: 0 <= k < c.Length && !(off <= k < off + i) ==> c[k] == was[k]
      invariant Val(c[off..off + i]) + carry * BPow(i) == MulSum(w, x, b, i)
    {
      ghost var before := c[off..off + i];
      MulAddCarry(before, w, x, b, i, carry);
      carry := U64(carry + c[off + i]);
      carry := U64(carry + a[i] * b);
      c[off + i] := U32(carry);
      carry := carry / B;
      assert c[off..off + i + 1] == before + [c[off + i]];
      i := i + 1;
    }
    MulAddOut(c[off..off + 8], w, x, b, carry, top);
    MulSumAll(w, x, b);
    r := U32(top + U32(carry));
  }

  ghost function MulSum(w: seq<Word>, x: seq<Word>, b: Word, i: nat): int
    requires i <= |w| && i <= |x|
  {
    Val(w[..i]) + Val(x[..i]) * b
  }

  lemma MulAddStart(w: seq<Word>, x: seq<Word>, b: Word)
    ensures Val([]) + 0 * BPow(0) == MulSum(w, x, b, 0)
  {
    ValBase();
    assert w[..0] == [] && x[..0] == [];
  }

  lemma MulAddCarry(before: seq<Word>, w: seq<Word>, x: seq<Word>, b: Word, i: nat, carry: nat)
    requires |before| == i < |w| == |x| && carry < B
    requires Val(before) + carry * BPow(i) == MulSum(w, x, b, i)
    ensures var t := U64(U64(carry + w[i]) + x[i] * b);
            0 <= t / B < B && Val(before + [U32(t)]) + (t / B) * BPow(i + 1) == MulSum(w, x, b, i + 1)
  {
    hide Val, BPow, MulSum, U32, U64;
    AddProductFits(carry, w[i], x[i], b);
    var t := U64(U64(carry + w[i]) + x[i] * b);
    PutDigit(before, carry, w[i] + x[i] as int * b, U32(t), t / B);
    MulSumNext(w, x, b, i);
  }

  lemma AddProductFits(carry: nat, w: Word, x: Word, b: Word)
    requires carry < B
    ensures var t := U64(U64(carry + w) + x * b);
            t == carry + w + x * b && 0 <= t / B < B && U32(t) + (t / B) * B == t
  {
    ProductFits(x, b, carry, w);
  }

  lemma MulSumNext(w: seq<Word>, x: seq<Word>, b: Word, i: nat)
    requires i < |w| == |x|
    ensures MulSum(w, x, b, i + 1) == MulSum(w, x, b, i) + (w[i] + x[i] as int * b) * BPow(i)
  {
    hide Val, BPow;
    ValPrefix(w, i);
    ValPrefix(x, i);
    MulAddLeft(Val(x[..i]), x[i] * BPow(i), b);
    MulSwap(x[i], BPow(i), b);
    MulAddLeft(w[i], x[i] as int * b, BPow(i));
  }

  lemma MulAddOut(out: seq<Word>, w: seq<Word>, x: seq<Word>, b: Word, carry: nat, top: Word)
    requires |out| == |w| == |x| == 8 && carry < B
    requires Val(out) + carry * BPow(8) == MulSum(w, x, b, 8)
    ensures var s := MulSum(w, x, b, 8);
            s >= 0 && Val(out) == s % R && U32(top + U32(carry)) == U32(top + s / R)
  {
    hide Val, BPow, MulSum;
    DigitsBound(out);
    EightDigits();
    DivModUnique(MulSum(w, x, b, 8), carry, Val(out), R);
  }

  lemma MulSumAll(w: seq<Word>, x: seq<Word>, b: Word)
    requires |w| == |x| == 8
    ensures MulSum(w, x, b, 8) == Val(w) + Val(x) * b
  {
    assert w[..8] == w && x[..8] == x;
  }

  // c[off..off + 8] -= a with top digits; the caller keeps the difference non-negative.
  method SubTop(topA: Word, a: array<Word>, topC: Word, c: array<Word>, off: nat) returns (r: Word)
    requires a.Length == 8 && off + 8 <= c.Length && a != c
    requires topA * R + Val(a[..]) <= topC * R + Val(c[off..off + 8])
    modifies c
    ensures c[..off] == old(c[..off]) && c[off + 8..] == old(c[off + 8..])
    ensures Val(c[off..off + 8]) + r * R == old(Val(c[off..off + 8])) + topC * R - Val(a[..]) - topA * R
  {
    hide Val, BPow, U32, S64, U64;
    ghost var was, x := c[..], a[..];
    ghost var w := was[off..off + 8];
    var i := 0;
    var borrow: int := 0;
    ValBase();
    assert c[off..off + 0] == [] && w[..0] == [] && x[..0] == [];
    while i < 8
      invariant 0 <= i <= 8 && -1 <= borrow <= 0
      invariant a[..] == x
      invariant forall k :: 0 <= k < c.Length && !(off <= k < off + i) ==> c[k] == was[k]
      invariant Val(c[off..off + i]) + borrow * BPow(i) == Val(w[..i]) - Val(x[..i])
    {
      ghost var before := c[off..off + i];
      SubDigit(before, w, x, i, borrow);
      borrow := S64(borrow + c[off + i]);
      borrow := S64(borrow - a[i]);
      c[off + i] := U32(borrow);
      borrow := borrow / B;
      assert c[off..off + i + 1] == before + [c[off + i]];
      i := i + 1;
    }
    assert w[..8] == w && x[..8] == x;
    SubTopOut(c[off..off + 8], w, x, borrow, topA, topC);
    borrow := S64(borrow + topC);
    borrow := S64(borrow - topA);
    r := U32(borrow);
    assert borrow / B == 0;
  }

  lemma SubDigit(before: seq<Word>, w: seq<Word>, x: seq<Word>, i: nat, borrow: int)
    requires |before| == i < |w| == |x| && -1 <= borrow <= 0
    requires Val(before) + borrow * BPow(i) == Val(w[..i]) - Val(x[..i])
    ensures var t := S64(S64(borrow + w[i]) - x[i]);
            && t == borrow + w[i] - x[i]
            && -1 <= t / B <= 0
            && Val(before + [U32(t)]) + (t / B) * BPow(i + 1) == Val(w[..i + 1]) - Val(x[..i + 1])
  {
    hide Val, BPow, U32, S64, U64;
    SignedStep(borrow, w[i], x[i]);
    var t := borrow + w[i] - x[i];
    PutDigit(before, borrow, w[i] as int - x[i], U32(t), t / B);
    ValPrefix(w, i);
    ValPrefix(x, i);
    MulSubLeft(w[i], x[i], BPow(i));
  }

  lemma SignedStep(borrow: int, u: Word, v: Word)
    requires -1 <= borrow <= 0
    ensures var t := S64(S64(borrow + u) - v);
            t == borrow + u - v && -1 <= t / B <= 0 && U32(t) + (t / B) * B == t
  {
  }

  lemma SubTopOut(out: seq<Word>, w: seq<Word>, x: seq<Word>, borrow: int, topA: Word, topC: Word)
    requires |out| == |w| == |x| == 8 && -1 <= borrow <= 0
    requires Val(out) + borrow * BPow(8) == Val(w) - Val(x)
    requires topA * R + Val(x) <= topC * R + Val(w)
    ensures var t := S64(S64(borrow + topC) - topA);
            && t / B == 0 && Val(out) + U32(t) * R == Val(w) + topC * R - Val(x) - topA * R
  {
    hide Val, BPow, U32, S64, U64;
    DigitsBound(out);
    EightDigits();
    TopDigit(borrow, topA, topC);
    assert borrow * R + topC * R - topA * R >= -(Val(out) as int);
  }

  lemma TopDigit(borrow: int, topA: Word, topC: Word)
    requires -1 <= borrow <= 0
    ensures var t := borrow + topC - topA;
            S64(S64(borrow + topC) - topA) == t && (t >= 0 ==> t / B == 0 && U32(t) == t)
  {
  }

  // top, c[off..off + 8] -= MOD & mask; returns the new top.
  method SubM(mod: array<Word>, top: Word, c: array<Word>, off: nat, mask: Word) returns (r: Word)
    requires mod.Length == 8 && off + 8 <= c.Length && mod != c
    requires mask == 0 || mask == ONES
    modifies c
    ensures c[..off] == old(c[..off]) && c[off + 8..] == old(c[off + 8..])
    ensures var m := if mask == 0 then 0 else Val(mod[..]);
            var s := old(Val(c[off..off + 8]));
            && Val(c[off..off + 8]) == s - m + (if s < m then R else 0)
            && r == U32(top - (if s < m then 1 else 0))
  {
    hide Val, BPow, U32, S64, U64, And;
    ghost var was := c[..];
    ghost var w, x := was[off..off + 8], Masked(mod[..], mask);
    var i := 0;
    var borrow: int := 0;
    ValBase();
    assert c[off..off + 0] == [] && w[..0] == [] && x[..0] == [];
    while i < 8
      invariant 0 <= i <= 8 && -1 <= borrow <= 0
      invariant Masked(mod[..], mask) == x
      invariant forall k :: 0 <= k < c.Length && !(off <= k < off + i) ==> c[k] == was[k]
      invariant Val(c[off..off + i]) + borrow * BPow(i) == Val(w[..i]) - Val(x[..i])
    {
      ghost var before := c[off..off + i];
      SubDigit(before, w, x, i, borrow);
      MaskedDigit(mod[i], mask);
      borrow := S64(borrow + c[off + i]);
      borrow := S64(borrow - And(mod[i], mask));
      c[off + i] := U32(borrow);
      borrow := borrow / B;
      assert c[off..off + i + 1] == before + [c[off + i]];
      i := i + 1;
    }
    assert w[..8] == w && x[..8] == x;
    EightDigits();
    BorrowOut(c[off..off + 8], w, x, borrow);
    MaskedValue(mod[..], mask);
    BorrowTop(top, borrow);
    r := U32(top + U32(borrow));
  }

  // The operand a mask leaves of a modulus.
  ghost function Masked(m: seq<Word>, mask: Word): (x: seq<Word>)
    ensures |x| == |m|
  {
    if mask == 0 then seq(|m|, i => 0) else m
  }

  lemma MaskedValue(m: seq<Word>, mask: Word)
    ensures Val(Masked(m, mask)) == if mask == 0 then 0 else Val(m)
  {
    hide Val;
    if mask == 0 {
      ValZeros(Masked(m, mask));
    }
  }

  lemma BorrowTop(top: Word, borrow: int)
    requires -1 <= borrow <= 0
    ensures U32(top + U32(borrow)) == U32(top + borrow)
  {
  }

  // top, c[..8] += MOD & mask; returns the new top.
  method AddM(mod: array<Word>, top: Word, c: array<Word>, mask: Word) returns (r: Word)
    requires mod.Length == 8 && 8 <= c.Length && mod != c
    requires mask == 0 || mask == ONES
    modifies c
    ensures c[8..] == old(c[8..])
    ensures var s := old(Val(c[..8])) + (if mask == 0 then 0 else Val(mod[..]));
            && s >= 0 && Val(c[..8]) == s % R && r == U32(top + s / R)
  {
    hide Val, BPow, U32, U64, And, MulSum;
    ghost var was := c[..];
    ghost var w, x := was[..8], Masked(mod[..], mask);
    var i := 0;
    var carry: nat := 0;
    MulAddStart(w, x, 1);
    assert c[..0] == [];
    while i < 8
      invariant 0 <= i <= 8 && carry < B
      invariant Masked(mod[..], mask) == x
      invariant forall k :: i <= k < c.Length ==> c[k] == was[k]
      invariant Val(c[..i]) + carry * BPow(i) == MulSum(w, x, 1, i)
    {
      ghost var before := c[..i];
      MulAddCarry(before, w, x, 1, i, carry);
      MaskedDigit(mod[i], mask);
      carry := U64(carry + c[i]);
      carry := U64(carry + And(mod[i], mask));
      c[i] := U32(carry);
      carry := carry / B;
      assert c[..i + 1] == before + [c[i]];
      i := i + 1;
    }
    MulAddOut(c[..8], w, x, 1, carry, top);
    MulSumAll(w, x, 1);
    MaskedValue(mod[..], mask);
    r := U32(top + U32(carry));
  }

  // addM(MOD, 0, c, subM(MOD, 0, c, -1)): one subtraction, undone by its own borrow.
  method ReduceOnce(mod: array<Word>, c: array<Word>)
    requires mod.Length == 8 && 8 <= c.Length && mod != c
    modifies c
    ensures c[8..] == old(c[8..])
    ensures var s, m := old(Val(c[..8])), Val(mod[..]);
            Val(c[..8]) == if s >= m then s - m else s
  {
    hide Val, BPow, U32;
    ghost var s, m := Val(c[..8]), Val(mod[..]);
    DigitsBound(c[..8]);
    DigitsBound(mod[..]);
    AllOnes();
    assert c[0..8] == c[..8];
    var under := SubM(mod, 0, c, 0, ONES);
    assert c[0..8] == c[..8];
    ghost var mid := Val(c[..8]);
    var _ := AddM(mod, 0, c, under);
    AddedBack(s, m, mid, under, Val(c[..8]));
  }

  lemma AllOnes()
    ensures U32(0 - 1) == ONES && U32(0 - 0) == 0
  {
  }

  lemma AddedBack(s: nat, m: nat, mid: int, under: Word, out: nat)
    requires s < R && m < R && mid == s - m + (if s < m then R else 0)
    requires under == if s < m then ONES else 0
    requires var t := mid + (if under == 0 then 0 else m); t >= 0 && out == t % R
    ensures out == if s >= m then s - m else s
  {
  }

  // p256_mod: reduces a value below 2 * MOD, in place or into another integer.
  method Mod(mod: array<Word>, a: array<Word>, b: array<Word>)
    requires mod.Length == a.Length == b.Length == 8 && mod != b
    modifies b
    ensures var s, m := old(Val(a[..])), Val(mod[..]);
            && Val(b[..]) == (if s >= m then s - m else s)
            && (s < 2 * m ==> Val(b[..]) == s % m)
  {
    hide Val;
    ghost var x := a[..];
    if b != a {
      forall k | 0 <= k < 8 {
        b[k] := a[k];
      }
    }
    assert b[..] == x && b[..8] == b[..];
    ReduceOnce(mod, b);
    assert b[..8] == b[..];
    if Val(x) < 2 * Val(mod[..]) {
      SmallMod(Val(x), Val(mod[..]));
    }
  }

  lemma SmallMod(s: nat, m: nat)
    requires s < 2 * m
    ensures s % m == if s >= m then s - m else s
  {
    if s >= m {
      DivModUnique(s, 1, s - m, m);
    } else {
      DivModUnique(s, 0, s, m);
    }
  }
}
