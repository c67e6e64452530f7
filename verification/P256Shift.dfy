/** p256.c: the shifts, comparisons and carry-returning sums. */
module P256Shift {
  import opened Arith
  import opened BigNum
  import opened Bits
  import opened P256Int

  // b = a << n for n not a multiple of 32 (the C shift by 32 - n is undefined there);
  // returns the bits shifted out. b may be a.
  method Shl(a: array<Word>, n: nat, b: array<Word>) returns (top: Word)
    requires a.Length == 8 == b.Length && n % 32 != 0
    modifies b
    ensures Val(b[..]) + top * R == Pow(2, n % 32) * old(Val(a[..]))
  {
    hide Val, BPow, Or, U32, U64, Pow, ShlDigit;
    ghost var x := a[..];
    var k := n % 32;
    ShiftPowers(k);
    var p, q := Pow(2, k), Pow(2, 32 - k);
    top := a[7];
    var i := 7;
    while i > 0
      invariant 0 <= i <= 7
      invariant forall j :: 0 <= j <= i ==> a[j] == x[j]
      invariant forall j :: i < j < 8 ==> b[j] == ShlDigit(x, j, p, q)
    {
      ShlWord(x, i, k);
      var accu := Or(U32(a[i] as int * p), a[i - 1] / q);
      b[i] := accu;
      i := i - 1;
    }
    ShlWord(x, 0, k);
    b[i] := U32(a[i] as int * p);
    ShlTop(top, k);
    top := U32(U64(top as int * p) / B);
    ShlValue(x, b[..], k);
  }

  // Digit j of a shifted left by k bits, where p = 2^k and q = 2^(32 - k).
  function ShlDigit(x: seq<Word>, j: nat, p: int, q: int): (d: int)
    requires j < |x| && q > 0
  {
    (x[j] % q) * p + (if j == 0 then 0 else x[j - 1] / q)
  }

  lemma ShiftPowers(k: nat)
    requires 0 < k < 32
    ensures 0 < Pow(2, k) < B && 0 < Pow(2, 32 - k) < B && Pow(2, k) * Pow(2, 32 - k) == B
  {
    hide Pow;
    PowAdd(2, k, 32 - k);
    ThirtyTwo();
    PowAtLeast(k);
    PowAtLeast(32 - k);
    LessThanProduct(Pow(2, k), Pow(2, 32 - k));
  }

  lemma {:induction false} PowAtLeast(k: nat)
    ensures Pow(2, k) >= 1 && (k > 0 ==> Pow(2, k) >= 2)
  {
    if k > 0 {
      PowAtLeast(k - 1);
    }
  }

  lemma LessThanProduct(p: int, q: int)
    requires p >= 2 && q >= 2
    ensures p < p * q && q < p * q
  {
    MulMono(2, q, p);
    MulMono(2, p, q);
  }

  // The truncated shift keeps the low 32 - k bits of the digit.
  lemma ShlWord(x: seq<Word>, j: nat, k: nat)
    requires j < |x| && 0 < k < 32 && Pow(2, 32 - k) > 0
    ensures var p, q := Pow(2, k), Pow(2, 32 - k);
            && p > 0
            && 0 <= ShlDigit(x, j, p, q) < B
            && U32(x[j] as int * p) == (x[j] % q) * p
            && (j == 0 ==> U32(x[j] as int * p) == ShlDigit(x, j, p, q))
            && (j > 0 ==> Or(U32(x[j] as int * p), x[j - 1] / q) == ShlDigit(x, j, p, q))
  {
    hide Pow, Or, U32, ShlDigit;
    ShiftPowers(k);
    var p, q := Pow(2, k), Pow(2, 32 - k);
    ShiftedWord(x[j], p, q);
    var low := if j == 0 then 0 else x[j - 1] / q;
    LowPart(if j == 0 then 0 else x[j - 1], p, q);
    OrShifted(x[j] % q, low, k);
    ShlDigitIs(x, j, p, q);
  }

  lemma ShlDigitIs(x: seq<Word>, j: nat, p: int, q: int)
    requires j < |x| && q > 0
    ensures ShlDigit(x, j, p, q) == (x[j] % q) * p + (if j == 0 then 0 else x[j - 1] / q)
  {
  }

  lemma ShiftedWord(w: Word, p: int, q: int)
    requires p > 0 && q > 0 && p * q == B
    ensures U32(w as int * p) == (w % q) * p && 0 <= (w % q) * p <= B - p
  {
    var h, l := w / q, w % q;
    assert w == h * q + l;
    MulAddLeft(h * q, l, p);
    MulAssoc(h, q, p);
    MulMono(l, q - 1, p);
    MulMono(0, l, p);
    MulSubLeft(q, 1, p);
    DivModUnique(w as int * p, h, l * p, B);
  }

  // The bits that a digit hands to the next one fit under its shift.
  lemma LowPart(w: Word, p: int, q: int)
    requires p > 0 && q > 0 && p * q == B
    ensures 0 <= w / q < p && 0 <= w % q < q
  {
    assert w == (w / q) * q + w % q;
    MulLess(w / q, p, q);
  }

  lemma ShlTop(top: Word, k: nat)
    requires 0 < k < 32 && Pow(2, 32 - k) > 0
    ensures U32(U64(top as int * Pow(2, k)) / B) == top / Pow(2, 32 - k)
  {
    hide Pow;
    ShiftPowers(k);
    TopBits(top, Pow(2, k), Pow(2, 32 - k));
  }

  lemma TopBits(w: Word, p: int, q: int)
    requires 0 < p < B && q > 0 && p * q == B
    ensures U32(U64(w as int * p) / B) == w / q
  {
    var h, l := w / q, w % q;
    LowPart(w, p, q);
    assert w == h * q + l;
    MulAddLeft(h * q, l, p);
    MulAssoc(h, q, p);
    MulMono(l, q - 1, p);
    MulMono(0, l, p);
    MulSubLeft(q, 1, p);
    DivModUnique(w as int * p, h, l * p, B);
  }

  lemma ShlValue(x: seq<Word>, b: seq<Word>, k: nat)
    requires |x| == 8 == |b| && 0 < k < 32 && Pow(2, 32 - k) > 0
    requires forall j :: 0 <= j < 8 ==> b[j] == ShlDigit(x, j, Pow(2, k), Pow(2, 32 - k))
    ensures Val(b) + (x[7] / Pow(2, 32 - k)) * R == Pow(2, k) * Val(x)
  {
    hide Pow, Val, BPow, ShlDigit;
    ShiftPowers(k);
    ShlPrefix(x, b, Pow(2, k), Pow(2, 32 - k), 8);
    assert b[..8] == b && x[..8] == x;
    EightDigits();
  }

  lemma {:induction false} ShlPrefix(x: seq<Word>, b: seq<Word>, p: int, q: int, i: nat)
    requires |x| == 8 == |b| && p > 0 && q > 0 && p * q == B && i <= 8
    requires forall j :: 0 <= j < 8 ==> b[j] == ShlDigit(x, j, p, q)
    ensures Val(b[..i]) + (if i == 0 then 0 else x[i - 1] / q) * BPow(i) == p * Val(x[..i])
  {
    hide Val, BPow, ShlDigit;
    if i == 0 {
      ValBase();
      assert b[..0] == [] && x[..0] == [];
    } else {
      ShlPrefix(x, b, p, q, i - 1);
      ValPrefix(b, i - 1);
      ValPrefix(x, i - 1);
      BPowSucc(i - 1);
      ShlDigitIs(x, i - 1, p, q);
      ShlStep(p, q, BPow(i - 1), x[i - 1], if i == 1 then 0 else x[i - 2] / q, Val(x[..i - 1]));
    }
  }

  lemma ShlStep(p: int, q: int, w: int, d: int, low: int, v: int)
    requires q > 0 && p * q == B
    ensures ((d % q) * p + low) * w + (d / q) * (B * w) == p * (d * w) + low * w
    ensures p * (v + d * w) == p * v + p * (d * w)
  {
    var h, l := d / q, d % q;
    MulAddLeft(l * p, low, w);
    MulSwap(l, p, w);
    MulAddRight(p, v, d * w);
    DigitShift(p, q, w, h, l);
    assert d == h * q + l;
  }

  lemma DigitShift(p: int, q: int, w: int, h: int, l: int)
    requires p * q == B
    ensures (l * p) * w + h * (B * w) == p * ((h * q + l) * w)
  {
    calc {
      p * ((h * q + l) * w);
      { MulAssoc(p, h * q + l, w); }
      (p * (h * q + l)) * w;
      { MulAddRight(p, h * q, l); MulAssoc(p, h, q); MulSwap(p, h, q); }
      (B * h + p * l) * w;
      { MulAddLeft(B * h, p * l, w); MulSwap(B, h, w); }
      h * (B * w) + (l * p) * w;
    }
  }

  // b = a >> n for n not a multiple of 32. b may be a.
  method Shr(a: array<Word>, n: nat, b: array<Word>)
    requires a.Length == 8 == b.Length && n % 32 != 0
    modifies b
    ensures Pow(2, n % 32) > 0 && Val(b[..]) == old(Val(a[..])) / Pow(2, n % 32)
  {
    hide Val, BPow, Or, U32, Pow, ShrDigit;
    ghost var x := a[..];
    var k := n % 32;
    ShiftPowers(k);
    var p, q := Pow(2, k), Pow(2, 32 - k);
    var i := 0;
    while i < 7
      invariant 0 <= i <= 7
      invariant forall j :: i <= j < 8 ==> a[j] == x[j]
      invariant forall j :: 0 <= j < i ==> b[j] == ShrDigit(x + [0], j, p, q)
    {
      ShrWord(x + [0], i, k);
      var accu := Or(a[i] / p, U32(a[i + 1] as int * q));
      b[i] := accu;
      i := i + 1;
    }
    ShrWord(x + [0], 7, k);
    b[i] := a[i] / p;
    ShrValue(x, 0, b[..], k);
  }

  // b = (highbit, a) >> 1. b may be a.
  method Shr1(a: array<Word>, highbit: Word, b: array<Word>)
    requires a.Length == 8 == b.Length && highbit <= 1
    modifies b
    ensures Val(b[..]) == (old(Val(a[..])) + highbit * R) / 2
  {
    hide Val, BPow, Or, U32, Pow, ShrDigit;
    ghost var x := a[..];
    ShiftPowers(1);
    HighBit();
    var i := 0;
    while i < 7
      invariant 0 <= i <= 7
      invariant forall j :: i <= j < 8 ==> a[j] == x[j]
      invariant forall j :: 0 <= j < i ==> b[j] == ShrDigit(x + [highbit], j, 2, 0x8000_0000)
    {
      ShrWord(x + [highbit], i, 1);
      var accu := Or(a[i] / 2, U32(a[i + 1] as int * 0x8000_0000));
      b[i] := accu;
      i := i + 1;
    }
    ShrWord(x + [highbit], 7, 1);
    b[i] := Or(a[i] / 2, U32(highbit as int * 0x8000_0000));
    ShrValue(x, highbit, b[..], 1);
  }

  lemma HighBit()
    ensures Pow(2, 1) == 2 && Pow(2, 31) == 0x8000_0000
  {
    hide Pow;
    OneBit();
    PowAdd(2, 1, 31);
    ThirtyTwo();
  }

  // Digit j of a number shifted right by k bits, where p = 2^k and q = 2^(32 - k).
  function ShrDigit(x: seq<Word>, j: nat, p: int, q: int): (d: int)
    requires j + 1 < |x| && p > 0
  {
    x[j] / p + (x[j + 1] % p) * q
  }

  lemma ShrDigitIs(x: seq<Word>, j: nat, p: int, q: int)
    requires j + 1 < |x| && p > 0
    ensures ShrDigit(x, j, p, q) == x[j] / p + (x[j + 1] % p) * q
  {
  }

  lemma ShrWord(x: seq<Word>, j: nat, k: nat)
    requires j + 1 < |x| && 0 < k < 32
    ensures var p, q := Pow(2, k), Pow(2, 32 - k);
            && p > 0
            && 0 <= ShrDigit(x, j, p, q) < B
            && Or(x[j] / p, U32(x[j + 1] as int * q)) == ShrDigit(x, j, p, q)
            && (x[j + 1] == 0 ==> x[j] / p == ShrDigit(x, j, p, q))
  {
    hide Pow, Or, U32, ShrDigit;
    ShiftPowers(k);
    var p, q := Pow(2, k), Pow(2, 32 - k);
    ShiftedWord(x[j + 1], q, p);
    LowPart(x[j], q, p);
    LowPart(x[j + 1], q, p);
    OrShifted(x[j + 1] % p, x[j] / p, 32 - k);
    OrSym(x[j] / p, U32(x[j + 1] as int * q));
    ShrDigitIs(x, j, p, q);
  }

  lemma ShrValue(x: seq<Word>, high: Word, b: seq<Word>, k: nat)
    requires |x| == 8 == |b| && 0 < k < 32 && Pow(2, k) > 0 && high < Pow(2, k)
    requires forall j :: 0 <= j < 8 ==> b[j] == ShrDigit(x + [high], j, Pow(2, k), Pow(2, 32 - k))
    ensures Val(b) == (Val(x) + high * R) / Pow(2, k)
  {
    hide Pow, Val, BPow, ShrDigit;
    ShiftPowers(k);
    var p := Pow(2, k);
    ShrPrefix(x + [high], b, p, Pow(2, 32 - k), 8);
    assert b[..8] == b && (x + [high])[..8] == x;
    EightDigits();
    LowPart(x[0], Pow(2, 32 - k), p);
    SmallMod(high, p);
    DivModUnique(Val(x) + high * R, Val(b), x[0] % p, p);
  }

  lemma {:induction false} ShrPrefix(x: seq<Word>, b: seq<Word>, p: int, q: int, i: nat)
    requires |x| == 9 && |b| == 8 && p > 0 && q > 0 && p * q == B && i <= 8
    requires forall j :: 0 <= j < 8 ==> b[j] == ShrDigit(x, j, p, q)
    ensures Val(x[..i]) + (x[i] % p) * BPow(i) == Val(b[..i]) * p + x[0] % p
  {
    hide Val, BPow, ShrDigit;
    if i == 0 {
      ValBase();
      assert b[..0] == [] && x[..0] == [];
    } else {
      ShrPrefix(x, b, p, q, i - 1);
      ValPrefix(b, i - 1);
      ValPrefix(x, i - 1);
      BPowSucc(i - 1);
      ShrDigitIs(x, i - 1, p, q);
      ShrStep(p, q, BPow(i - 1), x[i - 1], x[i] % p, Val(b[..i - 1]));
    }
  }

  lemma ShrStep(p: int, q: int, w: int, d: int, low: int, v: int)
    requires p > 0 && p * q == B
    ensures (v + (d / p + low * q) * w) * p == v * p + (d * w - (d % p) * w) + low * (B * w)
  {
    var h, l := d / p, d % p;
    assert d == h * p + l;
    calc {
      (v + (h + low * q) * w) * p;
      { MulAddLeft(v, (h + low * q) * w, p); MulAddLeft(h, low * q, w); }
      v * p + (h * w + (low * q) * w) * p;
      { MulAddLeft(h * w, (low * q) * w, p); MulSwap(h, w, p); }
      v * p + (h * p) * w + ((low * q) * w) * p;
      { MulSwap(low * q, w, p); MulAssoc(low, q, p); MulSwap(q, p, 1); }
      v * p + (h * p) * w + (low * B) * w;
      { MulAssoc(low, B, w); MulAddLeft(h * p, l, w); }
      v * p + (d * w - l * w) + low * (B * w);
    }
  }
}
