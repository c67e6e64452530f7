/** rsa.c: word-by-word Montgomery multiplication and public exponentiation. */
module Rsa {
  import opened Arith
  import opened BigNum
  import opened Bytes

  // RSAPublicKey: the word count is |n|.
  datatype RsaKey = RsaKey(n: seq<Word>, n0inv: Word, rr: seq<Word>, exponent: nat) {
    function N(): (v: nat) {
      Val(n)
    }

    function R(): (v: nat) {
      BPow(|n|)
    }

    // What the header promises of a key; nothing is asked about the top bit of n.
    ghost predicate Valid() {
      && |n| > 0
      && |rr| == |n|
      && N() > 0
      && (n0inv * n[0] + 1) % B == 0
      && Cong(Val(rr), R() * R(), N())
    }
  }

  // Subtracts the modulus in place, modulo R.
  method SubM(key: RsaKey, a: array<Word>)
    requires a.Length == |key.n|
    modifies a
    ensures Val(a[..]) == old(Val(a[..])) - key.N() + (if old(Val(a[..])) < key.N() then key.R() else 0)
  {
    hide Val, BPow;
    ValBase();
    var acc: int := 0;
    var i := 0;
    ghost var was := a[..];
    while i < |key.n|
      invariant 0 <= i <= |key.n| && -1 <= acc <= 0
      invariant forall k :: i <= k < a.Length ==> a[k] == was[k]
      invariant Val(a[..i]) + acc * BPow(i) == Val(was[..i]) - Val(key.n[..i])
    {
      ghost var before, t := a[..i], acc + a[i] - key.n[i];
      WrapSub(acc, a[i], key.n[i]);
      PutDigit(before, acc, a[i] as int - key.n[i], U32(t), t / B);
      ValPrefix(was, i);
      ValPrefix(key.n, i);
      MulSubLeft(a[i], key.n[i], BPow(i));
      acc := S64(U64(acc) + U64(a[i] as int - key.n[i]));
      a[i] := U32(acc);
      acc := acc / B;
      assert a[..i + 1] == before + [a[i]];
      i := i + 1;
    }
    assert a[..i] == a[..] && was[..i] == was && key.n[..i] == key.n;
    BorrowOut(a[..], was, key.n, acc);
  }

  // The mixed-sign C expression never leaves the 64-bit range.
  lemma WrapSub(acc: int, x: Word, y: Word)
    requires -1 <= acc <= 0
    ensures S64(U64(acc) + U64(x as int - y)) == acc + x - y
    ensures var t := acc + x - y; -1 <= t / B <= 0 && U32(t) + (t / B) * B == t
  {
  }

  method GeM(key: RsaKey, a: array<Word>) returns (ge: bool)
    requires a.Length == |key.n|
    ensures ge <==> Val(a[..]) >= key.N()
  {
    hide Val, BPow;
    var i := |key.n|;
    while i > 0
      invariant 0 <= i <= |key.n|
      invariant a[..][i..] == key.n[i..]
    {
      i := i - 1;
      if a[i] < key.n[i] {
        ValLess(a[..], key.n, i);
        return false;
      }
      if a[i] > key.n[i] {
        ValLess(key.n, a[..], i);
        return true;
      }
      assert a[..][i..] == [a[i]] + a[..][i + 1..] && key.n[i..] == [key.n[i]] + key.n[i + 1..];
    }
    assert a[..] == key.n;
    return true;
  }

  // How often the modulus is added to clear the low word u.
  function Multiplier(key: RsaKey, u: Word): (d: Word) {
    U32(u * key.n0inv)
  }

  function LowWord(x: Word, y: nat, v: int): (u: Word) {
    U32(x * y + v)
  }

  // The value montMulAdd leaves in c for c = v, a = x and b of value y: one
  // Montgomery step, with the modulus taken off once when a word overflows.
  function MontStep(key: RsaKey, v: int, x: Word, y: nat): (r: int)
    requires |key.n| > 0
  {
    var d := Multiplier(key, LowWord(x, y, v));
    var t := (v + x * y + d * key.N()) / B;
    if t < key.R() then t else t - key.N()
  }

  method MontMulAdd(key: RsaKey, c: array<Word>, a: Word, b: array<Word>)
    requires key.Valid() && c != b && c.Length == |key.n| == b.Length
    modifies c
    ensures Val(c[..]) == MontStep(key, old(Val(c[..])), a, Val(b[..]))
  {
    hide Val, BPow, MontStep, U32, U64, Multiplier, MontSum, LowWord;
    ghost var v := c[..];
    ghost var y := b[..];
    var accA := U64(a * b[0] + c[0]);
    LowOfProduct(a, b[0], c[0]);
    var d0 := Multiplier(key, U32(accA));
    var accB := U64(d0 * key.n[0] + U32(accA));
    var i := 1;
    MontFirst(key, v, y, a);
    while i < |key.n|
      invariant 1 <= i <= |key.n| && b[..] == y
      invariant 0 <= accA < B * B && 0 <= accB < B * B
      invariant forall k :: i <= k < c.Length ==> c[k] == v[k]
      invariant MontSum(key, v, y, a, d0, i) == B * (Val(c[..i - 1]) + (accA / B + accB / B) * BPow(i - 1))
    {
      ghost var before, hi := c[..i - 1], accA / B + accB / B;
      ghost var x := a * b[i] + c[i] + d0 * key.n[i];
      MontCarry(accA, accB, a, b[i], c[i], d0, key.n[i]);
      accA := U64(accA / B + a * b[i] + c[i]);
      accB := U64(accB / B + d0 * key.n[i] + U32(accA));
      PutDigit(before, hi, x, U32(accB), accA / B + accB / B);
      MontNext(key, v, y, a, d0, i, Val(before) + hi * BPow(i - 1), x);
      c[i - 1] := U32(accB);
      assert c[..i] == before + [c[i - 1]];
      i := i + 1;
    }
    ghost var before, hi := c[..i - 1], accA / B + accB / B;
    MontTopCarry(accA, accB);
    accA := U64(accA / B + accB / B);
    c[i - 1] := U32(accA);
    PutDigit(before, hi, 0, U32(accA), accA / B);
    assert c[..] == before + [c[i - 1]];
    ghost var w := Val(before) + hi * BPow(i - 1);
    MontLast(key, v, y, a, d0, w);
    ValBound(c[..]);
    ValBound(key.n);
    TopBit(w, Val(c[..]), accA / B, key.R(), key.N());
    if accA / B != 0 {
      SubM(key, c);
    }
  }

  // The 64-bit accumulators do not overflow, and no carry is lost.
  lemma MontCarry(accA: int, accB: int, a: Word, b: Word, c: Word, d: Word, n: Word)
    requires 0 <= accA < B * B && 0 <= accB < B * B
    ensures var nA := U64(accA / B + a * b + c);
            var nB := U64(accB / B + d * n + U32(nA));
            && 0 <= nA < B * B && 0 <= nB < B * B
            && U32(nB) + (nA / B + nB / B) * B == (accA / B + accB / B) + (a * b + c + d * n)
  {
    ProductFits(a, b, c, accA / B);
    var nA := accA / B + a * b + c;
    ProductFits(d, n, accB / B, U32(nA));
    CarryParts(accA / B, accB / B, c, a as int * b, d as int * n);
  }

  lemma CarryParts(hA: nat, hB: nat, c: Word, p: nat, q: nat)
    requires hA + p + c < B * B && hB + q + U32(hA + p + c) < B * B
    ensures var nA := U64(hA + p + c);
            var nB := U64(hB + q + U32(nA));
            && 0 <= nA < B * B && 0 <= nB < B * B
            && U32(nB) + (nA / B + nB / B) * B == (hA + hB) + (p + c + q)
  {
  }

  lemma MontTopCarry(accA: int, accB: int)
    requires 0 <= accA < B * B && 0 <= accB < B * B
    ensures var t := U64(accA / B + accB / B); t >= 0 && U32(t) + (t / B) * B == accA / B + accB / B
  {
  }

  lemma LowOfProduct(a: Word, b: Word, c: Word)
    ensures U32(U64(a * b + c)) == LowWord(a, b, c)
  {
    ProductFits(a, b, c, 0);
  }

  // What has been multiplied in after the low i words.
  ghost function MontSum(key: RsaKey, v: seq<Word>, y: seq<Word>, a: Word, d: Word, i: nat): int
    requires i <= |key.n| && i <= |v| && i <= |y|
  {
    Combine(Val(v[..i]), a, Val(y[..i]), d, Val(key.n[..i]))
  }

  ghost function Combine(v: int, a: int, y: int, d: int, n: int): int {
    v + a * y + d * n
  }

  // The multiplier is chosen so that the lowest word vanishes.
  lemma MontFirst(key: RsaKey, v: seq<Word>, y: seq<Word>, a: Word)
    requires key.Valid() && |v| == |key.n| == |y|
    ensures var accA := U64(a * y[0] + v[0]);
            var d := Multiplier(key, U32(accA));
            var accB := U64(d * key.n[0] + U32(accA));
            && 0 <= accA < B * B && 0 <= accB < B * B
            && MontSum(key, v, y, a, d, 1) == B * (Val([]) + (accA / B + accB / B) * BPow(0))
  {
    hide Val, BPow, U32, U64, RsaKey.Valid, Multiplier, Combine;
    KeyFacts(key);
    FirstCarry(key, a, y[0], v[0]);
    SingleDigit(v);
    SingleDigit(y);
    SingleDigit(key.n);
    ValBase();
  }

  lemma FirstCarry(key: RsaKey, a: Word, b: Word, c: Word)
    requires |key.n| > 0 && (key.n0inv * key.n[0] + 1) % B == 0
    ensures var accA := U64(a * b + c);
            var d := Multiplier(key, U32(accA));
            var accB := U64(d * key.n[0] + U32(accA));
            && accA == a * b + c
            && 0 <= accA < B * B && 0 <= accB < B * B
            && Combine(c, a, b, d, key.n[0]) == B * (accA / B + accB / B)
  {
    hide Multiplier;
    ProductFits(a, b, c, 0);
    var p := a * b + c;
    var d := Multiplier(key, U32(p));
    LowWordVanishes(key, U32(p));
    ProductFits(d, key.n[0], U32(p), 0);
    HighParts(p, d as int * key.n[0]);
  }

  lemma HighParts(p: int, q: int)
    requires 0 <= p < B * B && 0 <= q && q + U32(p) < B * B && (q + U32(p)) % B == 0
    ensures U64(p) == p && U64(q + U32(p)) == q + U32(p)
    ensures p + q == B * (p / B + (q + U32(p)) / B)
  {
  }

  lemma SingleDigit(s: seq<Word>)
    requires |s| > 0
    ensures Val(s[..1]) == s[0]
  {
    assert s[..1] == [] + [s[0]];
    ValSnoc([], s[0]);
  }

  lemma LowWordVanishes(key: RsaKey, u: Word)
    requires |key.n| > 0 && (key.n0inv * key.n[0] + 1) % B == 0
    ensures (Multiplier(key, u) * key.n[0] + u) % B == 0
  {
    LowWordCong(u, key.n0inv, key.n[0]);
    MulAssoc(u, key.n0inv, key.n[0]);
    MulAddRight(u, key.n0inv * key.n[0], 1);
    CongMul(u, u, key.n0inv * key.n[0] + 1, 0, B);
  }

  lemma LowWordCong(u: Word, inv: Word, n: Word)
    ensures Cong(U32(u * inv) * n + u, (u * inv) * n + u, B)
  {
    hide Cong;
    CongMod(u * inv, B);
    CongRefl(n, B);
    CongMul(U32(u * inv), u * inv, n, n, B);
    CongRefl(u, B);
    CongAdd(U32(u * inv) * n, (u * inv) * n, u, u, B);
  }

  lemma MontNext(key: RsaKey, v: seq<Word>, y: seq<Word>, a: Word, d: Word, i: nat, w: int, x: int)
    requires 1 <= i < |key.n| == |v| == |y|
    requires MontSum(key, v, y, a, d, i) == B * w
    requires x == a * y[i] + v[i] + d * key.n[i]
    ensures MontSum(key, v, y, a, d, i + 1) == B * (w + x * BPow(i - 1))
  {
    hide Val, BPow;
    var p := BPow(i);
    BPowSucc(i - 1);
    ValPrefix(v, i);
    ValPrefix(y, i);
    ValPrefix(key.n, i);
    Distribute(a, Val(y[..i]), y[i], p);
    Distribute(d, Val(key.n[..i]), key.n[i], p);
    MulAssoc(a, y[i], p);
    MulAssoc(d, key.n[i], p);
    Scale3(p, a * y[i], v[i], d * key.n[i]);
    Distribute(B, w, x, BPow(i - 1));
  }

  lemma MontLast(key: RsaKey, v: seq<Word>, y: seq<Word>, a: Word, d: Word, w: int)
    requires |v| == |key.n| == |y| > 0
    requires d == Multiplier(key, LowWord(a, y[0], v[0]))
    requires MontSum(key, v, y, a, d, |key.n|) == B * w
    ensures w < key.R() + key.N()
    ensures MontStep(key, Val(v), a, Val(y)) == if w < key.R() then w else w - key.N()
  {
    hide Val, BPow, MontStep, Multiplier, Combine, LowWord;
    assert v[..|v|] == v && y[..|y|] == y && key.n[..|key.n|] == key.n;
    ValBound(v);
    ValBound(y);
    ValBound(key.n);
    StepBound(Val(v), Val(y), key.N(), a, d, key.R(), w);
    LowDigits(v, y, a);
    StepValue(key, Val(v), a, Val(y), d, w);
  }

  lemma StepValue(key: RsaKey, v: nat, x: Word, y: nat, d: Word, w: int)
    requires |key.n| > 0 && d == Multiplier(key, LowWord(x, y, v))
    requires Combine(v, x, y, d, key.N()) == B * w
    ensures MontStep(key, v, x, y) == if w < key.R() then w else w - key.N()
  {
    hide Val, BPow, LowWord, Multiplier;
  }

  lemma LowDigits(v: seq<Word>, y: seq<Word>, a: Word)
    requires |v| == |y| > 0
    ensures LowWord(a, Val(y), Val(v)) == LowWord(a, y[0], v[0])
  {
    hide Val, BPow;
    ValSplit(v, 1);
    ValSplit(y, 1);
    SingleDigit(v);
    SingleDigit(y);
    OneDigitPow();
    LowIgnoresHigh(a, y[0], Val(y[1..]), v[0], Val(v[1..]));
  }

  lemma LowIgnoresHigh(a: Word, y: Word, hy: nat, v: Word, hv: nat)
    ensures LowWord(a, y + B * hy, v + B * hv) == LowWord(a, y, v)
  {
    Distribute(a, y, hy, B);
    MulAssoc(a, hy, B);
    MulAddLeft(a * hy, hv, B);
    CongIntro(a * (y + B * hy) + (v + B * hv), a * y + v, a * hy + hv, B);
  }

  lemma OneDigitPow()
    ensures BPow(1) == B
  {
  }

  // (v + a*y + d*n) / B stays below r + n, so one subtraction is enough.
  lemma StepBound(v: nat, y: nat, n: nat, a: Word, d: Word, r: nat, t: int)
    requires v < r && y < r && n < r
    requires Combine(v, a, y, d, n) == B * t
    ensures 0 <= t < r + n
  {
    MulMono(0, a, y);
    MulMono(0, d, n);
    MulMono(a, B - 1, y);
    MulMono(d, B - 1, n);
  }

  lemma TopBit(w: int, low: nat, top: nat, r: nat, n: nat)
    requires low < r && w == low + top * r && w < r + n && n < r
    ensures top == 0 ==> w == low < r
    ensures top <= 1 && (top == 1 ==> w == low + r && low < n)
  {
    if top >= 2 {
      MulMono(2, top, r);
    }
  }

  lemma KeyFacts(key: RsaKey)
    requires key.Valid()
    ensures |key.n| > 0 && |key.rr| == |key.n| && 0 < key.N() < key.R()
    ensures (key.n0inv * key.n[0] + 1) % B == 0
    ensures Cong(Val(key.rr), key.R() * key.R(), key.N())
  {
    ValBound(key.n);
  }

  // A Montgomery step divides by one word modulo N, and keeps the value below R.
  lemma MontStepCong(key: RsaKey, v: nat, x: Word, y: nat)
    requires key.Valid() && v < key.R() && y < key.R()
    ensures 0 <= MontStep(key, v, x, y) < key.R()
    ensures Cong(B * MontStep(key, v, x, y), v + x * y, key.N())
  {
    hide *;
    KeyFacts(key);
    SumDivides(key, v, x, y);
    var d := Multiplier(key, LowWord(x, y, v));
    var w := Combine(v, x, y, d, key.N()) / B;
    StepBound(v, y, key.N(), x, d, key.R(), w);
    StepValue(key, v, x, y, d, w);
    StepCong(v, x, y, d, key.N(), w, if w < key.R() then 0 else 1);
  }

  lemma StepCong(v: int, x: int, y: int, d: int, n: int, w: int, q: int)
    requires n > 0 && Combine(v, x, y, d, n) == B * w && 0 <= q <= 1
    ensures Cong(B * (if q == 0 then w else w - n), v + x * y, n)
  {
    CongIntro(B * (if q == 0 then w else w - n), v + x * y, d - B * q, n) by {
      MulSubLeft(d, B * q, n);
    }
  }

  // The sum a Montgomery step divides by B is a multiple of B.
  lemma SumDivides(key: RsaKey, v: nat, x: Word, y: nat)
    requires |key.n| > 0 && (key.n0inv * key.n[0] + 1) % B == 0
    ensures Combine(v, x, y, Multiplier(key, LowWord(x, y, v)), key.N()) % B == 0
  {
    hide Val, BPow, LowWord, Multiplier, Combine;
    var u := LowWord(x, y, v);
    var d := Multiplier(key, u);
    LowWordVanishes(key, u);
    ValSplit(key.n, 1);
    SingleDigit(key.n);
    OneDigitPow();
    SumLow(v, x, y, d, key.n[0], Val(key.n[1..]));
  }

  lemma SumLow(v: nat, x: Word, y: nat, d: Word, n: Word, hn: nat)
    requires (d * n + LowWord(x, y, v)) % B == 0
    ensures Combine(v, x, y, d, n + B * hn) % B == 0
  {
    var t := v + x * y;
    assert t == LowWord(x, y, v) + (t / B) * B;
    Distribute(d, n, hn, B);
    MulAssoc(d, hn, B);
    SumLowInts(t, LowWord(x, y, v), d as int * n, d * hn);
  }

  lemma SumLowInts(t: int, u: int, p: int, h: int)
    requires (p + u) % B == 0 && u == t % B
    ensures (t + (p + h * B)) % B == 0
  {
  }

  // The value montMul leaves in c for the words of a and b of value y.
  function MontProduct(key: RsaKey, a: seq<Word>, y: nat): (r: int)
    requires |key.n| > 0
  {
    if |a| == 0 then 0
    else MontStep(key, MontProduct(key, a[..|a| - 1], y), a[|a| - 1], y)
  }

  method MontMul(key: RsaKey, c: array<Word>, a: array<Word>, b: array<Word>)
    requires key.Valid() && c != a && c != b
    requires c.Length == |key.n| == a.Length == b.Length
    modifies c
    ensures Val(c[..]) == MontProduct(key, a[..], Val(b[..]))
  {
    hide *;
    KeyFacts(key);
    var i := 0;
    while i < |key.n|
      invariant 0 <= i <= |key.n|
      invariant forall k :: 0 <= k < i ==> c[k] == 0
    {
      c[i] := 0;
      i := i + 1;
    }
    ValZeros(c[..]);
    MontProductBase(key, a[..0], Val(b[..]));
    ghost var x, y := a[..], b[..];
    i := 0;
    while i < |key.n|
      invariant 0 <= i <= |key.n| && a[..] == x && b[..] == y
      invariant Val(c[..]) == MontProduct(key, x[..i], Val(y))
    {
      MontProductNext(key, x, i, Val(y));
      MontMulAdd(key, c, a[i], b);
      i := i + 1;
    }
    assert x[..i] == x;
  }

  lemma MontProductBase(key: RsaKey, a: seq<Word>, y: nat)
    requires |key.n| > 0 && |a| == 0
    ensures MontProduct(key, a, y) == 0
  {
  }

  lemma MontProductNext(key: RsaKey, a: seq<Word>, i: nat, y: nat)
    requires |key.n| > 0 && i < |a|
    ensures MontProduct(key, a[..i + 1], y) == MontStep(key, MontProduct(key, a[..i], y), a[i], y)
  {
    hide MontStep;
    assert a[..i + 1][..i] == a[..i];
  }

  // out is the Montgomery product of x and y.
  ghost predicate MontRel(r: int, out: int, x: int, y: int, n: int)
    requires n > 0
  {
    Cong(r * out, x * y, n)
  }

  // Montgomery multiplication divides the product by BPow(|a|) modulo N.
  lemma {:induction false} MontProductCong(key: RsaKey, a: seq<Word>, y: nat)
    requires key.Valid() && y < key.R()
    ensures 0 <= MontProduct(key, a, y) < key.R()
    ensures key.N() > 0 && MontRel(BPow(|a|), MontProduct(key, a, y), Val(a), y, key.N())
  {
    hide *;
    KeyFacts(key);
    if |a| == 0 {
      MontProductBase(key, a, y);
      EmptyProduct(a, y, key.N());
    } else {
      var i := |a| - 1;
      var v := MontProduct(key, a[..i], y);
      MontProductCong(key, a[..i], y);
      assert a[..i + 1] == a;
      MontProductNext(key, a, i, y);
      MontStepCong(key, v, a[i], y);
      ValPrefix(a, i);
      BPowSucc(i);
      ProductCong(BPow(i), v, MontStep(key, v, a[i], y), a[i], y, Val(a[..i]), key.N());
    }
  }

  lemma EmptyProduct(a: seq<Word>, y: nat, n: nat)
    requires n > 0 && |a| == 0
    ensures MontRel(BPow(|a|), 0, Val(a), y, n)
  {
    assert Val(a) * y == 0;
  }

  lemma ProductCong(p: nat, v: int, m: int, x: int, y: int, s: int, n: nat)
    requires n > 0 && MontRel(p, v, s, y, n) && Cong(B * m, v + x * y, n)
    ensures MontRel(B * p, m, s + x * p, y, n)
  {
    hide Cong;
    CongRefl(p, n);
    CongMul(p, p, B * m, v + x * y, n);
    MulAddRight(p, v, x * y);
    CongRefl(p * (x * y), n);
    CongAdd(p * v, s * y, p * (x * y), p * (x * y), n);
    CongTrans(p * (B * m), p * v + p * (x * y), s * y + p * (x * y), n);
    Rearrange(p, m, x, y, s);
  }

  lemma Rearrange(p: int, m: int, x: int, y: int, s: int)
    ensures (B * p) * m == p * (B * m)
    ensures (s + x * p) * y == s * y + p * (x * y)
  {
    MulAddLeft(s, x * p, y);
    MulSwap(x, p, y);
  }

  // ----- modpow -----

  // The residue v is m^e in Montgomery form.
  ghost predicate Rep(key: RsaKey, v: int, m: int, e: nat)
    requires key.N() > 0
  {
    Cong(v, Pow(m, e) * key.R(), key.N())
  }

  // R is invertible modulo N because n0inv inverts the low word of N.
  lemma RInverse(key: RsaKey) returns (inv: int)
    requires key.Valid()
    ensures key.N() > 0 && Inverse(key.R(), inv, key.N())
  {
    hide Val, BPow, Cong, Inverse, RsaKey.Valid;
    inv := PowInverse(key, |key.n|);
  }

  lemma PowInverse(key: RsaKey, k: nat) returns (inv: int)
    requires key.Valid()
    ensures key.N() > 0 && Inverse(BPow(k), inv, key.N())
  {
    hide *;
    KeyFacts(key);
    if k == 0 {
      inv := 1;
      ValBase();
      InverseOne(key.N());
    } else {
      var rest := PowInverse(key, k - 1);
      var b := WordInverse(key);
      BPowSucc(k - 1);
      InverseMul(B, b, BPow(k - 1), rest, key.N());
      inv := b * rest;
    }
  }

  lemma InverseOne(n: int)
    requires n > 0
    ensures Inverse(1, 1, n)
  {
  }

  lemma InverseMul(a: int, b: int, c: int, d: int, n: int)
    requires n > 0 && Inverse(a, b, n) && Inverse(c, d, n)
    ensures Inverse(a * c, b * d, n)
  {
    hide Cong;
    CongMul(a * b, 1, c * d, 1, n);
    Regroup(a, b, c, d);
  }

  lemma Regroup(a: int, b: int, c: int, d: int)
    ensures (a * b) * (c * d) == (a * c) * (b * d)
  {
    MulAssoc(a * b, c, d);
    MulSwap(a, b, c);
    MulAssoc(a * c, b, d);
  }

  lemma WordInverse(key: RsaKey) returns (inv: int)
    requires key.Valid()
    ensures key.N() > 0 && Inverse(B, inv, key.N())
  {
    hide *;
    KeyFacts(key);
    var hn := SplitLow(key);
    inv := LowInverse(key.n0inv, key.n[0], hn);
  }

  lemma SplitLow(key: RsaKey) returns (hn: nat)
    requires |key.n| > 0
    ensures key.N() == key.n[0] + B * hn
  {
    hide Val, BPow;
    ValSplit(key.n, 1);
    SingleDigit(key.n);
    OneDigitPow();
    hn := Val(key.n[1..]);
  }

  lemma LowInverse(inv: Word, n: Word, hn: nat) returns (q: int)
    requires (inv * n + 1) % B == 0 && n + B * hn > 0
    ensures Inverse(B, q, n + B * hn)
  {
    q := (inv * n + 1) / B + inv * hn;
    Distribute(inv, n, hn, B);
    MulAssoc(inv, hn, B);
    CongIntro(B * q, 1, inv, n + B * hn);
  }

  lemma MontToRep(key: RsaKey, m: int, out: int)
    requires key.Valid() && MontRel(key.R(), out, m, Val(key.rr), key.N())
    ensures Rep(key, out, m, 1)
  {
    hide *;
    KeyFacts(key);
    var inv := RInverse(key);
    ToRepInts(key.R(), key.N(), inv, m, Val(key.rr), out);
    PowOne(m);
    RepIntro(key, out, m, 1);
  }

  lemma ToRepInts(r: int, n: int, inv: int, m: int, rr: int, out: int)
    requires n > 0 && Inverse(r, inv, n) && MontRel(r, out, m, rr, n) && Cong(rr, r * r, n)
    ensures Cong(out, m * r, n)
  {
    hide Cong, Inverse;
    CongRefl(m, n);
    CongMul(m, m, rr, r * r, n);
    MulAssoc(m, r, r);
    CongTrans(r * out, m * rr, m * (r * r), n);
    CongCancel(out, m * r, r, inv, n);
  }

  lemma PowOne(m: int)
    ensures Pow(m, 1) == m
  {
  }

  lemma RepIntro(key: RsaKey, v: int, m: int, e: nat)
    requires key.N() > 0 && Cong(v, Pow(m, e) * key.R(), key.N())
    ensures Rep(key, v, m, e)
  {
  }

  lemma RepElim(key: RsaKey, v: int, m: int, e: nat)
    requires key.N() > 0 && Rep(key, v, m, e)
    ensures Cong(v, Pow(m, e) * key.R(), key.N())
  {
  }

  // Multiplying Montgomery forms adds the exponents.
  lemma MontMulRep(key: RsaKey, x: int, y: int, out: int, m: int, d: nat, e: nat)
    requires key.Valid() && Rep(key, x, m, d) && Rep(key, y, m, e)
    requires MontRel(key.R(), out, x, y, key.N())
    ensures Rep(key, out, m, d + e)
  {
    hide *;
    KeyFacts(key);
    RepElim(key, x, m, d);
    RepElim(key, y, m, e);
    var inv := RInverse(key);
    PowAdd(m, d, e);
    MulRepInts(key.R(), key.N(), inv, Pow(m, d), Pow(m, e), x, y, out);
    RepIntro(key, out, m, d + e);
  }

  lemma MulRepInts(r: int, n: int, inv: int, p: int, q: int, x: int, y: int, out: int)
    requires n > 0 && Inverse(r, inv, n) && MontRel(r, out, x, y, n)
    requires Cong(x, p * r, n) && Cong(y, q * r, n)
    ensures Cong(out, (p * q) * r, n)
  {
    hide Cong, Inverse;
    CongMul(x, p * r, y, q * r, n);
    Regroup(p, r, q, r);
    MulAssoc(p * q, r, r);
    CongTrans(r * out, x * y, (p * q) * (r * r), n);
    CongCancel(out, (p * q) * r, r, inv, n);
  }

  // A last multiplication by the plain base leaves Montgomery form.
  lemma MontFromRep(key: RsaKey, x: int, out: int, m: int, e: nat)
    requires key.Valid() && Rep(key, x, m, e)
    requires MontRel(key.R(), out, x, m, key.N())
    ensures Cong(out, Pow(m, e + 1), key.N())
  {
    hide *;
    KeyFacts(key);
    RepElim(key, x, m, e);
    var inv := RInverse(key);
    PowAdd(m, e, 1);
    PowOne(m);
    FromRepInts(key.R(), key.N(), inv, Pow(m, e), m, x, out);
  }

  lemma FromRepInts(r: int, n: int, inv: int, p: int, m: int, x: int, out: int)
    requires n > 0 && Inverse(r, inv, n) && MontRel(r, out, x, m, n) && Cong(x, p * r, n)
    ensures Cong(out, p * m, n)
  {
    hide Cong, Inverse;
    CongRefl(m, n);
    CongMul(x, p * r, m, m, n);
    MulSwap(p, r, m);
    CongTrans(r * out, x * m, (p * m) * r, n);
    CongCancel(out, p * m, r, inv, n);
  }

  // A whole Montgomery multiplication, as montMul computes it.
  lemma MontProductRel(key: RsaKey, a: seq<Word>, y: nat)
    requires key.Valid() && |a| == |key.n| && y < key.R()
    ensures 0 <= MontProduct(key, a, y) < key.R()
    ensures key.N() > 0 && MontRel(key.R(), MontProduct(key, a, y), Val(a), y, key.N())
  {
    hide Val, BPow, MontRel, MontProduct, RsaKey.Valid;
    MontProductCong(key, a, y);
  }

  lemma BelowR(key: RsaKey, s: seq<Word>)
    requires |s| == |key.n|
    ensures Val(s) < key.R()
  {
    ValBound(s);
  }

  // Squarings between the first and the last multiplication.
  function Squares(e: nat): (n: nat) {
    if e == 65537 then 16 else 1
  }

  // The words of a Montgomery product.
  function ProductWords(key: RsaKey, a: seq<Word>, b: seq<Word>): (s: seq<Word>)
    requires key.Valid() && |a| == |key.n| == |b|
    ensures |s| == |key.n|
  {
    BelowR(key, b);
    MontProductRel(key, a, Val(b));
    DigitsOf(MontProduct(key, a, Val(b)), |key.n|)
  }

  lemma ProductWordsValue(key: RsaKey, a: seq<Word>, b: seq<Word>)
    requires key.Valid() && |a| == |key.n| == |b|
    ensures Val(ProductWords(key, a, b)) == MontProduct(key, a, Val(b))
  {
    hide Val, BPow, MontProduct, DigitsOf, RsaKey.Valid;
    BelowR(key, b);
    MontProductRel(key, a, Val(b));
    KeyFacts(key);
    DigitsValue(MontProduct(key, a, Val(b)), |key.n|);
  }

  // The message in Montgomery form, after n squarings.
  function Form(key: RsaKey, a: seq<Word>, n: nat): (s: seq<Word>)
    requires key.Valid() && |a| == |key.n|
    ensures |s| == |key.n|
  {
    if n == 0 then ProductWords(key, a, key.rr)
    else
      var s := Form(key, a, n - 1);
      ProductWords(key, s, s)
  }

  // What modpow holds before its final subtraction.
  function PowerForm(key: RsaKey, a: seq<Word>): (s: seq<Word>)
    requires key.Valid() && |a| == |key.n|
    ensures |s| == |key.n|
  {
    ProductWords(key, Form(key, a, Squares(key.exponent)), a)
  }

  function TwoTo(n: nat): (p: nat) {
    if n == 0 then 1 else 2 * TwoTo(n - 1)
  }

  lemma {:induction false} FormRep(key: RsaKey, a: seq<Word>, n: nat)
    requires key.Valid() && |a| == |key.n|
    ensures key.N() > 0 && Rep(key, Val(Form(key, a, n)), Val(a), TwoTo(n))
  {
    hide *;
    KeyFacts(key);
    FormNext(key, a, n);
    if n == 0 {
      BelowR(key, key.rr);
      MontProductRel(key, a, Val(key.rr));
      MontToRep(key, Val(a), MontProduct(key, a, Val(key.rr)));
    } else {
      var s, e := Form(key, a, n - 1), TwoTo(n - 1);
      FormRep(key, a, n - 1);
      BelowR(key, s);
      MontProductRel(key, s, Val(s));
      MontMulRep(key, Val(s), Val(s), MontProduct(key, s, Val(s)), Val(a), e, e);
    }
  }

  lemma FormNext(key: RsaKey, a: seq<Word>, n: nat)
    requires key.Valid() && |a| == |key.n|
    ensures n == 0 ==> TwoTo(n) == 1 && Val(Form(key, a, n)) == MontProduct(key, a, Val(key.rr))
    ensures n > 0 ==> TwoTo(n) == TwoTo(n - 1) + TwoTo(n - 1)
                      && Val(Form(key, a, n)) == MontProduct(key, Form(key, a, n - 1), Val(Form(key, a, n - 1)))
  {
    hide Val, MontProduct, ProductWords, RsaKey.Valid;
    KeyFacts(key);
    if n == 0 {
      ProductWordsValue(key, a, key.rr);
    } else {
      ProductWordsValue(key, Form(key, a, n - 1), Form(key, a, n - 1));
    }
  }

  // The power is congruent to m^e.
  lemma PowerCong(key: RsaKey, a: seq<Word>)
    requires key.Valid() && key.exponent in {3, 65537} && |a| == |key.n|
    ensures key.N() > 0 && Cong(Val(PowerForm(key, a)), Pow(Val(a), key.exponent), key.N())
  {
    hide *;
    KeyFacts(key);
    var n := Squares(key.exponent);
    var s := Form(key, a, n);
    FormRep(key, a, n);
    PowerExponent(key.exponent);
    BelowR(key, a);
    MontProductRel(key, s, Val(a));
    MontFromRep(key, Val(s), MontProduct(key, s, Val(a)), Val(a), TwoTo(n));
    PowerValue(key, a);
  }

  lemma PowerValue(key: RsaKey, a: seq<Word>)
    requires key.Valid() && |a| == |key.n|
    ensures Val(PowerForm(key, a)) == MontProduct(key, Form(key, a, Squares(key.exponent)), Val(a))
  {
    hide Val, MontProduct, Form, ProductWords, RsaKey.Valid;
    ProductWordsValue(key, Form(key, a, Squares(key.exponent)), a);
  }

  lemma PowerExponent(e: nat)
    requires e in {3, 65537}
    ensures TwoTo(Squares(e)) + 1 == e
  {
    FourTimes(2);
    FourTimes(4);
    FourTimes(6);
    FourTimes(8);
    FourTimes(10);
    FourTimes(12);
    FourTimes(14);
  }

  lemma FourTimes(n: nat)
    ensures TwoTo(n + 2) == 4 * TwoTo(n)
  {
    assert TwoTo(n + 2) == 2 * TwoTo(n + 1);
  }

  // ----- how large the power is -----

  // A step adds less than B moduli before it divides by B.
  lemma MontStepBound(key: RsaKey, v: nat, x: Word, y: nat)
    requires key.Valid() && v < key.R() && y < key.R()
    ensures B * MontStep(key, v, x, y) <= v + x * y + (B - 1) * key.N()
  {
    hide *;
    KeyFacts(key);
    SumDivides(key, v, x, y);
    var d := Multiplier(key, LowWord(x, y, v));
    var w := Combine(v, x, y, d, key.N()) / B;
    StepValue(key, v, x, y, d, w);
    FewModuli(v, x, y, d, key.N(), w);
  }

  lemma FewModuli(v: nat, x: Word, y: nat, d: Word, n: nat, w: int)
    requires Combine(v, x, y, d, n) == B * w
    ensures B * w <= v + x * y + (B - 1) * n
  {
    MulMono(d, B - 1, n);
  }

  // So a whole product adds less than BPow(|a|) moduli.
  lemma {:induction false} MontProductBound(key: RsaKey, a: seq<Word>, y: nat)
    requires key.Valid() && y < key.R()
    ensures Bounded(BPow(|a|), MontProduct(key, a, y), Val(a), y, key.N())
  {
    hide *;
    KeyFacts(key);
    if |a| == 0 {
      MontProductBase(key, a, y);
      EmptyBounded(a, y, key.N());
    } else {
      var i := |a| - 1;
      var v := MontProduct(key, a[..i], y);
      MontProductBound(key, a[..i], y);
      MontProductCong(key, a[..i], y);
      assert a[..i + 1] == a;
      MontProductNext(key, a, i, y);
      MontStepBound(key, v, a[i], y);
      ValPrefix(a, i);
      BPowSucc(i);
      NextBounded(BPow(i), v, MontStep(key, v, a[i], y), a[i], y, Val(a[..i]), key.N());
    }
  }

  ghost predicate Bounded(r: int, out: int, x: int, y: int, n: int) {
    r * out <= x * y + (r - 1) * n
  }

  lemma EmptyBounded(a: seq<Word>, y: nat, n: nat)
    requires |a| == 0
    ensures Bounded(BPow(|a|), 0, Val(a), y, n)
  {
    assert Val(a) * y == 0;
  }

  lemma NextBounded(p: nat, v: int, m: int, x: int, y: int, s: int, n: nat)
    requires Bounded(p, v, s, y, n) && B * m <= v + x * y + (B - 1) * n
    ensures Bounded(B * p, m, s + x * p, y, n)
  {
    MulMono(B * m, v + x * y + (B - 1) * n, p);
    Rearrange(p, m, x, y, s);
    SpreadBound(p, v, x * y, n);
  }

  lemma SpreadBound(p: int, v: int, q: int, n: int)
    ensures (v + q + (B - 1) * n) * p == p * v + p * q + (B * p - 1) * n - (p - 1) * n
  {
    MulAddLeft(v + q, (B - 1) * n, p);
    MulAddLeft(v, q, p);
    MulSwap(B - 1, n, p);
    MulSubLeft(B * p, p, n);
    MulSubLeft(B * p, 1, n);
    MulSubLeft(p, 1, n);
    MulSubLeft(B, 1, p);
  }

  // A modulus that is small against R, with a reduced rr: every form is at most one modulus
  // too large.
  ghost predicate Small(key: RsaKey) {
    4 * (key.N() * key.N()) <= key.R() && Val(key.rr) < key.N()
  }

  lemma {:induction false} FormSmall(key: RsaKey, a: seq<Word>, n: nat)
    requires key.Valid() && |a| == |key.n| && Small(key)
    ensures Val(Form(key, a, n)) < 2 * key.N()
    ensures n > 0 ==> Val(Form(key, a, n)) <= key.N()
  {
    hide Val, BPow, MontProduct, Form, Bounded, RsaKey.Valid;
    KeyFacts(key);
    FormNext(key, a, n);
    BelowR(key, a);
    if n == 0 {
      BelowR(key, key.rr);
      MontProductBound(key, a, Val(key.rr));
      FirstSmall(key.R(), Val(Form(key, a, n)), Val(a), Val(key.rr), key.N());
    } else {
      var s := Form(key, a, n - 1);
      FormSmall(key, a, n - 1);
      BelowR(key, s);
      MontProductBound(key, s, Val(s));
      SquareSmall(key.R(), Val(Form(key, a, n)), Val(s), key.N());
    }
  }

  lemma FirstSmall(r: int, f: int, a: int, rr: int, n: int)
    requires Bounded(r, f, a, rr, n) && 0 <= a < r && 0 <= rr < n
    ensures f < 2 * n
  {
    MulMono(a, r, rr);
    MulMono(rr, n, r);
    if f >= 2 * n {
      MulMono(2 * n, f, r);
    }
  }

  lemma SquareSmall(r: int, f: int, s: int, n: int)
    requires Bounded(r, f, s, s, n) && 0 <= s < 2 * n && 4 * (n * n) <= r
    ensures f <= n
  {
    SquareBelow(s, n);
    MulSubLeft(r, 1, n);
    MulAddRight(r, n, 1);
    if f >= n + 1 {
      MulMono(n + 1, f, r);
    }
  }

  lemma SquareBelow(s: int, n: int)
    requires 0 <= s < 2 * n
    ensures s * s <= 4 * (n * n)
  {
    MulMono(s, 2 * n, s);
    MulMono(s, 2 * n, n);
    MulSwap(2, n, s);
  }

  lemma LastSmall(r: int, w: int, s: int, m: int, n: int)
    requires Bounded(r, w, s, m, n) && 0 <= s <= n && 0 <= m < r && n > 0
    ensures w < 2 * n
  {
    MulMono(s, n, m);
    MulMono(m, r - 1, n);
    if w >= 2 * n {
      MulMono(2 * n, w, r);
    }
  }

  // For large moduli, and for small ones with a reduced rr, the comment in the source is
  // right: the power is at most one modulus too large.
  lemma PowerAtMostTwice(key: RsaKey, a: seq<Word>)
    requires key.Valid() && |a| == |key.n| && (2 * key.N() >= key.R() || Small(key))
    ensures Val(PowerForm(key, a)) < 2 * key.N()
  {
    hide Val, BPow, MontProduct, Form, PowerForm, Bounded, Small, RsaKey.Valid;
    BelowR(key, PowerForm(key, a));
    if Small(key) {
      var s := Form(key, a, Squares(key.exponent));
      FormSmall(key, a, Squares(key.exponent));
      PowerValue(key, a);
      BelowR(key, a);
      MontProductBound(key, s, Val(a));
      KeyFacts(key);
      LastSmall(key.R(), Val(PowerForm(key, a)), Val(s), Val(a), key.N());
    }
  }

  // One subtraction gives the residue exactly when the power is below twice the modulus.
  lemma ReducedIff(key: RsaKey, a: seq<Word>)
    requires key.Valid() && key.exponent in {3, 65537} && |a| == |key.n|
    ensures var w := Val(PowerForm(key, a));
            key.N() > 0 && ((if w >= key.N() then w - key.N() else w) == Pow(Val(a), key.exponent) % key.N() <==> w < 2 * key.N())
  {
    hide Val, BPow, PowerForm, Pow, RsaKey.Valid;
    KeyFacts(key);
    PowerCong(key, a);
    var w, x, n := Val(PowerForm(key, a)), Pow(Val(a), key.exponent), key.N();
    if n <= w < 2 * n {
      CongMinus(w, x, n);
      CongReduced(w - n, x, n);
    } else if w < n {
      CongReduced(w, x, n);
    }
  }

  // A product in place is the product of the words that were there.
  method MontMulWords(key: RsaKey, c: array<Word>, a: array<Word>, b: array<Word>)
    requires key.Valid() && c != a && c != b
    requires c.Length == |key.n| == a.Length == b.Length
    modifies c
    ensures c[..] == ProductWords(key, a[..], b[..])
  {
    hide Val, MontProduct, ProductWords, RsaKey.Valid;
    MontMul(key, c, a, b);
    ProductWordsValue(key, a[..], b[..]);
    ValUnique(c[..], ProductWords(key, a[..], b[..]));
  }

  // The multiplications of modpow on the words of the input.
  method PowWords(key: RsaKey, a: array<Word>) returns (aaa: array<Word>)
    requires key.Valid() && key.exponent in {3, 65537} && a.Length == |key.n|
    ensures fresh(aaa) && aaa.Length == |key.n| && aaa[..] == PowerForm(key, a[..])
  {
    hide Val, MontProduct, ProductWords, RsaKey.Valid;
    KeyFacts(key);
    var aR := new Word[|key.n|];
    var aaR := new Word[|key.n|];
    var rr := new Word[|key.n|](i requires 0 <= i < |key.n| => key.rr[i]);
    assert rr[..] == key.rr;
    ghost var x := a[..];
    if key.exponent == 65537 {
      aaa := aaR;
      MontMulWords(key, aR, a, rr);
      var i := 0;
      while i < 16
        invariant 0 <= i <= 16 && i % 2 == 0 && a[..] == x
        invariant aR[..] == Form(key, x, i)
      {
        MontMulWords(key, aaR, aR, aR);
        MontMulWords(key, aR, aaR, aaR);
        i := i + 2;
      }
      MontMulWords(key, aaa, aR, a);
    } else {
      aaa := aR;
      MontMulWords(key, aR, a, rr);
      MontMulWords(key, aaR, aR, aR);
      assert aaR[..] == Form(key, x, 1);
      MontMulWords(key, aaa, aaR, a);
    }
  }

  // In-place exponentiation of a big-endian byte string. One subtraction reduces the result
  // exactly when the power before it is below twice the modulus (ReducedIff).
  method ModPow(key: RsaKey, inout: array<Byte>)
    requires key.Valid() && key.exponent in {3, 65537} && inout.Length == 4 * |key.n|
    modifies inout
    ensures var w := Val(PowerForm(key, DigitsOf(old(BeVal(inout[..])), |key.n|)));
            BeVal(inout[..]) == if w >= key.N() then w - key.N() else w
    ensures key.N() > 0 && Cong(BeVal(inout[..]), Pow(old(BeVal(inout[..])), key.exponent), key.N())
    ensures 2 * key.N() >= key.R() || Small(key) ==> BeVal(inout[..]) == Pow(old(BeVal(inout[..])), key.exponent) % key.N()
  {
    hide *;
    KeyFacts(key);
    var len := |key.n|;
    ghost var bytes := inout[..];
    var a := new Word[len];
    var i := 0;
    while i < len
      invariant 0 <= i <= len && inout[..] == bytes
      invariant forall k :: 0 <= k < i ==> WordAt(bytes, len, k, a[k])
    {
      var o := (len - 1 - i) * 4;
      JoinAt(bytes, len, i);
      a[i] := Join(inout[o], inout[o + 1], inout[o + 2], inout[o + 3]);
      i := i + 1;
    }
    BytesAreWords(bytes, a[..]);
    DigitsOfVal(a[..]);
    PowerCong(key, a[..]);
    ReducedIff(key, a[..]);
    if 2 * key.N() >= key.R() || Small(key) {
      PowerAtMostTwice(key, a[..]);
    }
    var aaa := PowWords(key, a);
    ghost var x := Pow(BeVal(bytes), key.exponent);
    BelowR(key, aaa[..]);
    var big := GeM(key, aaa);
    if big {
      CongMinus(Val(aaa[..]), x, key.N());
      SubM(key, aaa);
    }
    ghost var words := aaa[..];
    var p := 0;
    i := len - 1;
    while i >= 0
      invariant -1 <= i < len && p == 4 * (len - 1 - i)
      invariant aaa[..] == words
      invariant forall k :: i < k < len ==> WordAt(inout[..], len, k, words[k])
    {
      ghost var was := inout[..];
      StoreWord(inout, p, aaa[i]);
      WordStored(was, inout[..], words, i);
      p := p + 4;
      i := i - 1;
    }
    BytesAreWords(inout[..], words);
  }

  method StoreWord(inout: array<Byte>, p: nat, tmp: Word)
    requires p + 4 <= inout.Length
    modifies inout
    ensures inout[..] == old(inout[..p]) + Split(tmp) + old(inout[p + 4..])
  {
    inout[p] := (tmp / 0x100_0000) % 256;
    inout[p + 1] := (tmp / 0x1_0000) % 256;
    inout[p + 2] := (tmp / 0x100) % 256;
    inout[p + 3] := tmp % 256;
  }
}
