/** p256_modmul: a product reduced digit by digit with a guessed quotient. */
module P256ModMul {
  import opened Arith
  import opened BigNum
  import opened P256Int

  // The number a * (topB, b), with topB the digit above the eight of b.
  function Wide(a: nat, topB: Word, b: nat): (p: nat) {
    a * (b + topB * R)
  }

  // c = a * (topB, b) mod MOD, where c may be a or b.
  method ModMul(mod: array<Word>, a: array<Word>, topB: Word, b: array<Word>, c: array<Word>)
    requires mod.Length == a.Length == b.Length == c.Length == 8
    requires mod[7] == ONES
    modifies c
    ensures old(Val(mod[..])) > 0
    ensures Val(c[..]) < old(Val(mod[..]))
    ensures Cong(Val(c[..]), old(Wide(Val(a[..]), topB, Val(b[..]))), old(Val(mod[..])))
  {
    hide Val, BPow, U32, Cong, Wide, Weighted;
    ghost var m, x := Val(mod[..]), mod[..];
    ModulusBound(mod[..]);
    var tmp := new Word[17](i => 0);
    var top := Product(tmp, a, topB, b);
    ghost var goal := Wide(Val(a[..]), topB, Val(b[..]));
    CongRefl(goal, m);
    ReduceDigits(mod, tmp, top, goal);
    ghost var last := tmp[..8];
    assert mod[..] == x;
    ReduceOnce(mod, tmp);
    assert mod[..] == x;
    ghost var out := tmp[..8];
    Canonical(last, m, Val(out), goal);
    forall k | 0 <= k < 8 {
      c[k] := tmp[k];
    }
    assert c[..] == out;
  }

  // The schoolbook product into tmp[..16], with the digit above it returned.
  method Product(tmp: array<Word>, a: array<Word>, topB: Word, b: array<Word>) returns (top: Word)
    requires tmp.Length == 17 && a.Length == 8 == b.Length && tmp != a && tmp != b
    requires forall k :: 0 <= k < 17 ==> tmp[k] == 0
    modifies tmp
    ensures Weighted(tmp[..16], top, 16) == Wide(Val(a[..]), topB, Val(b[..]))
  {
    hide Val, BPow, U32, Weighted, Wide;
    ghost var x, y := Val(a[..]), b[..];
    DigitsBound(a[..]);
    top := 0;
    var i := 0;
    ProductStart(tmp[..], x, y);
    while i < 8
      invariant 0 <= i <= 8 && (i == 0 ==> top == 0)
      invariant Val(a[..]) == x && b[..] == y
      invariant forall k :: i + 7 <= k < 17 ==> tmp[k] == 0
      invariant Weighted(tmp[..i + 7], top, i + 7) == x * Val(y[..i])
    {
      ghost var t0, top0 := tmp[..], top;
      if i > 0 {
        tmp[i + 7] := top;
      }
      ghost var t1 := tmp[..];
      top := MulAdd(a, b[i], 0, tmp, i);
      assert tmp[i + 8..] == t1[i + 8..];
      ProductRow(t0, t1, tmp[..], top0, top, x, y, i);
      i := i + 1;
    }
    ghost var t0, top0 := tmp[..], top;
    tmp[i + 7] := top;
    ghost var t1 := tmp[..];
    top := MulAdd(a, topB, 0, tmp, i);
    ProductTop(t0, t1, tmp[..], top0, top, x, y, topB);
  }

  // One digit after another is reduced off the top; both assertions of the C code hold.
  method ReduceDigits(mod: array<Word>, tmp: array<Word>, top0: Word, ghost goal: int)
    requires mod.Length == 8 && tmp.Length == 17 && mod != tmp && mod[7] == ONES && Val(mod[..]) > 0
    requires Cong(Weighted(tmp[..16], top0, 16), goal, Val(mod[..]))
    modifies tmp
    ensures Cong(Val(tmp[..8]), goal, Val(mod[..]))
  {
    hide Val, BPow, U32, Cong, Weighted;
    ghost var m, x := Val(mod[..]), mod[..];
    ModulusBound(mod[..]);
    var top := top0;
    var i := 8;
    while i >= 0
      invariant -1 <= i <= 8
      invariant mod[..] == x
      invariant i < 8 ==> top == tmp[i + 8]
      invariant Cong(Weighted(tmp[..i + 8], top, i + 8), goal, m)
    {
      var reducer := new Word[8](i => 0);
      ghost var s0, q := tmp[..], top;
      ValZeros(reducer[0..8]);
      var topReducer := MulAdd(mod, top, 0, reducer, 0);
      assert reducer[0..8] == reducer[..];
      Guess(s0[i..i + 8], m, top, Val(reducer[..]), topReducer);
      top := SubTop(topReducer, reducer, top, tmp, i);
      ghost var s1, again := tmp[..], top;
      GuessLeaves(s0[i..i + 8], s1[i..i + 8], m, q, top);
      assert top <= 1;
      MaskOfBit(top);
      top := SubM(mod, top, tmp, i, Not(U32(top as int - 1)));
      SecondStep(s1[i..i + 8], tmp[i..i + 8], m, again, top);
      assert top == 0;
      assert tmp[..i] == s1[..i] == s0[..i];
      ReduceStep(s0, tmp[..], i, m, q, again, goal);
      top := tmp[i + 7];
      i := i - 1;
    }
    TopDigitIn(tmp[..], 7);
  }

  // Digits with one more digit above them.
  ghost function Weighted(s: seq<Word>, top: Word, n: nat): (v: int) {
    Val(s) + top * BPow(n)
  }

  // A modulus whose top digit is all ones is within B^7 of R.
  lemma ModulusBound(s: seq<Word>)
    requires |s| == 8 && s[7] == ONES
    ensures R - BPow(7) <= Val(s) < R && BPow(7) * B == R
  {
    hide Val;
    ValPrefix(s, 7);
    assert s[..8] == s;
    DigitsBound(s);
  }

  lemma MaskOfBit(top: Word)
    requires top <= 1
    ensures Not(U32(top as int - 1)) == if top == 0 then 0 else ONES
  {
  }

  lemma TopDigitIn(s: seq<Word>, n: nat)
    requires n < |s|
    ensures Weighted(s[..n], s[n], n) == Val(s[..n + 1])
  {
    ValPrefix(s, n);
  }

  lemma ProductStart(s: seq<Word>, x: int, y: seq<Word>)
    requires |s| == 17 && forall k :: 0 <= k < 17 ==> s[k] == 0
    ensures Weighted(s[..7], 0, 7) == x * Val(y[..0])
  {
    hide Val, BPow;
    ValZeros(s[..7]);
    ValBase();
    assert y[..0] == [];
    assert 0 * BPow(7) == 0 && x * 0 == 0;
  }

  // One row of the product: p is added at digit i, and the digit above is set.
  lemma RowStep(t0: seq<Word>, t1: seq<Word>, t2: seq<Word>, top0: Word, top: Word, p: nat, i: nat)
    requires |t0| == |t1| == |t2| && i + 8 <= |t0|
    requires t1[..i + 7] == t0[..i + 7] && t1[i + 7] == top0 && t2[..i] == t1[..i]
    requires p <= (R - 1) * (B - 1)
    requires var s := Val(t1[i..i + 8]) + p; Val(t2[i..i + 8]) == s % R && top == U32(0 + s / R)
    ensures Weighted(t2[..i + 8], top, i + 8) == Weighted(t0[..i + 7], top0, i + 7) + BPow(i) * p
  {
    hide Val, BPow;
    var u := t1[..i + 8];
    var s := Val(t1[i..i + 8]) + p;
    TopDigitIn(t1, i + 7);
    SplitAt(t1, i);
    SplitAt(t2, i);
    DigitsBound(t1[i..i + 8]);
    RowTop(s);
    BPowAdd(i, 8);
    EightDigits();
    RowAlgebra(BPow(i), s % R, s / R);
    MulAddRight(BPow(i), Val(t1[i..i + 8]), p);
  }

  lemma SplitAt(t: seq<Word>, i: nat)
    requires i + 8 <= |t|
    ensures Val(t[..i + 8]) == Val(t[..i]) + BPow(i) * Val(t[i..i + 8])
  {
    hide Val, BPow;
    var u := t[..i + 8];
    assert u[..i] == t[..i] && u[i..] == t[i..i + 8];
    ValSplit(u, i);
  }

  lemma RowTop(s: nat)
    requires s < R * B
    ensures U32(0 + s / R) == s / R && s == (s / R) * R + s % R
  {
  }

  lemma RowAlgebra(w: int, low: int, high: int)
    ensures w * low + high * (w * R) == w * (high * R + low)
  {
    MulAddRight(w, high * R, low);
    MulAssoc(high, w, R);
    MulAssoc(w, high, R);
  }

  lemma ProductRow(t0: seq<Word>, t1: seq<Word>, t2: seq<Word>, top0: Word, top: Word, x: nat, y: seq<Word>, i: nat)
    requires |t0| == |t1| == |t2| && i + 8 <= |t0| && i < |y| && x < R
    requires t1[..i + 7] == t0[..i + 7] && t1[i + 7] == top0 && t2[..i] == t1[..i]
    requires var s := Val(t1[i..i + 8]) + x * y[i]; Val(t2[i..i + 8]) == s % R && top == U32(0 + s / R)
    requires Weighted(t0[..i + 7], top0, i + 7) == x * Val(y[..i])
    ensures Weighted(t2[..i + 8], top, i + 8) == x * Val(y[..i + 1])
  {
    hide Val, BPow, Weighted, U32;
    RowProduct(x, y[i]);
    RowStep(t0, t1, t2, top0, top, x * y[i], i);
    ValPrefix(y, i);
    Distribute(x, Val(y[..i]), y[i], BPow(i));
    MulAssoc(x, y[i], BPow(i));
  }

  lemma RowProduct(x: nat, d: Word)
    requires x < R
    ensures 0 <= x * d <= (R - 1) * (B - 1)
  {
    MulMono(x, R - 1, d);
    MulMono(0, x, d);
  }

  lemma ProductTop(t0: seq<Word>, t1: seq<Word>, t2: seq<Word>, top0: Word, top: Word, x: nat, y: seq<Word>, d: Word)
    requires |t0| == |t1| == |t2| == 17 && |y| == 8 && x < R
    requires t1[..15] == t0[..15] && t1[15] == top0 && t2[..8] == t1[..8]
    requires var s := Val(t1[8..16]) + x * d; Val(t2[8..16]) == s % R && top == U32(0 + s / R)
    requires Weighted(t0[..15], top0, 15) == x * Val(y[..8])
    ensures Weighted(t2[..16], top, 16) == Wide(x, d, Val(y))
  {
    hide Val, BPow, Weighted, U32, Wide;
    assert y[..8] == y;
    EightDigits();
    RowProduct(x, d);
    RowStep(t0, t1, t2, top0, top, x * d, 8);
    WideSplit(x, d, Val(y));
  }

  lemma WideSplit(x: nat, d: Word, y: nat)
    ensures Wide(x, d, y) == x * y + R * (x * d)
  {
    MulAddRight(x, y, d * R);
    MulAssoc(x, d, R);
  }

  // The guessed multiple of the modulus never exceeds what it is taken from.
  lemma Guess(s: seq<Word>, m: nat, q: Word, low: nat, high: Word)
    requires |s| == 8 && 0 < m < R
    requires low == (0 + m * q) % R && high == U32(0 + (0 + m * q) / R)
    ensures high * R + low == m * q <= q * R + Val(s)
  {
    hide Val, BPow;
    RowProduct(m, q);
    RowTop(m * q);
    MulMono(m, R, q);
  }

  // What the guess leaves has a top of 0 or 1, with room for one more subtraction.
  lemma GuessLeaves(s0: seq<Word>, s1: seq<Word>, m: nat, q: Word, top: Word)
    requires |s0| == |s1| == 8 && R - BPow(7) <= m < R && BPow(7) * B == R
    requires Val(s1) + top * R == Val(s0) + q * R - m * q
    ensures top <= 1 && (top == 1 ==> Val(s1) < m)
  {
    hide Val, BPow;
    DigitsBound(s0);
    DigitsBound(s1);
    var h := BPow(7);
    MulMono(R - m, h, q);
    MulSubLeft(R, m, q);
    MulMono(q, B - 1, h);
  }

  lemma SecondStep(s1: seq<Word>, s2: seq<Word>, m: nat, again: Word, top: Word)
    requires again <= 1 && (again == 1 ==> Val(s1) < m)
    requires var d := if again == 0 then 0 else m;
             && Val(s2) == Val(s1) - d + (if Val(s1) < d then R else 0)
             && top == U32(again - (if Val(s1) < d then 1 else 0))
    ensures top == 0 && Val(s2) == Val(s1) + again * R - again * m
  {
    hide Val;
  }

  lemma ReduceStep(s0: seq<Word>, s2: seq<Word>, i: nat, m: nat, q: Word, again: Word, goal: int)
    requires |s0| == |s2| && i + 8 <= |s0| && s2[..i] == s0[..i] && m > 0
    requires Val(s2[i..i + 8]) == Val(s0[i..i + 8]) + q * R - m * q - again * m
    requires Cong(Weighted(s0[..i + 8], q, i + 8), goal, m)
    ensures Cong(Weighted(s2[..i + 7], s2[i + 7], i + 7), goal, m)
  {
    hide Val, BPow, Cong;
    SplitAt(s0, i);
    SplitAt(s2, i);
    TopDigitIn(s2, i + 7);
    BPowAdd(i, 8);
    EightDigits();
    var w := BPow(i);
    ReduceAlgebra(w, Val(s0[i..i + 8]), q, m, again);
    CongIntro(Val(s2[..i + 8]), Weighted(s0[..i + 8], q, i + 8), -(w * (q + again)), m);
    CongTrans(Val(s2[..i + 8]), Weighted(s0[..i + 8], q, i + 8), goal, m);
  }

  lemma ReduceAlgebra(w: int, v: int, q: int, m: int, again: int)
    ensures w * (v + q * R - m * q - again * m) == w * v + q * (w * R) + (-(w * (q + again))) * m
  {
    MulAddRight(w, v, q * R - (q + again) * m);
    MulAddRight(w, q * R, -((q + again) * m));
    MulAssoc(w, q, R);
    MulAssoc(q, w, R);
    MulAssoc(w, q + again, m);
    MulAddLeft(q, again, m);
  }

  lemma Canonical(s: seq<Word>, m: nat, out: nat, goal: int)
    requires |s| == 8 && R - BPow(7) <= m < R && BPow(7) * B == R
    requires Cong(Val(s), goal, m)
    requires out == (if Val(s) < m then Val(s) else Val(s) - m)
    ensures out < m && Cong(out, goal, m)
  {
    hide Val, BPow, Cong;
    DigitsBound(s);
    if Val(s) >= m {
      CongMinus(Val(s), goal, m);
    }
  }
}
