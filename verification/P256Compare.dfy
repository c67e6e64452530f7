/** p256.c: comparison, and the sums and differences that return their carry or borrow. */
module P256Compare {
  import opened Arith
  import opened BigNum
  import opened P256Int

  // The C `|` of a borrow (0 or -1) and a flag (0 or 1).
  function OrFlag(borrow: int, flag: int): (r: int) {
    if borrow == -1 then -1 else flag
  }

  // -1, 0 or 1 as a is below, equal to or above b.
  method Cmp(a: array<Word>, b: array<Word>) returns (r: int)
    requires a.Length == 8 == b.Length
    ensures r == if Val(a[..]) < Val(b[..]) then -1 else if Val(a[..]) == Val(b[..]) then 0 else 1
  {
    hide Val, BPow, U32, S64, U64;
    var i := 0;
    var borrow: int := 0;
    var notzero := 0;
    ghost var out: seq<Word> := [];
    ValBase();
    assert a[..][..0] == [] && b[..][..0] == [];
    while i < 8
      invariant 0 <= i <= 8 && -1 <= borrow <= 0 && 0 <= notzero <= 1
      invariant |out| == i && (notzero == 0 <==> Val(out) == 0)
      invariant Val(out) + borrow * BPow(i) == Val(a[..][..i]) - Val(b[..][..i])
    {
      SubDigit(out, a[..], b[..], i, borrow);
      CmpWrap(borrow, a[i], b[i]);
      borrow := S64(borrow + (a[i] as int - b[i]));
      NonZeroDigit(out, U32(borrow));
      notzero := if U32(borrow) != 0 then 1 else notzero;
      out := out + [U32(borrow)];
      borrow := borrow / B;
      i := i + 1;
    }
    assert a[..][..8] == a[..] && b[..][..8] == b[..];
    BorrowOut(out, a[..], b[..], borrow);
    CmpOut(out, a[..], b[..], borrow);
    return OrFlag(borrow, notzero);
  }

  lemma CmpWrap(borrow: int, u: Word, v: Word)
    requires -1 <= borrow <= 0
    ensures S64(borrow + (u as int - v)) == S64(S64(borrow + u) - v)
  {
  }

  lemma NonZeroDigit(s: seq<Word>, d: Word)
    ensures Val(s + [d]) == 0 <==> Val(s) == 0 && d == 0
  {
    hide Val, BPow;
    ValSnoc(s, d);
    if d > 0 {
      MulMono(1, d, BPow(|s|));
    }
  }

  lemma CmpOut(out: seq<Word>, a: seq<Word>, b: seq<Word>, borrow: int)
    requires |out| == |a| == |b| && -1 <= borrow <= 0
    requires Val(out) == Val(a) - Val(b) - borrow * BPow(|a|)
    requires borrow == if Val(a) < Val(b) then -1 else 0
    ensures borrow == 0 ==> (Val(out) == 0 <==> Val(a) == Val(b))
  {
    hide Val, BPow;
    if borrow == 0 {
      assert borrow * BPow(|a|) == 0;
    }
  }

  // c = a - b modulo R when c is not null; returns the borrow, 0 or -1. c may be a or b.
  method Sub(a: array<Word>, b: array<Word>, c: array?<Word>) returns (r: int)
    requires a.Length == 8 == b.Length && (c != null ==> c.Length == 8)
    modifies if c == null then {} else {c}
    ensures r == if old(Val(a[..])) < old(Val(b[..])) then -1 else 0
    ensures c != null ==> Val(c[..]) == old(Val(a[..])) - old(Val(b[..])) - r * R
  {
    hide Val, BPow, U32, S64, U64;
    ghost var x, y := a[..], b[..];
    ghost var out: seq<Word> := [];
    var i := 0;
    var borrow: int := 0;
    ValBase();
    assert x[..0] == [] && y[..0] == [];
    while i < 8
      invariant 0 <= i <= 8 && -1 <= borrow <= 0 && |out| == i
      invariant forall k :: i <= k < 8 ==> a[k] == x[k] && b[k] == y[k]
      invariant c != null ==> c[..i] == out
      invariant Val(out) + borrow * BPow(i) == Val(x[..i]) - Val(y[..i])
    {
      SubDigit(out, x, y, i, borrow);
      CmpWrap(borrow, a[i], b[i]);
      borrow := S64(borrow + (a[i] as int - b[i]));
      out := out + [U32(borrow)];
      if c != null {
        c[i] := U32(borrow);
        assert c[..i + 1] == out;
      }
      borrow := borrow / B;
      i := i + 1;
    }
    assert x[..8] == x && y[..8] == y;
    BorrowOut(out, x, y, borrow);
    EightDigits();
    assert c != null ==> c[..] == out;
    return borrow;
  }

  // c = a + b modulo R when c is not null; returns the carry. c may be a or b.
  method Add(a: array<Word>, b: array<Word>, c: array?<Word>) returns (r: Word)
    requires a.Length == 8 == b.Length && (c != null ==> c.Length == 8)
    modifies if c == null then {} else {c}
    ensures r <= 1 && 0 <= old(Val(a[..])) + old(Val(b[..])) - r * R < R
    ensures c != null ==> Val(c[..]) == old(Val(a[..])) + old(Val(b[..])) - r * R
  {
    hide Val, BPow, U32, U64, MulSum;
    ghost var x, y := a[..], b[..];
    ghost var out: seq<Word> := [];
    var i := 0;
    var carry: nat := 0;
    MulAddStart(x, y, 1);
    while i < 8
      invariant 0 <= i <= 8 && carry < B && |out| == i
      invariant forall k :: i <= k < 8 ==> a[k] == x[k] && b[k] == y[k]
      invariant c != null ==> c[..i] == out
      invariant Val(out) + carry * BPow(i) == MulSum(x, y, 1, i)
    {
      MulAddCarry(out, x, y, 1, i, carry);
      AddWrap(carry, a[i], b[i]);
      carry := U64(carry + (a[i] as int + b[i]));
      out := out + [U32(carry)];
      if c != null {
        c[i] := U32(carry);
        assert c[..i + 1] == out;
      }
      carry := carry / B;
      i := i + 1;
    }
    MulSumAll(x, y, 1);
    EightDigits();
    AddOut(out, x, y, carry);
    assert c != null ==> c[..] == out;
    return carry;
  }

  lemma AddWrap(carry: nat, u: Word, v: Word)
    requires carry < B
    ensures U64(carry + (u as int + v)) == U64(U64(carry + u) + v * 1)
  {
  }

  lemma AddOut(out: seq<Word>, x: seq<Word>, y: seq<Word>, carry: nat)
    requires |out| == 8 == |x| == |y| && Val(out) + carry * R == Val(x) + Val(y)
    ensures carry <= 1 && 0 <= Val(x) + Val(y) - carry * R < R
  {
    hide Val, BPow;
    DigitsBound(out);
    DigitsBound(x);
    DigitsBound(y);
  }

  // b = a + d modulo R; returns the carry. b may be a.
  method AddD(a: array<Word>, d: Word, b: array<Word>) returns (r: Word)
    requires a.Length == 8 == b.Length
    modifies b
    ensures r <= 1 && Val(b[..]) == old(Val(a[..])) + d - r * R
  {
    hide Val, BPow, U32, U64;
    ghost var x := a[..];
    ghost var out: seq<Word> := [];
    var i := 0;
    var carry: nat := d;
    ValBase();
    assert x[..0] == [];
    assert d * BPow(0) == d;
    while i < 8
      invariant 0 <= i <= 8 && carry < B && |out| == i
      invariant forall k :: i <= k < 8 ==> a[k] == x[k]
      invariant b[..i] == out
      invariant Val(out) + carry * BPow(i) == Val(x[..i]) + d
    {
      AddDigit(out, x, i, carry, d);
      carry := U64(carry + a[i]);
      out := out + [U32(carry)];
      b[i] := U32(carry);
      assert b[..i + 1] == out;
      carry := carry / B;
      i := i + 1;
    }
    assert x[..8] == x && b[..] == out;
    EightDigits();
    AddDOut(out, x, carry, d);
    return carry;
  }

  lemma AddDigit(out: seq<Word>, x: seq<Word>, i: nat, carry: nat, d: Word)
    requires |out| == i < |x| && carry < B
    requires Val(out) + carry * BPow(i) == Val(x[..i]) + d
    ensures var t := U64(carry + x[i]);
            t / B < B && Val(out + [U32(t)]) + (t / B) * BPow(i + 1) == Val(x[..i + 1]) + d
  {
    hide Val, BPow, U32, U64;
    AddFits(carry, x[i]);
    var t := U64(carry + x[i]);
    PutDigit(out, carry, x[i], U32(t), t / B);
    ValPrefix(x, i);
  }

  lemma AddFits(carry: nat, w: Word)
    requires carry < B
    ensures var t := U64(carry + w); t == carry + w && t / B < B && U32(t) + (t / B) * B == t
  {
  }

  lemma AddDOut(out: seq<Word>, x: seq<Word>, carry: nat, d: Word)
    requires |out| == 8 == |x| && Val(out) + carry * R == Val(x) + d
    ensures carry <= 1
  {
    hide Val, BPow;
    DigitsBound(out);
    DigitsBound(x);
  }

  method IsZero(a: array<Word>) returns (z: bool)
    requires a.Length == 8
    ensures z <==> Val(a[..]) == 0
  {
    hide Val, BPow;
    var i := 0;
    var allZero := true;
    ValBase();
    assert a[..][..0] == [];
    while i < 8
      invariant 0 <= i <= 8 && (allZero <==> Val(a[..][..i]) == 0)
    {
      NonZeroDigit(a[..][..i], a[i]);
      assert a[..][..i + 1] == a[..][..i] + [a[i]];
      allZero := allZero && a[i] == 0;
      i := i + 1;
    }
    assert a[..][..8] == a[..];
    return allZero;
  }

  method IsEven(a: array<Word>) returns (e: bool)
    requires a.Length == 8
    ensures e <==> Val(a[..]) % 2 == 0
  {
    hide Val, BPow;
    LowBit(a[..]);
    e := a[0] % 2 == 0;
  }

  lemma LowBit(s: seq<Word>)
    requires |s| == 8
    ensures Val(s) % 2 == s[0] % 2
  {
    hide Val, BPow;
    ValSplit(s, 1);
    ValSnoc([], s[0]);
    assert s[..1] == [] + [s[0]];
    OneDigit();
    ValBase();
  }

  lemma OneDigit()
    ensures BPow(1) == B
  {
  }
}
