/** Little-endian numbers over 32-bit digits, the value type of rsa.c and p256.c. */
module BigNum {
  import opened Arith

  const B := 0x1_0000_0000

  type Word = x: int | 0 <= x < B

  // Truncation to the unsigned and signed C integer types.
  function U32(x: int): (w: Word) {
    x % 0x1_0000_0000
  }

  lemma SmallU32(x: int)
    requires 0 <= x < 0x1_0000_0000
    ensures U32(x) == x
  {
  }

  function U64(x: int): (w: nat) {
    x % 0x1_0000_0000_0000_0000
  }

  function S64(x: int): (w: int) {
    var u := U64(x);
    if u < 0x8000_0000_0000_0000 then u else u - 0x1_0000_0000_0000_0000
  }

  function BPow(n: nat): (p: nat)
    ensures p > 0
  {
    if n == 0 then 1 else B * BPow(n - 1)
  }

  function Val(s: seq<Word>): (v: nat) {
    if |s| == 0 then 0 else Val(s[..|s| - 1]) + s[|s| - 1] * BPow(|s| - 1)
  }

  lemma ValBase()
    ensures Val([]) == 0 && BPow(0) == 1
  {
  }

  lemma ValSnoc(s: seq<Word>, x: Word)
    ensures Val(s + [x]) == Val(s) + x * BPow(|s|)
  {
    assert (s + [x])[..|s|] == s;
  }

  // The prefix of length i + 1 in terms of the prefix of length i.
  lemma ValPrefix(s: seq<Word>, i: nat)
    requires i < |s|
    ensures Val(s[..i + 1]) == Val(s[..i]) + s[i] * BPow(i)
  {
    assert s[..i + 1] == s[..i] + [s[i]];
    ValSnoc(s[..i], s[i]);
  }

  lemma {:induction false} ValSplit(s: seq<Word>, i: nat)
    requires i <= |s|
    ensures Val(s) == Val(s[..i]) + BPow(i) * Val(s[i..])
    decreases |s|
  {
    if i == |s| {
      assert s[..i] == s && s[i..] == [];
    } else {
      var m := |s| - 1;
      var t, x := s[..m], s[m];
      calc {
        Val(s);
        Val(t) + x * BPow(m);
        { ValSplit(t, i); assert t[..i] == s[..i]; }
        Val(s[..i]) + BPow(i) * Val(t[i..]) + x * BPow(m);
        { BPowAdd(i, m - i); }
        Val(s[..i]) + BPow(i) * Val(t[i..]) + x * (BPow(i) * BPow(m - i));
        { Distribute(BPow(i), Val(t[i..]), x, BPow(m - i)); }
        Val(s[..i]) + BPow(i) * (Val(t[i..]) + x * BPow(m - i));
        { assert s[i..] == t[i..] + [x]; ValSnoc(t[i..], x); }
        Val(s[..i]) + BPow(i) * Val(s[i..]);
      }
    }
  }

  lemma Distribute(p: int, v: int, x: int, q: int)
    ensures p * (v + x * q) == p * v + x * (p * q)
  {
  }

  lemma {:induction false} BPowAdd(i: nat, j: nat)
    ensures BPow(i + j) == BPow(i) * BPow(j)
  {
    if i > 0 {
      BPowAdd(i - 1, j);
      MulAssoc(B, BPow(i - 1), BPow(j));
    }
  }

  lemma {:induction false} ValBound(s: seq<Word>)
    ensures Val(s) < BPow(|s|)
  {
    if |s| > 0 {
      ValBound(s[..|s| - 1]);
      MulMono(s[|s| - 1], B - 1, BPow(|s| - 1));
    }
  }

  // A number is below another of the same length when its highest differing digit is.
  lemma ValLess(s: seq<Word>, t: seq<Word>, i: nat)
    requires |s| == |t| && i < |s| && s[i] < t[i] && s[i + 1..] == t[i + 1..]
    ensures Val(s) < Val(t)
  {
    ValSplit(s, i + 1);
    ValSplit(t, i + 1);
    ValPrefix(s, i);
    ValPrefix(t, i);
    ValBound(s[..i]);
    MulMono(s[i] + 1, t[i], BPow(i));
    assert (s[i] + 1) * BPow(i) == s[i] * BPow(i) + BPow(i);
  }

  lemma {:induction false} ValUnique(s: seq<Word>, t: seq<Word>)
    requires |s| == |t| && Val(s) == Val(t)
    ensures s == t
  {
    if |s| > 0 {
      var n := |s| - 1;
      assert s[n + 1..] == t[n + 1..];
      if s[n] < t[n] {
        ValLess(s, t, n);
      } else if t[n] < s[n] {
        ValLess(t, s, n);
      }
      ValUnique(s[..n], t[..n]);
      assert s == s[..n] + [s[n]] && t == t[..n] + [t[n]];
    }
  }

  lemma {:induction false} ValZeros(s: seq<Word>)
    requires forall k :: 0 <= k < |s| ==> s[k] == 0
    ensures Val(s) == 0
  {
    if |s| > 0 {
      ValZeros(s[..|s| - 1]);
    }
  }

  // The digits of a number.
  function DigitsOf(v: nat, n: nat): (s: seq<Word>)
    ensures |s| == n
  {
    if n == 0 then [] else [v % B] + DigitsOf(v / B, n - 1)
  }

  lemma {:induction false} DigitsValue(v: nat, n: nat)
    requires v < BPow(n)
    ensures Val(DigitsOf(v, n)) == v
  {
    if n > 0 {
      var s := DigitsOf(v, n);
      DigitsValue(v / B, n - 1);
      ValSplit(s, 1);
      assert s[..1] == [] + [v % B] && s[1..] == DigitsOf(v / B, n - 1);
      ValSnoc([], v % B);
      assert BPow(1) == B * BPow(0);
    }
  }

  lemma DigitsOfVal(s: seq<Word>)
    ensures DigitsOf(Val(s), |s|) == s
  {
    ValBound(s);
    DigitsValue(Val(s), |s|);
    ValUnique(DigitsOf(Val(s), |s|), s);
  }

  // One digit is appended while a carry (or borrow) moves up a position.
  lemma PutDigit(out: seq<Word>, acc: int, x: int, d: Word, carry: int)
    requires d + carry * B == acc + x
    ensures Val(out + [d]) + carry * BPow(|out| + 1) == Val(out) + acc * BPow(|out|) + x * BPow(|out|)
  {
    hide Val, BPow;
    ValSnoc(out, d);
    BPowSucc(|out|);
    CarryUp(BPow(|out|), acc, x, d, carry);
  }

  lemma BPowSucc(n: nat)
    ensures BPow(n + 1) == B * BPow(n)
  {
  }

  lemma CarryUp(p: int, acc: int, x: int, d: int, carry: int)
    requires d + carry * B == acc + x
    ensures d * p + carry * (B * p) == acc * p + x * p
  {
    MulAddLeft(d, carry * B, p);
    MulAssoc(carry, B, p);
    MulAddLeft(acc, x, p);
  }

  // A product of two words leaves room for two more words in 64 bits.
  lemma ProductFits(x: Word, y: Word, u: Word, v: Word)
    ensures 0 <= x * y && x * y + u + v < B * B
  {
    ProductBelow(x, y, B - 1);
  }

  lemma ProductBelow(x: nat, y: nat, m: nat)
    requires x <= m
    ensures 0 <= x * y <= m * y
  {
  }

  // The value of a difference from the borrow that leaves the top digit.
  lemma BorrowOut(out: seq<Word>, s: seq<Word>, t: seq<Word>, borrow: int)
    requires |out| == |s| == |t| && -1 <= borrow <= 0
    requires Val(out) + borrow * BPow(|s|) == Val(s) - Val(t)
    ensures borrow == if Val(s) < Val(t) then -1 else 0
    ensures Val(out) == Val(s) - Val(t) - borrow * BPow(|s|)
  {
    hide Val, BPow;
    ValBound(out);
    ValBound(s);
    ValBound(t);
    if borrow == 0 {
      assert borrow * BPow(|s|) == 0;
    } else {
      assert borrow * BPow(|s|) == -(BPow(|s|) as int);
    }
  }

  lemma Scale3(p: int, x: int, y: int, z: int)
    ensures (x + y + z) * p == x * p + y * p + z * p
  {
  }
}
