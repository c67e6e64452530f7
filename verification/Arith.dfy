/** Integer facts shared by the word-array proofs: quotients, congruences and powers. */
module Arith {

  function Min(a: int, b: int): (m: int) {
    if a < b then a else b
  }

  // Two integers leave the same remainder.
  predicate Cong(a: int, b: int, n: int)
    requires n > 0
  {
    a % n == b % n
  }

  // A multiple of n is zero or at least n away from it.
  lemma MultipleGap(k: int, n: int)
    requires n > 0
    ensures k * n <= -n || k == 0 || k * n >= n
  {
    if k >= 1 {
      assert k * n >= 1 * n;
    } else if k <= -1 {
      assert k * n <= (-1) * n;
    }
  }

  lemma DivModUnique(a: int, q: int, r: int, n: int)
    requires n > 0 && 0 <= r < n && a == q * n + r
    ensures a / n == q && a % n == r
  {
    MulSubLeft(q, a / n, n);
    MultipleGap(q - a / n, n);
  }

  lemma CongIntro(a: int, b: int, k: int, n: int)
    requires n > 0 && a == b + k * n
    ensures Cong(a, b, n)
  {
    var q := b / n + k;
    MulAddLeft(b / n, k, n);
    DivModUnique(a, q, b % n, n);
  }

  lemma CongElim(a: int, b: int, n: int) returns (k: int)
    requires n > 0 && Cong(a, b, n)
    ensures a == b + k * n
  {
    k := a / n - b / n;
    MulSubLeft(a / n, b / n, n);
  }

  lemma CongAdd(a: int, b: int, c: int, d: int, n: int)
    requires n > 0 && Cong(a, b, n) && Cong(c, d, n)
    ensures Cong(a + c, b + d, n)
  {
    hide Cong;
    var k := CongElim(a, b, n);
    var l := CongElim(c, d, n);
    MulAddLeft(k, l, n);
    CongIntro(a + c, b + d, k + l, n);
  }

  lemma CongSub(a: int, b: int, c: int, d: int, n: int)
    requires n > 0 && Cong(a, b, n) && Cong(c, d, n)
    ensures Cong(a - c, b - d, n)
  {
    hide Cong;
    var k := CongElim(a, b, n);
    var l := CongElim(c, d, n);
    MulSubLeft(k, l, n);
    CongIntro(a - c, b - d, k - l, n);
  }

  lemma CongMul(a: int, b: int, c: int, d: int, n: int)
    requires n > 0 && Cong(a, b, n) && Cong(c, d, n)
    ensures Cong(a * c, b * d, n)
  {
    hide Cong;
    var k := CongElim(a, b, n);
    var l := CongElim(c, d, n);
    var m := CrossTerms(a, b, k, c, d, l, n);
    CongIntro(a * c, b * d, m, n);
  }

  lemma CrossTerms(a: int, b: int, k: int, c: int, d: int, l: int, n: int) returns (m: int)
    requires a == b + k * n && c == d + l * n
    ensures a * c == b * d + m * n
  {
    m := k * c + b * l;
    MulAddLeft(b, k * n, c);
    MulSwap(k, n, c);
    MulAddRight(b, d, l * n);
    MulAssoc(b, l, n);
    MulAddLeft(k * c, b * l, n);
  }

  lemma MulAddLeft(a: int, b: int, c: int)
    ensures (a + b) * c == a * c + b * c
  {
  }

  lemma MulSubLeft(a: int, b: int, c: int)
    ensures (a - b) * c == a * c - b * c
  {
  }

  lemma MulAddRight(a: int, b: int, c: int)
    ensures a * (b + c) == a * b + a * c
  {
  }

  lemma MulAssoc(a: int, b: int, c: int)
    ensures a * (b * c) == (a * b) * c
  {
  }

  lemma MulSwap(a: int, b: int, c: int)
    ensures (a * b) * c == (a * c) * b
  {
  }

  lemma CongMod(a: int, n: int)
    requires n > 0
    ensures Cong(a % n, a, n)
  {
    assert a % n == a + (-(a / n)) * n;
    CongIntro(a % n, a, -(a / n), n);
  }

  predicate Inverse(c: int, inv: int, n: int)
    requires n > 0
  {
    Cong(c * inv, 1, n)
  }

  // A factor with an inverse can be cancelled.
  lemma CongCancel(a: int, b: int, c: int, inv: int, n: int)
    requires n > 0 && Inverse(c, inv, n) && Cong(a * c, b * c, n)
    ensures Cong(a, b, n)
  {
    hide Cong;
    CongMul(a * c, b * c, inv, inv, n) by { CongRefl(inv, n); }
    MulAssoc(a, c, inv);
    MulAssoc(b, c, inv);
    CongMul(a, a, c * inv, 1, n) by { CongRefl(a, n); }
    CongMul(b, b, c * inv, 1, n) by { CongRefl(b, n); }
    CongTrans(a, a * (c * inv), b * (c * inv), n) by { CongSym(a * (c * inv), a, n); }
    CongTrans(a, b * (c * inv), b, n);
  }

  lemma CongRefl(a: int, n: int)
    requires n > 0
    ensures Cong(a, a, n)
  {
  }

  lemma CongSym(a: int, b: int, n: int)
    requires n > 0 && Cong(a, b, n)
    ensures Cong(b, a, n)
  {
  }

  lemma CongTrans(a: int, b: int, c: int, n: int)
    requires n > 0 && Cong(a, b, n) && Cong(b, c, n)
    ensures Cong(a, c, n)
  {
  }

  lemma CongSmall(a: int, b: int, n: int)
    requires 0 <= a < n && 0 <= b < n && Cong(a, b, n)
    ensures a == b
  {
    DivModUnique(a, 0, a, n);
    DivModUnique(b, 0, b, n);
  }

  lemma MulMono(a: int, b: int, c: int)
    requires a <= b && c >= 0
    ensures a * c <= b * c
  {
  }

  // The measure names both arguments so that a literal exponent is not unfolded.
  function Pow(b: int, e: nat): int
    decreases e, b
  {
    if e == 0 then 1 else b * Pow(b, e - 1)
  }

  lemma {:induction false} PowAdd(b: int, d: nat, e: nat)
    ensures Pow(b, d + e) == Pow(b, d) * Pow(b, e)
    decreases d
  {
    if d > 0 {
      PowAdd(b, d - 1, e);
      MulAssoc(b, Pow(b, d - 1), Pow(b, e));
    }
  }

  lemma {:induction false} PowCong(a: int, b: int, e: nat, n: int)
    requires n > 0 && Cong(a, b, n)
    ensures Cong(Pow(a, e), Pow(b, e), n)
    decreases e
  {
    if e == 0 {
      CongRefl(1, n);
    } else {
      hide Cong;
      PowCong(a, b, e - 1, n);
      CongMul(a, b, Pow(a, e - 1), Pow(b, e - 1), n);
    }
  }

  lemma CongMinus(a: int, b: int, n: int)
    requires n > 0 && Cong(a, b, n)
    ensures Cong(a - n, b, n)
  {
    hide Cong;
    var k := CongElim(a, b, n);
    MulSubLeft(k, 1, n);
    CongIntro(a - n, b, k - 1, n);
  }

  lemma CongReduced(a: int, b: int, n: int)
    requires 0 <= a < n && Cong(a, b, n)
    ensures a == b % n
  {
    DivModUnique(a, 0, a, n);
  }

  lemma MulLess(a: int, b: int, c: int)
    requires a * c < b * c && c > 0
    ensures a < b
  {
    if a >= b {
      MulMono(b, a, c);
    }
  }
}
