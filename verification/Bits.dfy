/** The C bitwise operators on unsigned words, and when they are plain arithmetic. */
module Bits {
  import opened Arith

  function Or(a: nat, b: nat): (r: nat) {
    if a == 0 then b
    else if b == 0 then a
    else (if a % 2 == 1 || b % 2 == 1 then 1 else 0) + 2 * Or(a / 2, b / 2)
  }

  function And(a: nat, b: nat): (r: nat) {
    if a == 0 || b == 0 then 0
    else (if a % 2 == 1 && b % 2 == 1 then 1 else 0) + 2 * And(a / 2, b / 2)
  }

  function Xor(a: nat, b: nat): (r: nat) {
    if a == 0 then b
    else if b == 0 then a
    else (if a % 2 != b % 2 then 1 else 0) + 2 * Xor(a / 2, b / 2)
  }

  lemma {:induction false} PowPositive(k: nat)
    ensures Pow(2, k) > 0
    decreases k
  {
    if k > 0 {
      PowPositive(k - 1);
    }
  }

  lemma OneBit()
    ensures Pow(2, 1) == 2
  {
  }

  // Operands that share no bit position are added.
  lemma {:induction false} OrShifted(h: nat, b: nat, k: nat)
    requires b < Pow(2, k)
    ensures h * Pow(2, k) >= 0 && Or(h * Pow(2, k), b) == h * Pow(2, k) + b
    decreases k
  {
    PowPositive(k);
    if k > 0 {
      OrShifted(h, b / 2, k - 1);
      Double(h, Pow(2, k - 1));
      OrEven(h * Pow(2, k - 1), b);
    }
  }

  lemma Double(h: nat, p: nat)
    ensures h * (2 * p) == 2 * (h * p)
  {
  }

  lemma OrEven(a: nat, b: nat)
    requires Or(a, b / 2) == a + b / 2
    ensures Or(2 * a, b) == 2 * a + b
  {
    assert (2 * a) / 2 == a && (2 * a) % 2 == 0;
  }

  lemma {:induction false} AndMask(b: nat, k: nat)
    ensures Pow(2, k) > 0 && And(Pow(2, k) - 1, b) == b % Pow(2, k)
    decreases k
  {
    PowPositive(k);
    if k > 0 {
      PowPositive(k - 1);
      AndMask(b / 2, k - 1);
      var p := Pow(2, k - 1);
      var m := 2 * p - 1;
      assert Pow(2, k) - 1 == m && m % 2 == 1 && m / 2 == p - 1;
      assert And(m, b) == b % 2 + 2 * And(m / 2, b / 2);
      HalveMod(b, p);
    }
  }

  lemma HalveMod(b: nat, p: nat)
    requires p > 0
    ensures b % (2 * p) == b % 2 + 2 * ((b / 2) % p)
  {
    var q, r := (b / 2) / p, (b / 2) % p;
    assert b / 2 == q * p + r;
    assert q * (2 * p) == 2 * (q * p);
    DivModUnique(b, q, 2 * r + b % 2, 2 * p);
  }

  lemma {:induction false} XorCancel(a: nat, b: nat)
    ensures Xor(a, Xor(b, a)) == b
    decreases a + b
  {
    if a > 0 && b > 0 {
      XorCancel(a / 2, b / 2);
      XorSelf(a);
    } else {
      XorSelf(a);
    }
  }

  lemma {:induction false} XorSelf(a: nat)
    ensures Xor(a, a) == 0
  {
    if a > 0 {
      XorSelf(a / 2);
    }
  }

  lemma {:induction false} AndSym(a: nat, b: nat)
    ensures And(a, b) == And(b, a)
  {
    if a > 0 && b > 0 {
      AndSym(a / 2, b / 2);
    }
  }

  lemma {:induction false} OrSym(a: nat, b: nat)
    ensures Or(a, b) == Or(b, a)
    decreases a + b
  {
    if a > 0 && b > 0 {
      OrSym(a / 2, b / 2);
    }
  }

  lemma {:induction false} XorBound(a: nat, b: nat, k: nat)
    requires a < Pow(2, k) && b < Pow(2, k)
    ensures Xor(a, b) < Pow(2, k)
    decreases k
  {
    PowPositive(k);
    if k > 0 && a > 0 && b > 0 {
      XorBound(a / 2, b / 2, k - 1);
    }
  }

  lemma {:induction false} XorZero(a: nat, b: nat)
    ensures Xor(a, b) == 0 <==> a == b
  {
    if a > 0 && b > 0 {
      XorZero(a / 2, b / 2);
    }
  }
}
