/** p256_modinv_vartime: the binary Euclidean inverse. */
module P256ModInv {
  import opened Arith
  import opened BigNum
  import opened P256Int
  import opened P256Shift
  import opened P256Compare

  ghost predicate Divides(d: int, n: int) {
    d > 0 && n % d == 0
  }

  // Two pairs of numbers with the same common divisors.
  ghost predicate SameDivisors(u: int, v: int, m: int, a: int) {
    forall d :: Divides(d, u) && Divides(d, v) <==> Divides(d, m) && Divides(d, a)
  }

  ghost predicate IsGcd(g: int, m: int, a: int) {
    && Divides(g, m) && Divides(g, a)
    && forall d :: Divides(d, m) && Divides(d, a) ==> Divides(d, g)
  }

  ghost predicate Coprime(m: int, a: int) {
    forall d :: Divides(d, m) && Divides(d, a) ==> d == 1
  }

  // The values of the four working integers.
  datatype State = State(u: nat, v: nat, r: nat, s: nat)

  // x halved modulo the odd m.
  function HalfMod(x: nat, m: nat): (h: nat) {
    if x % 2 == 0 then x / 2 else (x + m) / 2
  }

  // x - y modulo m.
  function SubMod(x: nat, y: nat, m: nat): (d: int) {
    if x < y then x - y + m else x - y
  }

  // One pass of the loop.
  function Step(t: State, m: nat): (n: State)
    requires t.r <= m && t.s <= m
  {
    if t.u % 2 == 0 then State(t.u / 2, t.v, HalfMod(t.r, m), t.s)
    else if t.v % 2 == 0 then State(t.u, t.v / 2, t.r, HalfMod(t.s, m))
    else if t.v >= t.u then State(t.u, t.v - t.u, t.r, SubMod(t.s, t.r, m))
    else State(t.u - t.v, t.v, SubMod(t.r, t.s, m), t.s)
  }

  // What the loop keeps while it computes the inverse of a modulo m.
  ghost predicate Inv(t: State, m: nat, a: nat) {
    && m % 2 == 1
    && t.u > 0 && t.r <= m && t.s <= m
    && (t.u % 2 == 1 || t.v % 2 == 1)
    && Cong(t.u, t.r * a, m) && Cong(t.v, t.s * a, m)
    && SameDivisors(t.u, t.v, m, a)
  }

  lemma InitInv(m: nat, a: nat)
    requires m % 2 == 1
    ensures Inv(State(m, a, 0, 1), m, a)
  {
    CongIntro(m, 0, 1, m);
  }

  lemma HalfCong(x: nat, r: nat, a: nat, m: nat)
    requires m % 2 == 1 && x % 2 == 0 && r <= m && Cong(x, r * a, m)
    ensures HalfMod(r, m) <= m && Cong(x / 2, HalfMod(r, m) * a, m)
  {
    var h := HalfMod(r, m);
    HalfAlgebra(h, r, a, m);
    CongIntro(2 * (h * a), r * a, if r % 2 == 0 then 0 else a, m);
    CongIntro(2 * ((m + 1) / 2), 1, 1, m);
    CongCancel(x / 2, h * a, 2, (m + 1) / 2, m);
  }

  lemma HalfAlgebra(h: int, r: nat, a: nat, m: nat)
    requires h == HalfMod(r, m) && m % 2 == 1
    ensures 2 * (h * a) == r * a + (if r % 2 == 0 then 0 else a) * m
  {
    if r % 2 == 0 {
      assert 2 * h == r;
      MulAssoc(2, h, a);
    } else {
      assert 2 * h == r + m;
      MulAssoc(2, h, a);
      MulAddLeft(r, m, a);
    }
  }

  lemma SubCong(x: nat, y: nat, r: nat, s: nat, a: nat, m: nat)
    requires m > 0 && r <= m && s <= m && x >= y && Cong(x, r * a, m) && Cong(y, s * a, m)
    ensures 0 <= SubMod(r, s, m) <= m && Cong(x - y, SubMod(r, s, m) * a, m)
  {
    hide Cong;
    CongSub(x, r * a, y, s * a, m);
    MulSubLeft(r, s, a);
    var k := if r < s then 1 else 0;
    MulAddLeft(r - s, k * m, a);
    MulSwap(k, m, a);
    CongIntro((r - s) * a, SubMod(r, s, m) * a, -(k * a), m);
    CongTrans(x - y, (r - s) * a, SubMod(r, s, m) * a, m);
  }

  // An odd number has only odd divisors, and those divide the half of an even number.
  lemma HalfDivisors(d: int, h: nat, v: nat)
    requires v % 2 == 1
    ensures Divides(d, 2 * h) && Divides(d, v) <==> Divides(d, h) && Divides(d, v)
  {
    if d > 0 {
      if Divides(d, h) {
        DividesTimes(d, h / d, 2, h);
      }
      if Divides(d, 2 * h) && Divides(d, v) {
        OddDivisor(d, v / d, v);
        HalfQuotient(d, (2 * h) / d, h);
      }
    }
  }

  lemma DividesTimes(d: int, k: int, c: int, n: int)
    requires d > 0 && n == d * k
    ensures Divides(d, c * n)
  {
    MulAssoc(c, k, d);
    DivModUnique(c * n, c * k, 0, d);
  }

  lemma OddDivisor(d: int, k: int, v: int)
    requires v == d * k && v % 2 == 1
    ensures d % 2 == 1
  {
    if d % 2 == 0 {
      var e := d / 2;
      assert d == 2 * e;
      MulAssoc(2, e, k);
    }
  }

  lemma HalfQuotient(d: int, k: int, h: int)
    requires d > 0 && d % 2 == 1 && 2 * h == d * k
    ensures Divides(d, h)
  {
    EvenFactor(d / 2, k, h);
    var e := k / 2;
    assert k == 2 * e;
    MulSwap(2, e, d);
    assert h == e * d;
    DivModUnique(h, e, 0, d);
  }

  lemma EvenFactor(c: int, k: int, h: int)
    requires 2 * h == (2 * c + 1) * k
    ensures k % 2 == 0
  {
    MulAddLeft(2 * c, 1, k);
    MulAssoc(2, c, k);
    assert k == 2 * (h - c * k);
  }

  lemma SubDivisors(d: int, x: nat, y: nat)
    ensures Divides(d, x) && Divides(d, y) <==> Divides(d, x - y) && Divides(d, y)
  {
    if d > 0 {
      ZeroCong(x, d);
      ZeroCong(y, d);
      ZeroCong(x - y, d);
      if Divides(d, x) && Divides(d, y) {
        CongSub(x, 0, y, 0, d);
      }
      if Divides(d, x - y) && Divides(d, y) {
        CongAdd(x - y, 0, y, 0, d);
      }
    }
  }

  lemma ZeroCong(x: int, d: int)
    requires d > 0
    ensures Divides(d, x) <==> Cong(x, 0, d)
  {
    DivModUnique(0, 0, 0, d);
  }

  // Every pass keeps the invariant and lowers u + v, as long as v is not zero.
  lemma StepInv(t: State, m: nat, a: nat)
    requires Inv(t, m, a) && t.v > 0
    ensures Inv(Step(t, m), m, a)
    ensures Step(t, m).u + Step(t, m).v < t.u + t.v
  {
    hide Cong, Divides, HalfMod, SubMod;
    if t.u % 2 == 0 {
      HalfCong(t.u, t.r, a, m);
      forall d {
        HalfDivisors(d, t.u / 2, t.v);
      }
    } else if t.v % 2 == 0 {
      HalfCong(t.v, t.s, a, m);
      forall d {
        HalfDivisors(d, t.v / 2, t.u);
      }
    } else if t.v >= t.u {
      SubCong(t.v, t.u, t.s, t.r, a, m);
      forall d {
        SubDivisors(d, t.v, t.u);
      }
    } else {
      SubCong(t.u, t.v, t.r, t.s, a, m);
      forall d {
        SubDivisors(d, t.u, t.v);
      }
    }
  }

  // When v has become zero, u is the greatest common divisor and r its cofactor.
  lemma DoneInv(t: State, m: nat, a: nat)
    requires Inv(t, m, a) && t.v == 0
    ensures IsGcd(t.u, m, a) && Cong(t.r * a, t.u, m)
  {
    assert Divides(t.u, t.u) && Divides(t.u, 0);
  }

  lemma CoprimeGcd(g: int, m: int, a: int)
    requires IsGcd(g, m, a) && Coprime(m, a)
    ensures g == 1
  {
  }

  // n passes of the loop, if it does not stop before.
  function Run(t: State, m: nat, n: nat): (e: State)
    requires t.r <= m && t.s <= m
    ensures e.r <= m && e.s <= m
    decreases n
  {
    if n == 0 then t else Run(Step(t, m), m, n - 1)
  }

  // The pass that leaves v zero and ends the loop.
  predicate Last(t: State) {
    t.u % 2 == 1 && t.v % 2 == 1 && t.v == t.u
  }

  // Given 0, the source loops for ever: no number of passes reaches the last one.
  lemma {:induction false} ZeroNeverEnds(t: State, m: nat, n: nat)
    requires t.r <= m && t.s <= m && t.u % 2 == 1 && t.v == 0
    ensures !Last(Run(t, m, n))
    decreases n
  {
    if n > 0 {
      ZeroNeverEnds(Step(t, m), m, n - 1);
    }
  }

  // x = x / 2, or (x + MOD) / 2 when x is odd.
  method Halve(mod: array<Word>, x: array<Word>)
    requires mod.Length == 8 == x.Length && mod != x && Val(mod[..]) % 2 == 1
    modifies x
    ensures Val(x[..]) == HalfMod(old(Val(x[..])), Val(mod[..]))
  {
    hide Val;
    ghost var m := mod[..];
    var even := IsEven(x);
    if even {
      Shr1(x, 0, x);
    } else {
      var carry := Add(x, mod, x);
      assert mod[..] == m;
      Shr1(x, carry, x);
    }
    assert mod[..] == m;
  }

  // x = x - y, plus MOD when that borrows.
  method SubtractMod(mod: array<Word>, x: array<Word>, y: array<Word>)
    requires mod.Length == 8 == x.Length == y.Length && mod != x && y != x
    requires Val(x[..]) <= Val(mod[..]) && Val(y[..]) <= Val(mod[..])
    modifies x
    ensures Val(x[..]) == SubMod(old(Val(x[..])), Val(y[..]), Val(mod[..]))
  {
    hide Val;
    ghost var m, v := mod[..], y[..];
    DigitsBound(m);
    var borrow := Sub(x, y, x);
    assert mod[..] == m && y[..] == v;
    if borrow != 0 {
      var _ := Add(x, mod, x);
    }
    assert mod[..] == m && y[..] == v;
  }

  method Copy(a: array<Word>) returns (b: array<Word>)
    requires a.Length == 8
    ensures fresh(b) && b.Length == 8 && b[..] == a[..]
  {
    b := new Word[8](i requires 0 <= i < 8 reads a => a[i]);
  }

  // b = 1 / a mod MOD: for every nonzero a and odd MOD the loop ends, and a * b is
  // the greatest common divisor modulo MOD. b may be a.
  method ModInv(mod: array<Word>, a: array<Word>, b: array<Word>)
    requires mod.Length == a.Length == b.Length == 8 && mod != b
    requires Val(mod[..]) % 2 == 1 && Val(a[..]) > 0
    modifies b
    ensures Val(b[..]) < Val(mod[..])
    ensures exists g: int :: IsGcd(g, Val(mod[..]), old(Val(a[..]))) && Cong(Val(b[..]) * old(Val(a[..])), g, Val(mod[..]))
    ensures Coprime(Val(mod[..]), old(Val(a[..]))) ==> Inverse(Val(b[..]), old(Val(a[..])), Val(mod[..]))
  {
    hide Val, Cong, Coprime, IsGcd, Inv, HalfMod, SubMod, Inverse;
    ghost var ms, m, x := mod[..], Val(mod[..]), Val(a[..]);
    var r := new Word[8](i => 0);
    var s := new Word[8](i => if i == 0 then 1 else 0);
    var u := Copy(mod);
    var v := Copy(a);
    ZeroAndOne(r[..], s[..]);
    ghost var t := State(m, x, 0, 1);
    InitInv(m, x);
    while true
      invariant mod[..] == ms && Val(mod[..]) == m && b[..] == old(b[..])
      invariant fresh(r) && fresh(s) && fresh(u) && fresh(v)
      invariant r.Length == s.Length == u.Length == v.Length == 8
      invariant r != s && r != u && r != v && s != u && s != v && u != v
      invariant t == State(Val(u[..]), Val(v[..]), Val(r[..]), Val(s[..]))
      invariant Inv(t, m, x) && t.v > 0
      decreases t.u + t.v
    {
      InvFacts(t, m, x);
      StepInv(t, m, x);
      ghost var next := Step(t, m);
      var finished := OnePass(mod, r, s, u, v, t);
      t := next;
      if finished {
        break;
      }
    }
    DoneInv(t, m, x);
    InvFacts(t, m, x);
    Mod(mod, r, b);
    Finish(t, m, x, Val(b[..]));
  }

  lemma ZeroAndOne(r: seq<Word>, s: seq<Word>)
    requires |r| == 8 == |s| && forall i :: 0 <= i < 8 ==> r[i] == 0 && s[i] == if i == 0 then 1 else 0
    ensures Val(r) == 0 && Val(s) == 1
  {
    hide Val, BPow;
    ValZeros(r);
    ValZeros(s[1..]);
    ValSplit(s, 1);
    ValSnoc([], s[0]);
    assert s[..1] == [] + [s[0]];
    ValBase();
  }

  lemma InvFacts(t: State, m: nat, a: nat)
    requires Inv(t, m, a)
    ensures m % 2 == 1 && t.u > 0 && t.r <= m && t.s <= m
    ensures t.u % 2 == 1 || t.v % 2 == 1
  {
  }

  lemma Finish(t: State, m: nat, a: nat, b: nat)
    requires m > 0 && t.r <= m && IsGcd(t.u, m, a) && Cong(t.r * a, t.u, m)
    requires b == if t.r >= m then t.r - m else t.r
    ensures b < m && IsGcd(t.u, m, a) && Cong(b * a, t.u, m)
    ensures Coprime(m, a) ==> Inverse(b, a, m)
  {
    hide Cong, IsGcd, Coprime;
    if t.r == m {
      MulAddLeft(b, m, a);
      MulSwap(1, m, a);
      CongIntro(b * a, t.r * a, -(a as int), m);
      CongTrans(b * a, t.r * a, t.u, m);
    }
    if Coprime(m, a) {
      CoprimeGcd(t.u, m, a);
    }
  }

  // The body of the loop: one Step on the arrays.
  method OnePass(mod: array<Word>, r: array<Word>, s: array<Word>, u: array<Word>, v: array<Word>, ghost t: State)
    returns (finished: bool)
    requires mod.Length == r.Length == s.Length == u.Length == v.Length == 8
    requires mod !in {r, s, u, v}
    requires r != s && r != u && r != v && s != u && s != v && u != v
    requires t == State(Val(u[..]), Val(v[..]), Val(r[..]), Val(s[..]))
    requires Val(mod[..]) % 2 == 1 && t.r <= Val(mod[..]) && t.s <= Val(mod[..]) && t.u > 0 && t.v > 0
    modifies r, s, u, v
    ensures Step(t, old(Val(mod[..]))) == State(Val(u[..]), Val(v[..]), Val(r[..]), Val(s[..]))
    ensures finished <==> Val(v[..]) == 0
  {
    hide Val, HalfMod, SubMod;
    ghost var m, us, vs, rs, ss := mod[..], u[..], v[..], r[..], s[..];
    finished := false;
    var uEven := IsEven(u);
    var vEven := IsEven(v);
    if uEven {
      Shr1(u, 0, u);
      assert mod[..] == m && r[..] == rs;
      Halve(mod, r);
      assert v[..] == vs && s[..] == ss && mod[..] == m;
    } else if vEven {
      Shr1(v, 0, v);
      assert mod[..] == m && s[..] == ss;
      Halve(mod, s);
      assert u[..] == us && r[..] == rs && mod[..] == m;
    } else {
      var borrow := Sub(v, u, null);
      if borrow == 0 {
        var _ := Sub(v, u, v);
        assert mod[..] == m && s[..] == ss && r[..] == rs;
        SubtractMod(mod, s, r);
        assert u[..] == us && r[..] == rs;
        finished := IsZero(v);
      } else {
        var _ := Sub(u, v, u);
        assert mod[..] == m && s[..] == ss && r[..] == rs;
        SubtractMod(mod, r, s);
        assert v[..] == vs && s[..] == ss;
      }
    }
  }
}
