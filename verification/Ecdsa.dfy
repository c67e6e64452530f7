/** p256_ecdsa.c: signature verification, from the digits of the key and the signature. */
module Ecdsa {
  import opened Arith
  import opened BigNum
  import opened P256Int
  import opened P256Compare
  import opened P256ModMul
  import opened P256ModInv
  import opened P256Point
  import opened Felem
  import opened FelemPower
  import opened Curve
  import opened Group
  import opened Comb
  import opened Montgomery
  import opened PointMul

  // The order of the group.
  const N: nat := 0xffffffff00000000ffffffffffffffffbce6faada7179e84f3b9cac2fc632551

  const NDIGITS: seq<Word> := [0xfc63_2551, 0xf3b9_cac2, 0xa717_9e84, 0xbce6_faad, ONES, ONES, 0, ONES]

  lemma OrderValue()
    ensures |NDIGITS| == 8 && Val(NDIGITS) == N && N % 2 == 1 && 2 * N > R
  {
    hide Val;
    ValSum8(NDIGITS);
  }

  // The order is a prime: only its multiples share a divisor with it.
  ghost predicate OrderPrime() {
    forall a: nat :: a % N != 0 ==> Coprime(N, a)
  }

  // The abscissa of k times the generator, reduced; 0 at infinity.
  function Abscissa(g: int -> Affine, k: int): (x: int) {
    if Zero(k, N) then 0 else g(k).x % P
  }

  // w is the inverse of s modulo the order.
  ghost predicate InverseOf(w: nat, s: nat) {
    w < N && Inverse(w, s, N)
  }

  // The equation that a signature has to meet: r is the abscissa, modulo the order, of
  // (m / s) G + (r / s) Q.
  ghost predicate Signs(g: int -> Affine, q: int, m: nat, r: nat, s: nat) {
    exists w: nat :: InverseOf(w, s) && SignsWith(g, q, m, r, w)
  }

  predicate SignsWith(g: int -> Affine, q: int, m: nat, r: nat, w: nat) {
    r == Abscissa(g, Combined((m * w) % N, (r * w) % N, q)) % N
  }

  lemma InverseUnique(v: nat, w: nat, s: nat)
    requires InverseOf(v, s) && InverseOf(w, s)
    ensures v == w
  {
    hide Cong;
    CongSym(w * s, 1, N);
    CongTrans(v * s, 1, w * s, N);
    assert s * w == w * s;
    CongCancel(v, w, s, w, N);
    CongSmall(v, w, N);
  }

  lemma SignsIff(g: int -> Affine, q: int, m: nat, r: nat, s: nat, w: nat)
    requires InverseOf(w, s)
    ensures Signs(g, q, m, r, s) <==> SignsWith(g, q, m, r, w)
  {
    hide InverseOf, SignsWith;
    if Signs(g, q, m, r, s) {
      var v: nat :| InverseOf(v, s) && SignsWith(g, q, m, r, v);
      InverseUnique(v, w, s);
    }
  }

  // The same from the side of the signer, without quotients: for some nonce k, r is the
  // abscissa of k G and s k = m + r q.
  ghost predicate Signed(g: int -> Affine, q: int, m: nat, r: nat, s: nat) {
    exists k: int :: SignedWith(g, q, m, r, s, k)
  }

  predicate SignedWith(g: int -> Affine, q: int, m: nat, r: nat, s: nat, k: int) {
    r == Abscissa(g, k) % N && Cong(s * k, m + r * q, N)
  }

  // The combination of the two quotients is (m + r q) / s.
  lemma QuotientsCombine(m: nat, r: nat, q: int, w: nat, n: nat)
    requires n > 0
    ensures Cong(Combined((m * w) % n, (r * w) % n, q), w * (m + r * q), n)
  {
    hide Cong;
    CongMod(m * w, n);
    CongMod(r * w, n);
    CongRefl(q, n);
    CongMul(q, q, (r * w) % n, r * w, n);
    CongAdd((m * w) % n, m * w, q * ((r * w) % n), q * (r * w), n);
    Distributed(m, r, q, w);
  }

  lemma Distributed(m: int, r: int, q: int, w: int)
    ensures m * w + q * (r * w) == w * (m + r * q)
  {
    MulAddRight(w, m, r * q);
    MulAssoc(q, r, w);
  }

  // k is v / s exactly when s k = v.
  lemma QuotientIff(s: nat, w: nat, k: int, v: int, n: nat)
    requires n > 0 && Inverse(w, s, n)
    ensures Cong(s * k, v, n) <==> Cong(k, w * v, n)
  {
    hide Cong;
    CongRefl(k, n);
    CongRefl(v, n);
    CongMul(w * s, 1, k, k, n);
    CongMul(w * s, 1, v, v, n);
    MulAssoc(w, s, k);
    MulAssoc(s, w, v);
    if Cong(s * k, v, n) {
      CongRefl(w, n);
      CongMul(w, w, s * k, v, n);
      CongSym(w * s * k, k, n);
      CongTrans(k, w * s * k, w * v, n);
    }
    if Cong(k, w * v, n) {
      CongRefl(s, n);
      CongMul(s, s, k, w * v, n);
      CongTrans(s * k, s * w * v, v, n);
    }
  }

  lemma SameAbscissa(g: int -> Affine, j: int, k: int)
    requires CyclicGroup(g, N) && Cong(j, k, N)
    ensures Abscissa(g, j) == Abscissa(g, k)
  {
    hide CyclicGroup;
    CongSub(j, k, k, k, N);
    GroupPeriodic(g, N, j, k);
  }

  lemma SignsWithIff(g: int -> Affine, q: int, m: nat, r: nat, s: nat, w: nat)
    requires CyclicGroup(g, N) && InverseOf(w, s)
    ensures SignsWith(g, q, m, r, w) <==> Signed(g, q, m, r, s)
  {
    hide CyclicGroup, Cong, Abscissa, Combined, Inverse;
    var c, v := Combined((m * w) % N, (r * w) % N, q), m + r * q;
    QuotientsCombine(m, r, q, w, N);
    QuotientIff(s, w, c, v, N);
    if SignsWith(g, q, m, r, w) {
      assert SignedWith(g, q, m, r, s, c);
    }
    if k: int :| SignedWith(g, q, m, r, s, k) {
      QuotientIff(s, w, k, v, N);
      CongSym(c, w * v, N);
      CongTrans(k, w * v, c, N);
      SameAbscissa(g, k, c);
    }
  }

  // Coprime numbers have a combination that is 1.
  lemma Bezout(a: nat, b: nat) returns (x: int, y: int, d: nat)
    requires a > 0 || b > 0
    ensures d > 0 && a * x + b * y == d && Divides(d, a) && Divides(d, b)
    decreases b
  {
    if b == 0 {
      x, y, d := 1, 0, a;
      assert a % a == 0;
    } else {
      var u, v;
      u, v, d := Bezout(b, a % b);
      x, y := v, u - (a / b) * v;
      BezoutStep(a, b, u, v);
      DividesSum(d, a, b);
    }
  }

  lemma BezoutStep(a: nat, b: nat, u: int, v: int)
    requires b > 0
    ensures a * v + b * (u - (a / b) * v) == b * u + (a % b) * v
  {
    var p := a / b;
    assert a == b * p + a % b;
    MulAddLeft(b * p, a % b, v);
    MulAssoc(b, p, v);
    MulAddRight(b, u - p * v, p * v);
  }

  lemma DividesSum(d: nat, a: nat, b: nat)
    requires d > 0 && b > 0 && Divides(d, b) && Divides(d, a % b)
    ensures Divides(d, a)
  {
    var p, i, j := a / b, b / d, (a % b) / d;
    assert a == b * p + a % b && b == i * d && a % b == j * d;
    MulSwap(i, d, p);
    MulAddLeft(i * p, j, d);
    DivModUnique(a, i * p + j, 0, d);
  }

  // Every s that is not a multiple of the order has an inverse.
  lemma InverseExists(s: nat) returns (w: nat)
    requires OrderPrime() && s % N != 0
    ensures InverseOf(w, s)
  {
    hide Cong;
    var x, y, d := Bezout(N, s);
    assert Coprime(N, s);
    w := y % N;
    CongMod(y, N);
    CongRefl(s, N);
    CongMul(w, y, s, s, N);
    assert y * s == 1 + (-x) * N;
    CongIntro(y * s, 1, -x, N);
    CongTrans(w * s, y * s, 1, N);
  }

  // A signature is accepted by its equation exactly when a signer could have made it.
  lemma SignsIffSigned(g: int -> Affine, q: int, m: nat, r: nat, s: nat)
    requires OrderPrime() && CyclicGroup(g, N) && s % N != 0
    ensures Signs(g, q, m, r, s) <==> Signed(g, q, m, r, s)
  {
    hide OrderPrime, CyclicGroup, Signs, Signed, SignsWith, InverseOf;
    var w := InverseExists(s);
    SignsIff(g, q, m, r, s, w);
    SignsWithIff(g, q, m, r, s, w);
  }

  // A key that p256_is_valid_point accepts.
  ghost predicate GoodKey(x: int, y: int) {
    0 < x < P && 0 < y < P && OnCurve(x, y) && !Unreduced(x)
  }

  lemma ReducedProduct(a: nat, b: nat, c: nat)
    requires c < N && Cong(c, Wide(a, 0, b), N)
    ensures c == (a * b) % N
  {
    CongReduced(c, a * b, N);
  }

  // u = m / s and v = r / s modulo the order.
  method Quotients(order: array<Word>, message: array<Word>, r: array<Word>, s: array<Word>, u: array<Word>, v: array<Word>)
    returns (ghost w: nat)
    requires order.Length == message.Length == r.Length == s.Length == u.Length == v.Length == 8
    requires order[..] == NDIGITS && u != v && order !in {u, v} && u !in {message, r, s} && v !in {message, r, s}
    requires OrderPrime() && Val(s[..]) % N != 0
    modifies u, v
    ensures InverseOf(w, Val(s[..]))
    ensures Val(u[..]) == (Val(message[..]) * w) % N && Val(v[..]) == (Val(r[..]) * w) % N
  {
    hide Val, Cong, Wide, Inverse, Coprime, IsGcd;
    OrderValue();
    NonzeroResidue(Val(s[..]));
    ModInv(order, s, v);
    w := Val(v[..]);
    ModMul(order, message, 0, v, u);
    ReducedProduct(Val(message[..]), w, Val(u[..]));
    ModMul(order, r, 0, v, v);
    ReducedProduct(Val(r[..]), w, Val(v[..]));
  }

  lemma NonzeroResidue(a: nat)
    requires a % N != 0
    ensures a > 0
  {
  }

  // The signature is accepted exactly when the key is good, r and s are not multiples of
  // the order, and the equation holds. A good key is a point q G; table holds the
  // precomputed multiples of G.
  method Verify(key_x: array<Word>, key_y: array<Word>, message: array<Word>, r: array<Word>, s: array<Word>, table: seq<Word>,
                ghost g: int -> Affine, ghost q: int)
    returns (ok: bool)
    requires key_x.Length == key_y.Length == message.Length == r.Length == s.Length == 8
    requires Fermat() && OrderPrime() && CyclicGroup(g, N) && CombTable(table, g)
    requires GoodKey(Val(key_x[..]), Val(key_y[..])) ==>
               Invertible(q, N) && Cong(Val(key_x[..]), g(q).x, P) && Cong(Val(key_y[..]), g(q).y, P)
    ensures ok <==> GoodKey(Val(key_x[..]), Val(key_y[..])) && Val(r[..]) % N != 0 && Val(s[..]) % N != 0
                    && Signs(g, q, Val(message[..]), Val(r[..]), Val(s[..]))
    ensures ok <==> GoodKey(Val(key_x[..]), Val(key_y[..])) && Val(r[..]) % N != 0 && Val(s[..]) % N != 0
                    && Signed(g, q, Val(message[..]), Val(r[..]), Val(s[..]))
  {
    hide Signed, Val, Cong, Fermat, OrderPrime, CyclicGroup, CombTable, OnCurve, Unreduced, Invertible, Signs, InverseOf, IsMultiple, Combined;
    var order := Digits(NDIGITS);
    OrderValue();
    var valid := IsValidPoint(key_x, key_y);
    if !valid {
      return false;
    }
    var u, v := new Word[8](i => 0), new Word[8](i => 0);
    DigitsBound(r[..]);
    DigitsBound(s[..]);
    Mod(order, r, u);
    Mod(order, s, v);
    var zeroR := IsZero(u);
    var zeroS := IsZero(v);
    if zeroR || zeroS {
      return false;
    }
    ghost var m, vr, vs := Val(message[..]), Val(r[..]), Val(s[..]);
    ghost var w := Quotients(order, message, r, s, u, v);
    PointsMulVartime(u, v, key_x, key_y, u, v, table, g, N, q);
    ghost var k := Combined((m * w) % N, (vr * w) % N, q);
    ResultAbscissa(Val(u[..]), Val(v[..]), g, k);
    Mod(order, u, u);
    var c := Cmp(r, u);
    ok := c == 0;
    SignsIff(g, q, m, vr, vs, w);
    SignsIffSigned(g, q, m, vr, vs);
  }

  lemma ResultAbscissa(x: int, y: int, g: int -> Affine, k: int)
    requires IsMultiple(x, y, g, N, k)
    ensures x == Abscissa(g, k) && 0 <= x < 2 * N
  {
  }
}
