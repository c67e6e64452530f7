/** rsa.c with moduli between the two ranges in which one final subtraction is enough: for
    every even word count from four there are keys and messages for which it is not. */
module RsaBetween {
  import opened Arith
  import opened BigNum
  import opened Rsa

  function Same(n: nat, w: Word): (s: seq<Word>)
    ensures |s| == n
  {
    seq(n, i => w)
  }

  lemma SameNext(n: nat, w: Word)
    ensures Val(Same(n + 1, w)) == Val(Same(n, w)) + w * BPow(n)
  {
    assert Same(n + 1, w) == Same(n, w) + [w];
    ValSnoc(Same(n, w), w);
  }

  lemma {:induction false} ThirdValue(n: nat)
    ensures 3 * Val(Same(n, 0x5555_5555)) + 1 == BPow(n)
  {
    hide Val;
    if n == 0 {
      ValBase();
      assert Same(0, 0x5555_5555) == [];
    } else {
      ThirdValue(n - 1);
      SameNext(n - 1, 0x5555_5555);
    }
  }

  lemma {:induction false} OnesValue(n: nat)
    ensures Val(Same(n, 0xFFFF_FFFF)) + 1 == BPow(n)
  {
    hide Val;
    if n == 0 {
      ValBase();
      assert Same(0, 0xFFFF_FFFF) == [];
    } else {
      OnesValue(n - 1);
      SameNext(n - 1, 0xFFFF_FFFF);
    }
  }

  // Changing one digit.
  lemma ValSet(s: seq<Word>, i: nat, w: Word)
    requires i < |s|
    ensures Val(s[i := w]) == Val(s) + (w as int - s[i]) * BPow(i)
  {
    hide Val, BPow;
    var t := s[i := w];
    ValSplit(s, i + 1);
    ValSplit(t, i + 1);
    ValPrefix(s, i);
    ValPrefix(t, i);
    assert s[..i] == t[..i] && s[i + 1..] == t[i + 1..];
    MulSubLeft(w, s[i], BPow(i));
  }

  // ----- the key -----

  // The modulus (R - 1) / 3, so that R leaves 1 and rr is 1.
  function ThirdKey(h: nat): (key: RsaKey)
    requires h >= 2
  {
    RsaKey(Same(2 * h, 0x5555_5555), 3, Same(2 * h, 0)[0 := 1], 3)
  }

  // A quarter of the square root of R.
  function Quarter(h: nat): (q: nat)
    requires h >= 2
  {
    0x4000_0000 * BPow(h - 1)
  }

  lemma Powers(h: nat)
    requires h >= 2
    ensures BPow(h) == 4 * Quarter(h) && BPow(2 * h) == 16 * Sq(Quarter(h))
    ensures 0x1000_0000 * BPow(2 * h - 1) == Sq(Quarter(h))
    ensures Quarter(h) % 16 == 0 && Quarter(h) >= 0x4000_0000
  {
    hide BPow;
    BPowSucc(h - 1);
    BPowAdd(h, h);
    BPowSucc(2 * h - 1);
    Sixteen(Quarter(h));
    QuarterLarge(BPow(h - 1));
  }

  lemma Sixteen(q: int)
    ensures (4 * q) * (4 * q) == 16 * (q * q)
  {
  }

  lemma QuarterLarge(p: int)
    requires p > 0
    ensures (0x4000_0000 * p) % 16 == 0 && 0x4000_0000 * p >= 0x4000_0000
  {
    assert 0x4000_0000 * p == (0x400_0000 * p) * 16;
  }

  lemma KeyValues(h: nat)
    requires h >= 2
    ensures var key := ThirdKey(h);
            && |key.n| == 2 * h && |key.rr| == 2 * h && 3 * key.N() + 1 == key.R() == BPow(2 * h) && key.N() > 0
            && Val(key.rr) == 1 && (3 * key.n[0] + 1) % B == 0
  {
    hide Val, BPow;
    ThirdValue(2 * h);
    Powers(h);
    RadixLarge(Quarter(h));
    ValZeros(Same(2 * h, 0));
    ValSet(Same(2 * h, 0), 0, 1);
    ValBase();
  }

  lemma RadixLarge(q: nat)
    requires q >= 0x4000_0000
    ensures 16 * (q * q) > 16
  {
    MulMono(0x4000_0000, q, q);
  }

  lemma KeyValid(h: nat)
    requires h >= 2
    ensures ThirdKey(h).Valid()
  {
    hide Val, BPow, ThirdKey;
    var key := ThirdKey(h);
    KeyValues(h);
    assert key.n0inv == 3 by { KeyWord(h); }
    RadixSquare(key.R(), key.N());
  }

  lemma KeyWord(h: nat)
    requires h >= 2
    ensures ThirdKey(h).n0inv == 3 && ThirdKey(h).exponent == 3
  {
  }

  lemma RadixSquare(r: int, n: int)
    requires r == 3 * n + 1 && n > 0
    ensures Cong(1, r * r, n)
  {
    hide Cong;
    CongIntro(r, 1, 3, n);
    CongMul(r, 1, r, 1, n);
    CongSym(r * r, 1, n);
  }

  // ----- the products -----

  function Message(h: nat): (m: seq<Word>)
    requires h >= 2
    ensures |m| == 2 * h
  {
    Same(h, 0)[0 := 1][h - 1 := 0xC000_0000] + Same(h, 0xFFFF_FFFF)
  }

  // The message in Montgomery form, and its square.
  function FirstForm(h: nat): (s: seq<Word>)
    requires h >= 2
    ensures |s| == 2 * h
  {
    Same(2 * h, 0x5555_5555)[0 := 0x5555_5557][h - 1 := 0x1555_5555]
  }

  function SecondForm(h: nat): (s: seq<Word>)
    requires h >= 2
    ensures |s| == 2 * h
  {
    Same(2 * h, 0x5555_5555)[0 := 0x5555_5559][h := 0x5555_5554][2 * h - 1 := 0x6555_5555]
  }

  lemma MessageValue(h: nat)
    requires h >= 2
    ensures Val(Message(h)) == 16 * Sq(Quarter(h)) + 1 - Quarter(h)
  {
    hide Val, BPow;
    var z := Same(h, 0);
    var low, m := z[0 := 1][h - 1 := 0xC000_0000], Message(h);
    assert m[..h] == low && m[h..] == Same(h, 0xFFFF_FFFF);
    ValSplit(m, h);
    ValZeros(z);
    ValSet(z, 0, 1);
    ValSet(z[0 := 1], h - 1, 0xC000_0000);
    ValBase();
    OnesValue(h);
    Powers(h);
    Sixteen(Quarter(h));
    MulSubLeft(4 * Quarter(h), 1, 4 * Quarter(h));
    assert BPow(h) * Val(Same(h, 0xFFFF_FFFF)) == (4 * Quarter(h) - 1) * (4 * Quarter(h));
  }

  lemma FirstFormValue(h: nat)
    requires h >= 2
    ensures Val(FirstForm(h)) == ThirdKey(h).N() + 2 - Quarter(h)
  {
    hide Val, BPow;
    var t := Same(2 * h, 0x5555_5555);
    ValSet(t, 0, 0x5555_5557);
    ValSet(t[0 := 0x5555_5557], h - 1, 0x1555_5555);
    ValBase();
  }

  lemma SecondFormValue(h: nat)
    requires h >= 2
    ensures Val(SecondForm(h)) == ThirdKey(h).N() + 4 - 4 * Quarter(h) + Sq(Quarter(h))
  {
    hide Val, BPow, Quarter;
    var t := Same(2 * h, 0x5555_5555);
    ValSet(t, 0, 0x5555_5559);
    ValSet(t[0 := 0x5555_5559], h, 0x5555_5554);
    ValSet(t[0 := 0x5555_5559][h := 0x5555_5554], 2 * h - 1, 0x6555_5555);
    ValBase();
    Powers(h);
  }

  // ----- products without overflow -----

  // No word overflows while each digit contributes little enough.
  ghost predicate Light(key: RsaKey, a: seq<Word>, y: nat) {
    forall i :: 0 <= i < |a| ==> a[i] as int * y <= 0x6555_5555 * key.R()
  }

  lemma ExactStep(key: RsaKey, v: nat, x: Word, y: nat) returns (d: Word)
    requires key.Valid() && 3 * key.N() + 1 == key.R() && v < key.R() && x as int * y <= 0x6555_5555 * key.R()
    ensures B * MontStep(key, v, x, y) == v + x * y + d * key.N() && MontStep(key, v, x, y) < key.R()
  {
    hide *;
    KeyFacts(key);
    SumDivides(key, v, x, y);
    d := Multiplier(key, LowWord(x, y, v));
    var w := Combine(v, x, y, d, key.N()) / B;
    NoOverflow(v, x, y, d, key.N(), key.R(), w);
    StepValue(key, v, x, y, d, w);
  }

  lemma NoOverflow(v: nat, x: Word, y: nat, d: Word, n: nat, r: int, w: int)
    requires 3 * n + 1 == r && v < r && x as int * y <= 0x6555_5555 * r && Combine(v, x, y, d, n) == B * w
    ensures w < r && B * w == v + x * y + d * n
  {
    MulMono(d, B - 1, n);
  }

  // Such a product is (a y + k N) / R for one k below R.
  lemma {:induction false} ExactProduct(key: RsaKey, a: seq<Word>, y: nat) returns (k: nat)
    requires key.Valid() && 3 * key.N() + 1 == key.R() && Light(key, a, y)
    ensures Exactly(BPow(|a|), MontProduct(key, a, y), Val(a), y, k, key.N())
    ensures 0 <= MontProduct(key, a, y) < key.R()
  {
    hide *;
    KeyFacts(key);
    if |a| == 0 {
      MontProductBase(key, a, y);
      k := 0;
      EmptyExact(a, y, key.N());
    } else {
      var i := |a| - 1;
      var v := MontProduct(key, a[..i], y);
      LightPrefix(key, a, y);
      var j := ExactProduct(key, a[..i], y);
      assert a[..i + 1] == a;
      MontProductNext(key, a, i, y);
      var d := ExactStep(key, v, a[i], y);
      ValPrefix(a, i);
      BPowSucc(i);
      k := j + BPow(i) * d;
      NextExact(BPow(i), v, MontStep(key, v, a[i], y), a[i], y, Val(a[..i]), j, d, key.N());
      StepPositive(key, v, a[i], y, d);
    }
  }

  lemma StepPositive(key: RsaKey, v: nat, x: Word, y: nat, d: Word)
    requires |key.n| > 0 && B * MontStep(key, v, x, y) == v + x * y + d * key.N()
    ensures MontStep(key, v, x, y) >= 0
  {
    MulMono(0, x, y);
    MulMono(0, d, key.N());
  }

  lemma LightPrefix(key: RsaKey, a: seq<Word>, y: nat)
    requires Light(key, a, y) && |a| > 0
    ensures Light(key, a[..|a| - 1], y) && a[|a| - 1] as int * y <= 0x6555_5555 * key.R()
  {
  }

  ghost predicate Exactly(r: int, out: int, x: int, y: int, k: int, n: int) {
    r * out == x * y + k * n && 0 <= k < r
  }

  lemma EmptyExact(a: seq<Word>, y: nat, n: nat)
    requires |a| == 0
    ensures Exactly(BPow(|a|), 0, Val(a), y, 0, n)
  {
    assert Val(a) * y == 0;
  }

  lemma NextExact(p: nat, v: int, m: int, x: int, y: int, s: int, j: int, d: Word, n: nat)
    requires Exactly(p, v, s, y, j, n) && B * m == v + x * y + d * n
    ensures j + p * d >= 0 && Exactly(B * p, m, s + x * p, y, j + p * d, n)
  {
    Rearrange(p, m, x, y, s);
    MulAddRight(p, v + x * y, d as int * n);
    MulAddRight(p, v, x * y);
    MulAssoc(p, d, n);
    MulAddLeft(j, p * d, n);
    MulMono(d, B - 1, p);
    MulMono(0, d, p);
  }

  // Modulo R = 3N + 1, k is determined, and the product is a third of quotient and remainder.
  lemma ThirdQuotient(r: int, n: int, t: int, p: int, k: int, q: int, k': int)
    requires r == 3 * n + 1 && r * t == p + k * n && 0 <= k < r && 3 * p == q * r + k' && 0 <= k' < r
    ensures 3 * t == q + k'
  {
    var g := q + k - 3 * t;
    QuotientGap(r, n, t, p, k, q, k');
    MultipleGap(g, r);
  }

  lemma QuotientGap(r: int, n: int, t: int, p: int, k: int, q: int, k': int)
    requires r == 3 * n + 1 && r * t == p + k * n && 3 * p == q * r + k'
    ensures (q + k - 3 * t) * r == k - k'
  {
    MulSubLeft(q + k, 3 * t, r);
    MulAddLeft(q, k, r);
    MulAssoc(3, t, r);
    MulAddRight(k, 3 * n, 1);
    MulAssoc(k, 3, n);
    MulSwap(k, 3, n);
  }

  lemma SmallWordsLight(key: RsaKey, a: seq<Word>, y: nat)
    requires y < key.R() && forall i :: 0 <= i < |a| ==> a[i] <= 0x6555_5555
    ensures Light(key, a, y)
  {
    hide BPow;
    forall i | 0 <= i < |a|
      ensures a[i] as int * y <= 0x6555_5555 * key.R()
    {
      MulMono(a[i], 0x6555_5555, y);
    }
  }

  lemma OneLight(key: RsaKey, a: seq<Word>)
    requires key.R() >= B
    ensures Light(key, a, 1)
  {
    hide BPow;
    SmallWordsAreLight(a, key.R());
  }

  lemma SmallWordsAreLight(a: seq<Word>, r: nat)
    requires r >= B
    ensures forall i :: 0 <= i < |a| ==> a[i] as int * 1 <= 0x6555_5555 * r
  {
  }

  // ----- the three products -----

  // With R = 16 q^2 = 3 N + 1: the message times 1.
  lemma FirstThird(q: int, n: int, r: int, t: int, k: int)
    requires q >= 0x4000_0000 && r == 3 * n + 1 == 16 * Sq(q) && Exactly(r, t, r + 1 - q, 1, k, n)
    ensures t == n + 2 - q
  {
    MulMono(0x4000_0000, q, q);
    ThirdQuotient(r, n, t, r + 1 - q, k, 2, r + 3 - 3 * q);
  }

  // The square of that.
  lemma SecondThird(q: int, n: int, r: int, t: int, k: int)
    requires q >= 0x4000_0000 && r == 3 * n + 1 == 16 * Sq(q) && Exactly(r, t, n + 2 - q, n + 2 - q, k, n)
    ensures t == n + 4 - 4 * q + Sq(q)
  {
    hide Exactly;
    MulMono(0x4000_0000, q, q);
    var x := n + 2 - q;
    SecondProductIs(q, n, r);
    ExactlyIs(r, t, x, x, k, n);
    ThirdQuotient(r, n, t, x * x, k, n - 2 * q + 3, 2 * n + 3 * Sq(q) - 10 * q + 9);
  }

  lemma ExactlyIs(r: int, t: int, x: int, y: int, k: int, n: int)
    requires Exactly(r, t, x, y, k, n)
    ensures r * t == x * y + k * n && 0 <= k < r
  {
  }

  lemma SecondProductIs(q: int, n: int, r: int)
    requires r == 3 * n + 1 == 16 * Sq(q)
    ensures 3 * ((n + 2 - q) * (n + 2 - q)) == (n - 2 * q + 3) * r + (2 * n + 3 * Sq(q) - 10 * q + 9)
  {
    var x := n + 2 - q;
    assert x * x == n * n + 4 * n - 2 * (n * q) + 4 - 4 * q + q * q;
    assert (n - 2 * q + 3) * (3 * n + 1) == 3 * (n * n) + n - 6 * (n * q) - 2 * q + 9 * n + 3;
  }

  // The square times the message, with q = 16 s: at least twice the modulus.
  lemma LastThird(q: int, s: int, n: int, r: int, t: int, k: int)
    requires q >= 0x4000_0000 && q == 16 * s && r == 3 * n + 1 == 16 * Sq(q)
    requires Exactly(r, t, n + 4 - 4 * q + Sq(q), r + 1 - q, k, n)
    ensures t >= 2 * n && 2 * n < r < 4 * (n * n) && n > 1
  {
    hide Exactly;
    MulMono(0x4000_0000, q, q);
    var u := Sq(q);
    var x, m := n + 4 - 4 * q + u, r + 1 - q;
    LastProduct(q, s, u);
    MulAssoc(3, x, m);
    ExactlyIs(r, t, x, m, k, n);
    ThirdQuotient(r, n, t, x * m, k, 19 * u - 13 * q + 12 - 3 * s, 15 * u - 23 * q + 11);
    MulMono(2, n, n);
  }

  function Sq(q: int): (u: int) {
    q * q
  }

  lemma LastProduct(q: int, s: int, u: int)
    requires u == q * q && q == 16 * s
    ensures (19 * u + 11 - 12 * q) * (16 * u + 1 - q) == (19 * u - 13 * q + 12 - 3 * s) * (16 * u) + (15 * u - 23 * q + 11)
  {
    assert q * u == 16 * (s * u);
    assert (19 * u + 11 - 12 * q) * (16 * u + 1 - q)
        == 304 * (u * u) + 19 * u - 19 * (q * u) + 176 * u + 11 - 11 * q - 192 * (q * u) - 12 * q + 12 * (q * q);
    assert (19 * u - 13 * q + 12 - 3 * s) * (16 * u) == 304 * (u * u) - 208 * (q * u) + 192 * u - 48 * (s * u);
  }

  lemma FirstProduct(h: nat)
    requires h >= 2
    ensures ThirdKey(h).Valid() && Form(ThirdKey(h), Message(h), 0) == FirstForm(h)
  {
    hide *;
    var key, m, q, n := ThirdKey(h), Message(h), Quarter(h), ThirdKey(h).N();
    KeyFactsThird(h);
    OneLight(key, m);
    var k := ExactProduct(key, m, 1);
    MessageValue(h);
    FirstThird(q, n, key.R(), MontProduct(key, m, 1), k);
    FormNext(key, m, 0);
    FirstFormValue(h);
    ValUnique(Form(key, m, 0), FirstForm(h));
  }

  // What the products use of the key.
  lemma KeyFactsThird(h: nat)
    requires h >= 2
    ensures var key, q := ThirdKey(h), Quarter(h);
            && key.Valid() && |key.n| == 2 * h && key.exponent == 3 && Val(key.rr) == 1 && q >= 0x4000_0000 && q % 16 == 0
            && 3 * key.N() + 1 == key.R() == BPow(2 * h) == 16 * Sq(q) && key.R() >= B
  {
    hide Val, BPow, ThirdKey, Quarter;
    KeyValid(h);
    KeyValues(h);
    KeyWord(h);
    Powers(h);
    MulMono(0x4000_0000, Quarter(h), Quarter(h));
  }

  lemma SecondProduct(h: nat)
    requires h >= 2
    ensures ThirdKey(h).Valid() && Form(ThirdKey(h), Message(h), 1) == SecondForm(h)
  {
    hide *;
    var key, s, q, n := ThirdKey(h), FirstForm(h), Quarter(h), ThirdKey(h).N();
    KeyFactsThird(h);
    FirstProduct(h);
    FirstFormValue(h);
    FormWords(h);
    BelowR(key, s);
    SmallWordsLight(key, s, Val(s));
    var k := ExactProduct(key, s, Val(s));
    SecondThird(q, n, key.R(), MontProduct(key, s, Val(s)), k);
    FormNext(key, Message(h), 1);
    SecondFormValue(h);
    ValUnique(Form(key, Message(h), 1), SecondForm(h));
  }

  lemma FormWords(h: nat)
    requires h >= 2
    ensures forall i :: 0 <= i < |FirstForm(h)| ==> FirstForm(h)[i] <= 0x6555_5555
    ensures forall i :: 0 <= i < |SecondForm(h)| ==> SecondForm(h)[i] <= 0x6555_5555
  {
  }

  // The power of this message is at least twice the modulus, so one subtraction does not
  // give the residue; the modulus is in neither of the two ranges.
  lemma BetweenNotReduced(h: nat)
    requires h >= 2
    ensures var key := ThirdKey(h);
            && key.Valid() && |key.n| == 2 * h && key.exponent == 3 && Val(key.rr) < key.N()
            && 2 * key.N() < key.R() < 4 * (key.N() * key.N())
            && var w := Val(PowerForm(key, Message(h)));
            && w >= 2 * key.N() && w - key.N() != Pow(Val(Message(h)), 3) % key.N()
  {
    hide *;
    var key, m, s, q, n := ThirdKey(h), Message(h), SecondForm(h), Quarter(h), ThirdKey(h).N();
    KeyFactsThird(h);
    SecondProduct(h);
    SecondFormValue(h);
    MessageValue(h);
    FormWords(h);
    BelowR(key, m);
    SmallWordsLight(key, s, Val(m));
    var k := ExactProduct(key, s, Val(m));
    LastThird(q, q / 16, n, key.R(), MontProduct(key, s, Val(m)), k);
    OneSquare();
    PowerValue(key, m);
    ReducedIff(key, m);
  }

  lemma OneSquare()
    ensures Squares(3) == 1
  {
  }
}
