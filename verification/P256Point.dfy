/** p256.c: p256_is_valid_point. */
module P256Point {
  import opened Arith
  import opened BigNum
  import opened P256Int
  import opened P256Compare
  import opened P256ModMul
  import opened Felem
  import opened Montgomery

  // The constant term of the curve.
  const CURVEB: nat := 0x5ac635d8aa3a93e7b3ebbd55769886bc651d06b0cc53b0f63bce3c3e27d2604b

  const BDIGITS: seq<Word> := [0x27d2604b, 0x3bce3c3e, 0xcc53b0f6, 0x651d06b0, 0x769886bc, 0xb3ebbd55, 0xaa3a93e7, 0x5ac635d8]

  lemma BDigitsValue()
    ensures |BDIGITS| == 8 && Val(BDIGITS) == CURVEB
  {
    hide Val;
    ValSum8(BDIGITS);
  }

  function Cube(x: int): (c: int) {
    x * (x * x)
  }

  ghost predicate OnCurve(x: int, y: int) {
    Cong(y * y, Cube(x) - 3 * x + CURVEB, P)
  }

  // x^3 - 3x as the source reduces it before the last addition.
  function Shifted(x: int): (t: nat)
    ensures t < P
  {
    (Cube(x) - 3 * x) % P
  }

  // The last sum is reduced only when it leaves the eight digits, so a sum from P up to
  // 2^256 stays unreduced and matches no square.
  predicate Unreduced(x: int) {
    P <= Shifted(x) + CURVEB < R
  }

  // s -= x, with P added back on a borrow.
  method SubtractMod(s: array<Word>, x: array<Word>, p: array<Word>, ghost v: int)
    requires s.Length == x.Length == p.Length == 8 && s != x && s != p && p[..] == PDIGITS
    requires Val(s[..]) < P && Val(x[..]) < P && Cong(Val(s[..]), v, P)
    modifies s
    ensures Val(s[..]) < P && Cong(Val(s[..]), v - Val(x[..]), P)
  {
    hide Val, Cong;
    Constants();
    ghost var a, b := Val(s[..]), Val(x[..]);
    var borrow := Sub(s, x, s);
    if borrow != 0 {
      var c := Add(s, p, s);
    }
    DigitsBound(s[..]);
    Difference(a, b, v, Val(s[..]));
  }

  lemma Difference(a: int, b: int, v: int, d: int)
    requires Cong(a, v, P) && (d == a - b || d == a - b + P)
    ensures Cong(d, v - b, P)
  {
    hide Cong;
    CongRefl(b, P);
    CongSub(a, v, b, b, P);
    if d == a - b + P {
      CongIntro(d, a - b, 1, P);
      CongTrans(d, a - b, v - b, P);
    }
  }

  lemma CubeCong(x: nat, s: nat, c: nat, n: nat)
    requires n > 0 && Cong(s, x * x, n) && Cong(c, x * s, n)
    ensures Cong(c, Cube(x), n)
  {
    hide Cong;
    CongRefl(x, n);
    CongMul(x, x, s, x * x, n);
    CongTrans(c, x * s, Cube(x), n);
  }

  // x^3 - 3x, reduced.
  method ShiftedCube(x: array<Word>, p: array<Word>) returns (x3: array<Word>)
    requires x.Length == p.Length == 8 && p[..] == PDIGITS && Val(x[..]) < P
    ensures fresh(x3) && x3.Length == 8 && Val(x3[..]) == Shifted(Val(x[..]))
  {
    hide Val, Cong, Wide, Cube, Shifted;
    Constants();
    ghost var v := Val(x[..]);
    x3 := new Word[8](i => 0);
    ModMul(p, x, 0, x, x3);
    ghost var s := Val(x3[..]);
    ModMul(p, x, 0, x3, x3);
    WideZero(v, v);
    WideZero(v, s);
    ghost var c := Val(x3[..]);
    CubeCong(v, s, c, P);
    SubtractMod(x3, x, p, Cube(v));
    SubtractMod(x3, x, p, Cube(v) - v);
    SubtractMod(x3, x, p, Cube(v) - v - v);
    ShiftedIs(v, Val(x3[..]));
  }

  lemma WideZero(a: nat, b: nat)
    ensures Wide(a, 0, b) == a * b
  {
  }

  lemma ShiftedIs(x: int, s: nat)
    requires s < P && Cong(s, Cube(x) - x - x - x, P)
    ensures s == Shifted(x)
  {
    hide Cong;
    CongReduced(s, Cube(x) - 3 * x, P);
  }

  // A sum t + b with the reduction of the source equals a reduced square exactly when the
  // point is on the curve and the reduction was not missed.
  lemma SumMatches(x: nat, y: nat, y2: nat, sum: nat)
    requires y2 < P && Cong(y2, y * y, P)
    requires sum == if Shifted(x) + CURVEB >= R then Shifted(x) + CURVEB - P else Shifted(x) + CURVEB
    ensures y2 == sum <==> OnCurve(x, y) && !Unreduced(x)
  {
    hide Cong, Shifted, Cube;
    var t, goal := Shifted(x) + CURVEB, Cube(x) - 3 * x + CURVEB;
    ShiftedCong(x);
    CongRefl(CURVEB, P);
    CongAdd(Shifted(x), Cube(x) - 3 * x, CURVEB, CURVEB, P);
    CongSym(t, goal, P);
    if y2 == sum {
      if sum == t - P {
        CongMinus(t, goal, P);
      }
      CongSym(y2, y * y, P);
      CongTrans(y * y, y2, goal, P);
    }
    if OnCurve(x, y) && !Unreduced(x) {
      ReducedSum(x);
      CongTrans(y2, y * y, goal, P);
      CongTrans(y2, goal, t, P);
      if sum == t - P {
        CongMinus(t, t, P) by { CongRefl(t, P); }
        CongSym(t - P, t, P);
        CongTrans(y2, t, t - P, P);
      }
      CongSmall(y2, sum, P);
    }
  }

  lemma ShiftedCong(x: int)
    ensures Cong(Shifted(x), Cube(x) - 3 * x, P)
  {
    CongMod(Cube(x) - 3 * x, P);
  }

  lemma ReducedSum(x: int)
    requires !Unreduced(x)
    ensures var t := Shifted(x) + CURVEB;
            0 <= (if t >= R then t - P else t) < P
  {
  }

  // Accepts a point exactly when its coordinates are in range, it is on the curve, and the
  // last sum did not stay unreduced.
  method IsValidPoint(x: array<Word>, y: array<Word>) returns (valid: bool)
    requires x.Length == y.Length == 8
    ensures var v, w := Val(x[..]), Val(y[..]);
            valid <==> 0 < v < P && 0 < w < P && OnCurve(v, w) && !Unreduced(v)
  {
    hide Val, Cong, Wide, Shifted, OnCurve, Unreduced;
    Constants();
    BDigitsValue();
    ghost var v, w := Val(x[..]), Val(y[..]);
    var p := Digits(PDIGITS);
    var b := Digits(BDIGITS);
    var c := Cmp(p, x);
    var d := Cmp(p, y);
    var e := IsZero(x);
    var f := IsZero(y);
    if c <= 0 || d <= 0 || e || f {
      return false;
    }
    var y2 := new Word[8](i => 0);
    ModMul(p, y, 0, y, y2);
    WideZero(w, w);
    var x3 := ShiftedCube(x, p);
    var carry := Add(x3, b, x3);
    if carry != 0 {
      var borrow := Sub(x3, p, x3);
    }
    DigitsBound(x3[..]);
    SumMatches(v, w, Val(y2[..]), Val(x3[..]));
    var r := Cmp(y2, x3);
    valid := r == 0;
  }

  const MISSEDX: nat := 0xd7325d7646cd60d80a92738ceb345f844cffaf35841022cab176f692de8de1d7

  // A point of the curve that is turned away.
  lemma MissedPoint()
    ensures 0 < MISSEDX < P && OnCurve(MISSEDX, 5) && Unreduced(MISSEDX)
  {
    MissedOnCurve();
    assert Shifted(MISSEDX) + CURVEB == P + 25;
  }

  lemma MissedOnCurve()
    ensures OnCurve(MISSEDX, 5)
  {
    CongIntro(25, Cube(MISSEDX) - 3 * MISSEDX + CURVEB,
              -7964251016017014699961479941121619859293178228425635087058727451245338563595580442530117339630933437802846772711638812991218676658853199465338450785946764, P);
  }
}
