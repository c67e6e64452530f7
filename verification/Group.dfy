/** The curve group as the callers of the point formulas see it: the affine coordinates of
    the multiples of a generator, related by the chord and tangent laws. */
module Group {
  import opened Arith
  import opened BigNum
  import opened Felem
  import opened Residue
  import opened Curve
  import opened Points

  predicate Zero(k: int, n: nat)
    requires n > 0
  {
    k % n == 0
  }

  // Tangents lead from k to 2k.
  ghost predicate DoublesTo(a: Affine, c: Affine) {
    Unit(a.y) && exists l: int :: Tangent(a, l) && OnLine(a, a, l, c)
  }

  // Chords lead from j and k to j + k.
  ghost predicate AddsTo(a: Affine, b: Affine, c: Affine) {
    Unit(b.x - a.x) && exists l: int :: Slope(a, b, l) && OnLine(a, b, l, c)
  }

  predicate Opposite(a: Affine, b: Affine) {
    Cong(a.x, b.x, P) && Cong(a.y + b.y, 0, P)
  }

  ghost predicate Periodic(g: int -> Affine, n: nat)
    requires n > 0
  {
    forall j, k :: Zero(j - k, n) ==> g(j) == g(k)
  }

  ghost predicate Doubling(g: int -> Affine, n: nat)
    requires n > 0
  {
    forall k :: !Zero(k, n) ==> DoublesTo(g(k), g(2 * k))
  }

  ghost predicate Adding(g: int -> Affine, n: nat)
    requires n > 0
  {
    forall j, k :: !Zero(j, n) && !Zero(k, n) && !Zero(j - k, n) && !Zero(j + k, n) ==> AddsTo(g(j), g(k), g(j + k))
  }

  ghost predicate Negating(g: int -> Affine, n: nat)
    requires n > 0
  {
    forall j, k :: !Zero(j, n) && Zero(j + k, n) ==> Opposite(g(j), g(k))
  }

  // g(k) holds the coordinates of k times a generator of odd order n; multiples of n are
  // the point at infinity, which has no coordinates.
  ghost predicate CyclicGroup(g: int -> Affine, n: nat) {
    n > 32 && n % 2 == 1 && Periodic(g, n) && Doubling(g, n) && Adding(g, n) && Negating(g, n)
  }

  // The limbs are Jacobian coordinates of an affine point.
  ghost predicate Holds(x: seq<Word>, y: seq<Word>, z: seq<Word>, a: Affine) {
    Ok(x) && Ok(y) && Ok(z) && Reps(Jacobian(Res(x), Res(y), Res(z)), a)
  }

  // Other representatives of the same residues represent the same point.
  lemma RepsMoves(p: Jacobian, q: Jacobian, a: Affine)
    requires Cong(q.x, p.x, P) && Cong(q.y, p.y, P) && Cong(q.z, p.z, P) && Reps(p, a)
    ensures Reps(q, a)
  {
    hide Cong, Unit, Scales;
    UnitCong(p.z, q.z) by { CongSym(q.z, p.z, P); }
    ScalesDef(p, a);
    ScaleCong(a, p.z, q.z) by { CongSym(q.z, p.z, P); }
    CongTrans(q.x, p.x, AddU(a.x, p.z), P);
    CongTrans(q.y, p.y, AddS(a.y, p.z), P);
    CongTrans(q.x, AddU(a.x, p.z), AddU(a.x, q.z), P);
    CongTrans(q.y, AddS(a.y, p.z), AddS(a.y, q.z), P);
    ScalesIntro(q, a);
  }

  lemma StandsParts(x: seq<Word>, y: seq<Word>, z: seq<Word>, p: Jacobian)
    requires Stands(x, y, z, p)
    ensures Ok(x) && Ok(y) && Ok(z) && Cong(Res(x), p.x, P) && Cong(Res(y), p.y, P) && Cong(Res(z), p.z, P)
  {
  }

  lemma ScalesIntro(p: Jacobian, a: Affine)
    requires Cong(p.x, AddU(a.x, p.z), P) && Cong(p.y, AddS(a.y, p.z), P)
    ensures Scales(p, a)
  {
  }

  lemma ScaleCong(a: Affine, z: int, w: int)
    requires Cong(z, w, P)
    ensures Cong(AddU(a.x, z), AddU(a.x, w), P) && Cong(AddS(a.y, z), AddS(a.y, w), P)
  {
    hide Cong;
    Square(z, w);
    CongMul(z, w, z * z, w * w, P);
    Times(a.x, z * z, w * w);
    Times(a.y, z * (z * z), w * (w * w));
  }

  // What a point's own residues stand for.
  lemma OwnResidues(x: seq<Word>, y: seq<Word>, z: seq<Word>)
    requires Ok(x) && Ok(y) && Ok(z)
    ensures Stands(x, y, z, Jacobian(Res(x), Res(y), Res(z)))
  {
    hide Res;
    IsRes(x);
    IsRes(y);
    IsRes(z);
  }

  lemma DoubleHolds(x: seq<Word>, y: seq<Word>, z: seq<Word>, p: Jacobian, g: int -> Affine, n: nat, k: int)
    requires CyclicGroup(g, n) && !Zero(k, n) && Reps(p, g(k)) && Stands(x, y, z, Doubled(p))
    ensures Holds(x, y, z, g(2 * k))
  {
    hide CyclicGroup, Zero, Stands, Reps, Unit, Tangent, OnLine, Doubled, Res, Ok, Cong;
    GroupDoubles(g, n, k);
    var l: int :| Tangent(g(k), l) && OnLine(g(k), g(k), l, g(2 * k));
    DoubleRepresents(p, g(k), l, g(2 * k));
    StandsParts(x, y, z, Doubled(p));
    RepsMoves(Doubled(p), Jacobian(Res(x), Res(y), Res(z)), g(2 * k));
  }

  lemma AddHolds(x: seq<Word>, y: seq<Word>, z: seq<Word>, p: Jacobian, q: Jacobian, g: int -> Affine, n: nat, j: int, k: int)
    requires CyclicGroup(g, n) && !Zero(j, n) && !Zero(k, n) && !Zero(j - k, n) && !Zero(j + k, n)
    requires Reps(p, g(j)) && Reps(q, g(k)) && Stands(x, y, z, Added(p, q))
    ensures Holds(x, y, z, g(j + k))
  {
    hide CyclicGroup, Zero, Stands, Reps, Unit, Slope, OnLine, Added, Res, Ok, Cong;
    GroupAdds(g, n, j, k);
    var l: int :| Slope(g(j), g(k), l) && OnLine(g(j), g(k), l, g(j + k));
    AddRepresents(p, q, g(j), g(k), l, g(j + k));
    StandsParts(x, y, z, Added(p, q));
    RepsMoves(Added(p, q), Jacobian(Res(x), Res(y), Res(z)), g(j + k));
  }

  lemma OrderBound(g: int -> Affine, n: nat)
    requires CyclicGroup(g, n)
    ensures n > 32 && n % 2 == 1
  {
  }

  lemma GroupDoubles(g: int -> Affine, n: nat, k: int)
    requires CyclicGroup(g, n) && !Zero(k, n)
    ensures DoublesTo(g(k), g(2 * k))
  {
    hide Zero, AddsTo, DoublesTo, Opposite;
  }

  lemma GroupAdds(g: int -> Affine, n: nat, j: int, k: int)
    requires CyclicGroup(g, n) && !Zero(j, n) && !Zero(k, n) && !Zero(j - k, n) && !Zero(j + k, n)
    ensures AddsTo(g(j), g(k), g(j + k))
  {
    hide Zero, AddsTo, DoublesTo, Opposite;
  }

  // ----- the cases of the general addition -----

  lemma UnitNonzero(a: int)
    requires Unit(a)
    ensures a % P != 0
  {
    hide Cong;
    var i: int :| Inverse(a, i, P);
    if a % P == 0 {
      CongMod(a, P);
      CongSym(0, a, P);
      CongMul(a, 0, i, i, P) by { CongRefl(i, P); }
      CongSym(a * i, 1, P);
      CongTrans(1, a * i, 0 * i, P);
      OneIsNotZero();
    }
  }

  lemma OneIsNotZero()
    ensures !Cong(1, 0, P)
  {
  }

  lemma CongZero(a: int, b: int)
    requires Cong(a, b, P)
    ensures a % P == 0 <==> b % P == 0
  {
  }

  // Coordinates of the same point coincide.
  lemma SameCoincide(p: Jacobian, q: Jacobian, a: Affine)
    requires Scales(p, a) && Scales(q, a)
    ensures Coincide(p, q)
  {
    hide Cong, Scales, AddU, AddS, AddH, AddR;
    AddHLaw(p, q, a, a);
    ZeroTerms(p.z * q.z);
    CongZero(AddU(q.x, p.z) - AddU(p.x, q.z), AddU(0, p.z * q.z));
    CongZero(AddS(q.y, p.z) - AddS(p.y, q.z), AddS(0, p.z * q.z));
  }

  lemma ZeroTerms(w: int)
    ensures AddU(0, w) == 0 && AddS(0, w) == 0
  {
  }

  // Points with different abscissas do not: h stands for the difference of the abscissas.
  lemma ApartDiffer(h: int, d: int, w: int)
    requires Cong(h, AddU(d, w), P) && Unit(d) && Unit(w)
    ensures h % P != 0
  {
    hide Cong, AddU, Unit;
    UnitProduct(w, w);
    UnitProduct(d, w * w);
    AddSDef(d, w);
    UnitNonzero(AddU(d, w));
    CongZero(h, AddU(d, w));
  }

  // Opposite points do not either, and the addition formulas leave z zero.
  lemma OppositeCancel(p: Jacobian, q: Jacobian, a: Affine, b: Affine)
    requires Unit(a.y) && Opposite(a, b) && Reps(p, a) && Reps(q, b)
    ensures !Coincide(p, q) && Added(p, q).z % P == 0
  {
    hide Cong, Scales, AddU, AddS, AddH, AddR, Unit, AddX, AddY, AddZ;
    var w := p.z * q.z;
    AddHLaw(p, q, a, b);
    UnitProduct(p.z, q.z);
    UnitProduct(w, w);
    UnitProduct(w, w * w);
    OppositeDiffs(a, b);
    var h := AddH(p.x, p.z, q.x, q.z);
    UnderU(b.x - a.x, 0, w);
    ZeroTerms(w);
    CongTrans(h, AddU(b.x - a.x, w), AddU(0, w), P);
    AddZDef(p.z, q.z, h);
    Times(2 * (p.z * q.z), h, 0);
    CongZero(AddZ(p.z, q.z, h), 2 * (p.z * q.z) * 0);
    UnitTwo();
    UnitProduct(2, a.y);
    UnitProduct(2 * a.y, w * (w * w));
    AddSDef(2 * a.y, w);
    UnitNonzero(AddS(2 * a.y, w));
    UnderS(b.y - a.y, -(2 * a.y), w);
    CongTrans(AddS(q.y, p.z) - AddS(p.y, q.z), AddS(b.y - a.y, w), AddS(-(2 * a.y), w), P);
    Negated(2 * a.y, w);
    CongZero(AddS(q.y, p.z) - AddS(p.y, q.z), -AddS(2 * a.y, w));
    NegatedZero(AddS(2 * a.y, w));
  }

  lemma OppositeDiffs(a: Affine, b: Affine)
    requires Opposite(a, b)
    ensures Cong(b.x - a.x, 0, P) && Cong(b.y - a.y, -(2 * a.y), P)
  {
    hide Cong;
    CongSym(a.x, b.x, P);
    CongRefl(a.x, P);
    CongSub(b.x, a.x, a.x, a.x, P);
    CongRefl(2 * a.y, P);
    CongSub(a.y + b.y, 0, 2 * a.y, 2 * a.y, P);
  }

  lemma Negated(c: int, w: int)
    ensures AddS(-c, w) == -AddS(c, w)
  {
  }

  lemma NegatedZero(a: int)
    ensures (-a) % P == 0 <==> a % P == 0
  {
    if a % P == 0 {
      CongIntro(-a, 0, -(a / P), P);
    }
    if (-a) % P == 0 {
      CongIntro(a, 0, -((-a) / P), P);
    }
  }

  // ----- the multiples of a multiple -----

  function Multiples(g: int -> Affine, q: int): (m: int -> Affine) {
    (k: int) => g(q * k)
  }

  lemma ZeroProduct(q: int, k: int, n: nat)
    requires n > 0
    ensures Zero(k, n) ==> Zero(q * k, n)
    ensures (exists i: int :: Inverse(q, i, n)) && Zero(q * k, n) ==> Zero(k, n)
  {
    hide Cong;
    if Zero(k, n) {
      ZeroIsCong(k, n);
      CongRefl(q, n);
      CongMul(q, q, k, 0, n);
      ZeroIsCong(q * k, n);
    }
    if i: int :| Inverse(q, i, n) && Zero(q * k, n) {
      ZeroIsCong(q * k, n);
      CongRefl(i, n);
      CongMul(q * k, 0, i, i, n);
      CongMul(q * i, 1, k, k, n) by { CongRefl(k, n); }
      MulSwap(q, k, i);
      CongSym(q * i * k, 1 * k, n);
      CongTrans(k, q * i * k, 0 * i, n);
      ZeroIsCong(k, n);
    }
  }

  lemma ZeroIsCong(k: int, n: nat)
    requires n > 0
    ensures Zero(k, n) <==> Cong(k, 0, n)
  {
    DivModUnique(0, 0, 0, n);
  }

  ghost predicate Invertible(q: int, n: nat)
    requires n > 0
  {
    exists i: int :: Inverse(q, i, n)
  }

  lemma MultiplesAt(g: int -> Affine, n: nat, q: int, j: int, k: int)
    requires CyclicGroup(g, n) && n > 0 && Invertible(q, n)
    ensures Zero(j - k, n) ==> Multiples(g, q)(j) == Multiples(g, q)(k)
    ensures !Zero(j, n) && Zero(j + k, n) ==> Opposite(Multiples(g, q)(j), Multiples(g, q)(k))
    ensures !Zero(j, n) && !Zero(k, n) && !Zero(j - k, n) && !Zero(j + k, n) ==>
              AddsTo(Multiples(g, q)(j), Multiples(g, q)(k), Multiples(g, q)(j + k))
  {
    hide Zero, Inverse, AddsTo, DoublesTo, Opposite, CyclicGroup;
    ZeroProduct(q, j, n);
    ZeroProduct(q, k, n);
    ZeroProduct(q, j - k, n);
    ZeroProduct(q, j + k, n);
    MulSubRight(q, j, k);
    MulAddRight(q, j, k);
    if Zero(j - k, n) {
      GroupPeriodic(g, n, q * j, q * k);
    }
    if !Zero(j, n) && Zero(j + k, n) {
      GroupOpposite(g, n, q * j, q * k);
    }
    if !Zero(j, n) && !Zero(k, n) && !Zero(j - k, n) && !Zero(j + k, n) {
      GroupAdds(g, n, q * j, q * k);
    }
  }

  lemma MultiplesDouble(g: int -> Affine, n: nat, q: int, k: int)
    requires CyclicGroup(g, n) && n > 0 && Invertible(q, n) && !Zero(k, n)
    ensures DoublesTo(Multiples(g, q)(k), Multiples(g, q)(2 * k))
  {
    hide Zero, Inverse, AddsTo, DoublesTo, Opposite, CyclicGroup;
    ZeroProduct(q, k, n);
    GroupDoubles(g, n, q * k);
    assert q * (2 * k) == 2 * (q * k);
  }

  lemma MultiplesPeriodic(g: int -> Affine, n: nat, q: int)
    requires CyclicGroup(g, n) && n > 0 && Invertible(q, n)
    ensures Periodic(Multiples(g, q), n)
  {
    hide Zero, CyclicGroup, Multiples, Invertible, AddsTo, Opposite;
    var m := Multiples(g, q);
    forall j, k | Zero(j - k, n)
      ensures m(j) == m(k)
    {
      MultiplesAt(g, n, q, j, k);
    }
  }

  lemma MultiplesAdding(g: int -> Affine, n: nat, q: int)
    requires CyclicGroup(g, n) && n > 0 && Invertible(q, n)
    ensures Adding(Multiples(g, q), n)
  {
    hide Zero, CyclicGroup, Multiples, Invertible, AddsTo, Opposite;
    var m := Multiples(g, q);
    forall j, k | !Zero(j, n) && !Zero(k, n) && !Zero(j - k, n) && !Zero(j + k, n)
      ensures AddsTo(m(j), m(k), m(j + k))
    {
      MultiplesAt(g, n, q, j, k);
    }
  }

  lemma MultiplesNegating(g: int -> Affine, n: nat, q: int)
    requires CyclicGroup(g, n) && n > 0 && Invertible(q, n)
    ensures Negating(Multiples(g, q), n)
  {
    hide Zero, CyclicGroup, Multiples, Invertible, AddsTo, Opposite;
    var m := Multiples(g, q);
    forall j, k | !Zero(j, n) && Zero(j + k, n)
      ensures Opposite(m(j), m(k))
    {
      MultiplesAt(g, n, q, j, k);
    }
  }

  // A multiple that is invertible modulo the order generates the group too.
  lemma MultiplesGroup(g: int -> Affine, n: nat, q: int)
    requires CyclicGroup(g, n) && n > 0 && Invertible(q, n)
    ensures CyclicGroup(Multiples(g, q), n)
  {
    hide Zero, DoublesTo, Multiples, Invertible, Periodic, Adding, Negating;
    MultiplesPeriodic(g, n, q);
    MultiplesAdding(g, n, q);
    MultiplesNegating(g, n, q);
    var m := Multiples(g, q);
    forall k | !Zero(k, n)
      ensures DoublesTo(m(k), m(2 * k))
    {
      MultiplesDouble(g, n, q, k);
    }
  }

  lemma MulSubRight(a: int, b: int, c: int)
    ensures a * (b - c) == a * b - a * c
  {
  }

  lemma GroupPeriodic(g: int -> Affine, n: nat, j: int, k: int)
    requires CyclicGroup(g, n) && Zero(j - k, n)
    ensures g(j) == g(k)
  {
    hide Zero, AddsTo, DoublesTo, Opposite;
  }

  lemma GroupOpposite(g: int -> Affine, n: nat, j: int, k: int)
    requires CyclicGroup(g, n) && !Zero(j, n) && Zero(j + k, n)
    ensures Opposite(g(j), g(k))
  {
    hide Zero, AddsTo, DoublesTo, Opposite;
  }
}
