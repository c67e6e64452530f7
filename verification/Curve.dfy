/** The Jacobian formulas of p256_ec.c as polynomials, and the chord and tangent laws of
    y^2 = x^3 - 3x + b that they implement. */
module Curve {
  import opened Arith
  import opened Felem

  // ----- doubling -----

  function DoubleM(x: int, z: int): (m: int) {
    3 * ((x + z * z) * (x - z * z))
  }

  function DoubleS(x: int, y: int): (s: int) {
    4 * (x * (y * y))
  }

  function DoubleX(x: int, y: int, z: int): (r: int) {
    DoubleM(x, z) * DoubleM(x, z) - 2 * DoubleS(x, y)
  }

  function DoubleY(x: int, y: int, z: int): (r: int) {
    DoubleM(x, z) * (DoubleS(x, y) - DoubleX(x, y, z)) - 8 * ((y * y) * (y * y))
  }

  function DoubleZ(y: int, z: int): (r: int) {
    2 * y * z
  }

  // ----- addition -----

  // The coordinates of one point scaled by the other's z.
  function AddU(x: int, z: int): (u: int) {
    x * (z * z)
  }

  function AddS(y: int, z: int): (s: int) {
    y * (z * (z * z))
  }

  function AddH(x1: int, z1: int, x2: int, z2: int): (h: int) {
    AddU(x2, z1) - AddU(x1, z2)
  }

  function AddR(y1: int, z1: int, y2: int, z2: int): (r: int) {
    2 * (AddS(y2, z1) - AddS(y1, z2))
  }

  function AddI(h: int): (i: int) {
    (2 * h) * (2 * h)
  }

  // The results from u1, s1, h, r and the two z coordinates.
  function AddX(u1: int, h: int, r: int): (x: int) {
    r * r - h * AddI(h) - 2 * (u1 * AddI(h))
  }

  function AddY(u1: int, s1: int, h: int, r: int): (y: int) {
    r * (u1 * AddI(h) - AddX(u1, h, r)) - 2 * (s1 * (h * AddI(h)))
  }

  function AddZ(z1: int, z2: int, h: int): (z: int) {
    2 * (z1 * z2) * h
  }

  // ----- what they mean -----

  datatype Affine = Affine(x: int, y: int)

  datatype Jacobian = Jacobian(x: int, y: int, z: int)

  ghost predicate Unit(a: int) {
    exists i: int :: Inverse(a, i, P)
  }

  // Jacobian coordinates of an affine point: x/z^2 and y/z^3, with z invertible.
  ghost predicate Reps(p: Jacobian, a: Affine) {
    Unit(p.z) && Scales(p, a)
  }

  predicate Scales(p: Jacobian, a: Affine) {
    Cong(p.x, AddU(a.x, p.z), P) && Cong(p.y, AddS(a.y, p.z), P)
  }

  // c lies where the line of slope l through a and b meets the curve again, mirrored.
  predicate OnLine(a: Affine, b: Affine, l: int, c: Affine) {
    && Cong(c.x, l * l - a.x - b.x, P)
    && Cong(c.y, l * (a.x - c.x) - a.y, P)
  }

  predicate Slope(a: Affine, b: Affine, l: int) {
    Cong(l * (b.x - a.x), b.y - a.y, P)
  }

  predicate Tangent(a: Affine, l: int) {
    Cong(l * (2 * a.y), 3 * (a.x * a.x) - 3, P)
  }

  function Doubled(p: Jacobian): (r: Jacobian) {
    Jacobian(DoubleX(p.x, p.y, p.z), DoubleY(p.x, p.y, p.z), DoubleZ(p.y, p.z))
  }

  function Added(p: Jacobian, q: Jacobian): (s: Jacobian) {
    var u1, s1 := AddU(p.x, q.z), AddS(p.y, q.z);
    var h, r := AddH(p.x, p.z, q.x, q.z), AddR(p.y, p.z, q.y, q.z);
    Jacobian(AddX(u1, h, r), AddY(u1, s1, h, r), AddZ(p.z, q.z, h))
  }

  // ----- congruence steps -----

  lemma Times(c: int, a: int, b: int)
    requires Cong(a, b, P)
    ensures Cong(c * a, c * b, P)
  {
    CongRefl(c, P);
    CongMul(c, c, a, b, P);
  }

  lemma Square(a: int, b: int)
    requires Cong(a, b, P)
    ensures Cong(a * a, b * b, P)
  {
    CongMul(a, b, a, b, P);
  }

  // ----- doubling is the tangent law -----

  lemma SlopeTerm(x: int, z: int, a: int)
    ensures DoubleM(x, z) == 3 * (x * x) - 3 * (z * z * (z * z))
    ensures 3 * (AddU(a, z) * AddU(a, z)) - 3 * (z * z * (z * z)) == (3 * (a * a) - 3) * (z * z * (z * z))
  {
  }

  lemma SlopeScaled(l: int, y: int, z: int)
    ensures (l * (2 * y)) * (z * z * (z * z)) == l * (2 * AddS(y, z) * z)
  {
  }

  lemma DoubleZDef(y: int, z: int)
    ensures DoubleZ(y, z) == 2 * y * z
  {
  }

  // The slope of the tangent, times the new z.
  lemma DoubleMLaw(p: Jacobian, a: Affine, l: int)
    requires Scales(p, a) && Tangent(a, l)
    ensures Cong(DoubleM(p.x, p.z), l * DoubleZ(p.y, p.z), P)
  {
    hide Cong, DoubleM, AddU, AddS, DoubleZ;
    var x, y, z := p.x, p.y, p.z;
    var z4 := z * z * (z * z);
    SlopeTerm(x, z, a.x);
    Square(x, AddU(a.x, z));
    Times(3, x * x, AddU(a.x, z) * AddU(a.x, z));
    CongSub(3 * (x * x), 3 * (AddU(a.x, z) * AddU(a.x, z)), 3 * z4, 3 * z4, P) by { CongRefl(3 * z4, P); }
    CongMul(l * (2 * a.y), 3 * (a.x * a.x) - 3, z4, z4, P) by { CongRefl(z4, P); }
    CongSym(l * (2 * a.y) * z4, (3 * (a.x * a.x) - 3) * z4, P);
    CongTrans(DoubleM(x, z), (3 * (a.x * a.x) - 3) * z4, l * (2 * a.y) * z4, P);
    SlopeScaled(l, a.y, z);
    CongSym(y, AddS(a.y, z), P);
    Times(2, AddS(a.y, z), y);
    CongMul(2 * AddS(a.y, z), 2 * y, z, z, P) by { CongRefl(z, P); }
    Times(l, 2 * AddS(a.y, z) * z, 2 * y * z);
    DoubleZDef(y, z);
    CongTrans(DoubleM(x, z), l * (2 * AddS(a.y, z) * z), l * DoubleZ(y, z), P);
  }

  lemma ShiftTerm(x: int, y: int, z: int, a: int)
    ensures DoubleS(x, y) == 4 * (x * (y * y))
    ensures 4 * (AddU(a, z) * (y * y)) == AddU(a, DoubleZ(y, z))
  {
  }

  lemma DoubleSLaw(p: Jacobian, a: Affine)
    requires Scales(p, a)
    ensures Cong(DoubleS(p.x, p.y), AddU(a.x, DoubleZ(p.y, p.z)), P)
  {
    hide Cong, DoubleS, AddU, DoubleZ;
    var x, y, z := p.x, p.y, p.z;
    ShiftTerm(x, y, z, a.x);
    CongMul(x, AddU(a.x, z), y * y, y * y, P) by { CongRefl(y * y, P); }
    Times(4, x * (y * y), AddU(a.x, z) * (y * y));
  }

  lemma FourthPower(y: int, z: int, b: int)
    ensures 8 * (y * y * y) * AddS(b, z) == AddS(b, DoubleZ(y, z))
    ensures 8 * (y * y * y) * y == 8 * (y * y * (y * y))
  {
    CubeProduct(2 * y, z);
    assert 2 * y * (2 * y * (2 * y)) == 8 * (y * y * y);
    Swap3(8 * (y * y * y), b, z * (z * z));
  }

  lemma CubeProduct(t: int, z: int)
    ensures (t * z) * ((t * z) * (t * z)) == (t * (t * t)) * (z * (z * z))
  {
  }

  lemma SquareProduct(t: int, z: int)
    ensures (t * z) * (t * z) == (t * t) * (z * z)
  {
  }

  lemma Swap3(c: int, b: int, d: int)
    ensures c * (b * d) == b * (c * d)
  {
  }

  lemma DoubleFourLaw(p: Jacobian, a: Affine)
    requires Scales(p, a)
    ensures Cong(8 * ((p.y * p.y) * (p.y * p.y)), AddS(a.y, DoubleZ(p.y, p.z)), P)
  {
    hide Cong, AddS, DoubleZ;
    var y := p.y;
    FourthPower(y, p.z, a.y);
    Times(8 * (y * y * y), y, AddS(a.y, p.z));
  }

  // Results scaled by the new z, from the slope term m and the shift term s.
  lemma XScaled(l: int, z: int, a: int, b: int)
    ensures (l * z) * (l * z) - AddU(a, z) - AddU(b, z) == AddU(l * l - a - b, z)
  {
  }

  lemma YScaled(l: int, z: int, a: int, b: int, c: int)
    ensures (l * z) * (AddU(a, z) - AddU(c, z)) - AddS(b, z) == AddS(l * (a - c) - b, z)
  {
  }

  // The common end of both laws: with m, u, v and w the scaled slope, abscissas and
  // ordinate, m^2 - u - v and m (u - x) - w are the scaled coordinates of the result.
  lemma LineLaw(a: Affine, b: Affine, l: int, c: Affine, z: int, m: int, u: int, v: int, w: int, x: int)
    requires OnLine(a, b, l, c)
    requires Cong(m, l * z, P) && Cong(u, AddU(a.x, z), P) && Cong(v, AddU(b.x, z), P) && Cong(w, AddS(a.y, z), P)
    requires x == m * m - u - v
    ensures Cong(x, AddU(c.x, z), P)
    ensures Cong(m * (u - x) - w, AddS(c.y, z), P)
  {
    hide Cong, AddU, AddS;
    Square(m, l * z);
    CongSub(m * m, (l * z) * (l * z), u, AddU(a.x, z), P);
    CongSub(m * m - u, (l * z) * (l * z) - AddU(a.x, z), v, AddU(b.x, z), P);
    XScaled(l, z, a.x, b.x);
    UnderU(c.x, l * l - a.x - b.x, z);
    CongSym(AddU(c.x, z), AddU(l * l - a.x - b.x, z), P);
    CongTrans(x, AddU(l * l - a.x - b.x, z), AddU(c.x, z), P);
    CongSub(u, AddU(a.x, z), x, AddU(c.x, z), P);
    CongMul(m, l * z, u - x, AddU(a.x, z) - AddU(c.x, z), P);
    CongSub(m * (u - x), (l * z) * (AddU(a.x, z) - AddU(c.x, z)), w, AddS(a.y, z), P);
    YScaled(l, z, a.x, a.y, c.x);
    UnderS(c.y, l * (a.x - c.x) - a.y, z);
    CongSym(AddS(c.y, z), AddS(l * (a.x - c.x) - a.y, z), P);
    CongTrans(m * (u - x) - w, AddS(l * (a.x - c.x) - a.y, z), AddS(c.y, z), P);
  }

  lemma UnderU(a: int, b: int, z: int)
    requires Cong(a, b, P)
    ensures Cong(AddU(a, z), AddU(b, z), P)
  {
    hide Cong;
    CongRefl(z * z, P);
    CongMul(a, b, z * z, z * z, P);
  }

  lemma UnderS(a: int, b: int, z: int)
    requires Cong(a, b, P)
    ensures Cong(AddS(a, z), AddS(b, z), P)
  {
    hide Cong;
    CongRefl(z * (z * z), P);
    CongMul(a, b, z * (z * z), z * (z * z), P);
  }

  lemma DoubleParts(x: int, y: int, z: int)
    ensures DoubleX(x, y, z) == DoubleM(x, z) * DoubleM(x, z) - DoubleS(x, y) - DoubleS(x, y)
    ensures DoubleY(x, y, z) == DoubleM(x, z) * (DoubleS(x, y) - DoubleX(x, y, z)) - 8 * ((y * y) * (y * y))
  {
    hide DoubleM, DoubleS;
  }

  // point_double finds the second intersection with the tangent at the point.
  lemma TangentLaw(p: Jacobian, a: Affine, l: int, c: Affine)
    requires Scales(p, a) && Tangent(a, l) && OnLine(a, a, l, c)
    ensures Scales(Doubled(p), c)
  {
    hide Cong, DoubleM, DoubleS, DoubleX, DoubleY, DoubleZ, AddU, AddS, OnLine, Tangent;
    var z3 := DoubleZ(p.y, p.z);
    DoubleMLaw(p, a, l);
    DoubleSLaw(p, a);
    DoubleFourLaw(p, a);
    DoubleParts(p.x, p.y, p.z);
    var s := DoubleS(p.x, p.y);
    LineLaw(a, a, l, c, z3, DoubleM(p.x, p.z), s, s, 8 * ((p.y * p.y) * (p.y * p.y)), DoubleX(p.x, p.y, p.z));
  }

  // ----- addition is the chord law -----

  lemma Rescale(a: int, z: int, w: int)
    ensures AddU(AddU(a, z), w) == AddU(a, z * w) && AddS(AddS(a, z), w) == AddS(a, z * w)
  {
    SquareProduct(z, w);
    MulAssoc(a, z * z, w * w);
    CubeProduct(z, w);
    MulAssoc(a, z * (z * z), w * (w * w));
  }

  lemma ScaledTerms(p: Jacobian, a: Affine, w: int)
    requires Scales(p, a)
    ensures Cong(AddU(p.x, w), AddU(a.x, p.z * w), P)
    ensures Cong(AddS(p.y, w), AddS(a.y, p.z * w), P)
  {
    hide Cong, AddU, AddS;
    Rescale(a.x, p.z, w);
    Rescale(a.y, p.z, w);
    UnderU(p.x, AddU(a.x, p.z), w);
    UnderS(p.y, AddS(a.y, p.z), w);
  }

  lemma HDef(x1: int, z1: int, x2: int, z2: int, y1: int, y2: int)
    ensures AddH(x1, z1, x2, z2) == AddU(x2, z1) - AddU(x1, z2)
    ensures AddR(y1, z1, y2, z2) == 2 * (AddS(y2, z1) - AddS(y1, z2))
  {
    hide AddU, AddS;
  }

  lemma DiffTerms(a: int, b: int, w: int)
    ensures AddU(a, w) - AddU(b, w) == AddU(a - b, w) && AddS(a, w) - AddS(b, w) == AddS(a - b, w)
  {
  }

  // h and r are the differences of the coordinates at the common scale z1 z2.
  lemma AddHLaw(p: Jacobian, q: Jacobian, a: Affine, b: Affine)
    requires Scales(p, a) && Scales(q, b)
    ensures Cong(AddH(p.x, p.z, q.x, q.z), AddU(b.x - a.x, p.z * q.z), P)
    ensures Cong(AddR(p.y, p.z, q.y, q.z), 2 * AddS(b.y - a.y, p.z * q.z), P)
    ensures Cong(AddS(q.y, p.z) - AddS(p.y, q.z), AddS(b.y - a.y, p.z * q.z), P)
    ensures AddH(p.x, p.z, q.x, q.z) == AddU(q.x, p.z) - AddU(p.x, q.z)
    ensures Cong(AddU(p.x, q.z), AddU(a.x, p.z * q.z), P) && Cong(AddS(p.y, q.z), AddS(a.y, p.z * q.z), P)
  {
    hide Cong, AddU, AddS, AddH, AddR, Scales;
    var w := p.z * q.z;
    ScaledTerms(p, a, q.z);
    ScaledTerms(q, b, p.z);
    HDef(p.x, p.z, q.x, q.z, p.y, q.y);
    CongSub(AddU(q.x, p.z), AddU(b.x, w), AddU(p.x, q.z), AddU(a.x, w), P);
    CongSub(AddS(q.y, p.z), AddS(b.y, w), AddS(p.y, q.z), AddS(a.y, w), P);
    DiffTerms(b.x, a.x, w);
    DiffTerms(b.y, a.y, w);
    Times(2, AddS(q.y, p.z) - AddS(p.y, q.z), AddS(b.y - a.y, w));
  }

  lemma ChordSlope(l: int, d: int, w: int, h: int)
    ensures 2 * AddS(l * d, w) == l * (2 * w * AddU(d, w)) && 2 * w * h == AddZOf(w, h)
  {
  }

  // The new z from the common scale w.
  function AddZOf(w: int, h: int): (z: int) {
    2 * w * h
  }

  // r is the slope of the chord, times the new z.
  lemma AddRLaw(r: int, h: int, w: int, a: Affine, b: Affine, l: int)
    requires Slope(a, b, l)
    requires Cong(h, AddU(b.x - a.x, w), P) && Cong(r, 2 * AddS(b.y - a.y, w), P)
    ensures Cong(r, l * AddZOf(w, h), P)
  {
    hide Cong, AddU, AddS, AddZOf;
    var d := b.x - a.x;
    UnderS(l * d, b.y - a.y, w);
    CongSym(AddS(l * d, w), AddS(b.y - a.y, w), P);
    Times(2, AddS(b.y - a.y, w), AddS(l * d, w));
    CongTrans(r, 2 * AddS(b.y - a.y, w), 2 * AddS(l * d, w), P);
    ChordSlope(l, d, w, h);
    CongSym(h, AddU(d, w), P);
    Times(2 * w, AddU(d, w), h);
    Times(l, 2 * w * AddU(d, w), 2 * w * h);
    CongTrans(r, l * (2 * w * AddU(d, w)), l * AddZOf(w, h), P);
  }

  lemma ScaleI(a: int, w: int, h: int)
    ensures AddU(a, w) * AddI(h) == AddU(a, AddZOf(w, h))
    ensures 2 * (AddS(a, w) * (h * AddI(h))) == AddS(a, AddZOf(w, h))
  {
    var k := 2 * h;
    assert 2 * w * h == w * k;
    Rescale(a, w, k);
    assert 2 * (h * (k * k)) == k * (k * k);
    Twice(AddS(a, w), h * (k * k));
  }

  lemma Twice(a: int, b: int)
    ensures 2 * (a * b) == a * (2 * b)
  {
  }

  // Multiplying by i brings coordinates from the common scale to the new one.
  lemma AddILaw(u: int, s: int, h: int, w: int, a: Affine, d: int)
    requires Cong(u, AddU(a.x, w), P) && Cong(s, AddS(a.y, w), P) && Cong(h, AddU(d, w), P)
    ensures Cong(u * AddI(h), AddU(a.x, AddZOf(w, h)), P)
    ensures Cong(h * AddI(h), AddU(d, AddZOf(w, h)), P)
    ensures Cong(2 * (s * (h * AddI(h))), AddS(a.y, AddZOf(w, h)), P)
  {
    hide Cong, AddU, AddS, AddI, AddZOf;
    var i := AddI(h);
    ScaleI(a.x, w, h);
    ScaleI(d, w, h);
    ScaleI(a.y, w, h);
    CongRefl(i, P);
    CongMul(u, AddU(a.x, w), i, i, P);
    CongMul(h, AddU(d, w), i, i, P);
    CongRefl(h * i, P);
    CongMul(s, AddS(a.y, w), h * i, h * i, P);
    Times(2, s * (h * i), AddS(a.y, w) * (h * i));
  }

  lemma AddParts(u1: int, s1: int, h: int, r: int, z1: int, z2: int)
    ensures AddX(u1, h, r) == r * r - u1 * AddI(h) - (h * AddI(h) + u1 * AddI(h))
    ensures AddY(u1, s1, h, r) == r * (u1 * AddI(h) - AddX(u1, h, r)) - 2 * (s1 * (h * AddI(h)))
    ensures AddZ(z1, z2, h) == AddZOf(z1 * z2, h)
  {
    hide AddI;
  }

  // point_add and point_add_mixed find the third intersection with the chord.
  lemma ChordLaw(p: Jacobian, q: Jacobian, a: Affine, b: Affine, l: int, c: Affine)
    requires Scales(p, a) && Scales(q, b) && Slope(a, b, l) && OnLine(a, b, l, c)
    ensures Scales(Added(p, q), c)
  {
    hide Cong, AddU, AddS, AddH, AddR, AddI, AddX, AddY, AddZ, AddZOf, OnLine, Slope;
    var w := p.z * q.z;
    var u1, s1 := AddU(p.x, q.z), AddS(p.y, q.z);
    var h, r := AddH(p.x, p.z, q.x, q.z), AddR(p.y, p.z, q.y, q.z);
    var i, z3, d := AddI(h), AddZOf(w, h), b.x - a.x;
    AddHLaw(p, q, a, b);
    AddRLaw(r, h, w, a, b, l);
    AddILaw(u1, s1, h, w, a, d);
    AddParts(u1, s1, h, r, p.z, q.z);
    CongAdd(h * i, AddU(d, z3), u1 * i, AddU(a.x, z3), P);
    DiffTerms(b.x, a.x, z3);
    LineLaw(a, b, l, c, z3, r, u1 * i, h * i + u1 * i, 2 * (s1 * (h * i)), AddX(u1, h, r));
  }

  // ----- invertible z -----

  lemma UnitProduct(a: int, b: int)
    requires Unit(a) && Unit(b)
    ensures Unit(a * b)
  {
    hide Cong;
    var i: int :| Inverse(a, i, P);
    var j: int :| Inverse(b, j, P);
    CongMul(a * i, 1, b * j, 1, P);
    FourFactors(a, i, b, j);
    assert Inverse(a * b, i * j, P);
  }

  lemma FourFactors(a: int, i: int, b: int, j: int)
    ensures (a * i) * (b * j) == (a * b) * (i * j)
  {
  }

  lemma UnitCong(a: int, b: int)
    requires Unit(a) && Cong(a, b, P)
    ensures Unit(b)
  {
    hide Cong;
    var i: int :| Inverse(a, i, P);
    CongSym(a, b, P);
    CongMul(b, a, i, i, P) by { CongRefl(i, P); }
    CongTrans(b * i, a * i, 1, P);
    assert Inverse(b, i, P);
  }

  lemma UnitTwo()
    ensures Unit(2)
  {
    hide Cong;
    CongIntro(2 * ((P + 1) / 2), 1, 1, P);
    assert Inverse(2, (P + 1) / 2, P);
  }

  // Doubling keeps z invertible when the ordinate is.
  lemma DoubleRepresents(p: Jacobian, a: Affine, l: int, c: Affine)
    requires Reps(p, a) && Unit(a.y) && Tangent(a, l) && OnLine(a, a, l, c)
    ensures Reps(Doubled(p), c)
  {
    hide Cong, Scales, Unit, Tangent, OnLine, AddS, AddU, DoubleX, DoubleY, DoubleZ;
    TangentLaw(p, a, l, c);
    ScalesDef(p, a);
    var z := p.z;
    UnitProduct(z, z);
    UnitProduct(z, z * z);
    UnitProduct(a.y, z * (z * z));
    AddSDef(a.y, z);
    CongSym(p.y, AddS(a.y, z), P);
    UnitCong(AddS(a.y, z), p.y);
    UnitTwo();
    UnitProduct(2, p.y);
    UnitProduct(2 * p.y, z);
    DoubleZDef(p.y, z);
  }

  lemma ScalesDef(p: Jacobian, a: Affine)
    requires Scales(p, a)
    ensures Cong(p.x, AddU(a.x, p.z), P) && Cong(p.y, AddS(a.y, p.z), P)
  {
  }

  lemma AddSDef(y: int, z: int)
    ensures AddS(y, z) == y * (z * (z * z)) && AddU(y, z) == y * (z * z)
  {
  }

  // Adding keeps z invertible when the abscissas differ by a unit.
  lemma AddRepresents(p: Jacobian, q: Jacobian, a: Affine, b: Affine, l: int, c: Affine)
    requires Reps(p, a) && Reps(q, b) && Unit(b.x - a.x) && Slope(a, b, l) && OnLine(a, b, l, c)
    ensures Reps(Added(p, q), c)
  {
    hide Cong, Scales, Unit, Slope, OnLine, AddS, AddU, AddH, AddR, AddX, AddY, AddZ;
    ChordLaw(p, q, a, b, l, c);
    AddHLaw(p, q, a, b);
    var w, d, h := p.z * q.z, b.x - a.x, AddH(p.x, p.z, q.x, q.z);
    UnitProduct(p.z, q.z);
    UnitProduct(w, w);
    UnitProduct(d, w * w);
    AddSDef(d, w);
    CongSym(h, AddU(d, w), P);
    UnitCong(AddU(d, w), h);
    UnitTwo();
    UnitProduct(2, w);
    UnitProduct(2 * w, h);
    AddZDef(p.z, q.z, h);
  }

  lemma AddZDef(z1: int, z2: int, h: int)
    ensures AddZ(z1, z2, h) == 2 * (z1 * z2) * h
  {
  }
}
