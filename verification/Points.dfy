/** p256_ec.c: point_double, point_add_mixed, point_add and point_add_or_double_vartime. */
module Points {
  import opened Arith
  import opened BigNum
  import opened Felem
  import opened Residue
  import opened FelemLinear
  import opened FelemProduct
  import opened FelemZero
  import opened Curve

  // A field element within the bounds that stands for v.
  predicate Elem(s: seq<Word>, v: int) {
    Ok(s) && Is(s, v)
  }

  predicate Stands(x: seq<Word>, y: seq<Word>, z: seq<Word>, p: Jacobian) {
    Elem(x, p.x) && Elem(y, p.y) && Elem(z, p.z)
  }

  // The field operations on elements that stand for known integers.
  method Sum(out: array<Word>, a: array<Word>, b: array<Word>, ghost v: int, ghost w: int)
    requires out.Length == a.Length == b.Length == 9 && Elem(a[..], v) && Elem(b[..], w)
    modifies out
    ensures Elem(out[..], v + w)
  {
    hide Is, Loose, Res;
    ghost var x, y := a[..], b[..];
    FelemSum(out, a, b);
    SumIs(out[..], x, y, v, w);
  }

  method Diff(out: array<Word>, a: array<Word>, b: array<Word>, ghost v: int, ghost w: int)
    requires out.Length == a.Length == b.Length == 9 && Elem(a[..], v) && Elem(b[..], w)
    modifies out
    ensures Elem(out[..], v - w)
  {
    hide Is, Loose, Res;
    ghost var x, y := a[..], b[..];
    FelemDiff(out, a, b);
    DiffIs(out[..], x, y, v, w);
  }

  method Mul(out: array<Word>, a: array<Word>, b: array<Word>, ghost v: int, ghost w: int)
    requires out.Length == a.Length == b.Length == 9 && Elem(a[..], v) && Elem(b[..], w)
    modifies out
    ensures Elem(out[..], v * w)
  {
    hide Is, Loose, Res;
    ghost var x, y := a[..], b[..];
    FelemMul(out, a, b);
    ProductIs(out[..], x, y, v, w);
  }

  method Sqr(out: array<Word>, a: array<Word>, ghost v: int)
    requires out.Length == a.Length == 9 && Elem(a[..], v)
    modifies out
    ensures Elem(out[..], v * v)
  {
    hide Is, Loose, Res;
    ghost var x := a[..];
    FelemSquare(out, a);
    ProductIs(out[..], x, x, v, v);
  }

  method Scale(out: array<Word>, c: int, ghost v: int)
    requires out.Length == 9 && c in {3, 4, 8} && Elem(out[..], v)
    modifies out
    ensures Elem(out[..], c * v)
  {
    hide Is, Loose, Res;
    ghost var x := out[..];
    if c == 3 {
      FelemScalar3(out);
    } else if c == 4 {
      FelemScalar4(out);
    } else {
      FelemScalar8(out);
    }
    ScaleIs(out[..], c, x, v);
  }

  // out = (a + b)^2 - a^2 - b^2.
  method CrossTerm(out: array<Word>, a: array<Word>, b: array<Word>, aa: array<Word>, bb: array<Word>, ghost v: int, ghost w: int)
    requires out.Length == a.Length == b.Length == aa.Length == bb.Length == 9
    requires Elem(a[..], v) && Elem(b[..], w) && Elem(aa[..], v * v) && Elem(bb[..], w * w)
    modifies out
    ensures Elem(out[..], DoubleZ(v, w))
  {
    hide Elem, DoubleZ;
    ghost var vv, ww := v * v, w * w;
    ghost var t := (v + w) * (v + w);
    var tmp := new Word[9](i => 0);
    Sum(tmp, a, b, v, w);
    Sqr(tmp, tmp, v + w);
    Diff(tmp, tmp, aa, t, vv);
    Diff(out, tmp, bb, t - vv, ww);
    DoubleTermsDef(0, v, w);
  }

  // ----- doubling -----

  lemma DoubleTermsDef(x: int, y: int, z: int)
    ensures 3 * ((x + z * z) * (x - z * z)) == DoubleM(x, z)
    ensures 4 * (x * (y * y)) == DoubleS(x, y)
    ensures (y + z) * (y + z) - y * y - z * z == DoubleZ(y, z)
  {
  }

  // alpha = 3 (x - z^2) (x + z^2).
  method DoubleSlope(x: array<Word>, delta: array<Word>, ghost v: int, ghost z: int) returns (alpha: array<Word>)
    requires x.Length == delta.Length == 9 && Elem(x[..], v) && Elem(delta[..], z * z)
    ensures fresh(alpha) && alpha.Length == 9 && Elem(alpha[..], DoubleM(v, z))
  {
    hide Elem, DoubleM;
    ghost var zz := z * z;
    var tmp, tmp2 := new Word[9](i => 0), new Word[9](i => 0);
    Sum(tmp, x, delta, v, zz);
    Diff(tmp2, x, delta, v, zz);
    alpha := new Word[9](i => 0);
    Mul(alpha, tmp, tmp2, v + zz, v - zz);
    Scale(alpha, 3, (v + zz) * (v - zz));
    DoubleTermsDef(v, 0, z);
  }

  method DoubleLast(x_out: array<Word>, y_out: array<Word>, alpha: array<Word>, beta: array<Word>, gamma: array<Word>,
                    ghost x: int, ghost y: int, ghost z: int)
    requires x_out.Length == y_out.Length == alpha.Length == beta.Length == gamma.Length == 9
    requires x_out != y_out && beta != alpha && beta != gamma
    requires x_out !in {alpha, beta, gamma} && y_out !in {alpha, beta, gamma}
    requires Elem(alpha[..], DoubleM(x, z)) && Elem(beta[..], x * (y * y)) && Elem(gamma[..], y * y)
    modifies x_out, y_out, beta
    ensures Elem(x_out[..], DoubleX(x, y, z)) && Elem(y_out[..], DoubleY(x, y, z))
  {
    hide Elem, DoubleM, DoubleS, DoubleX, DoubleY;
    ghost var m, s, yy := DoubleM(x, z), DoubleS(x, y), y * y;
    DoubleTermsDef(x, y, z);
    DoubleParts(x, y, z);
    Scale(beta, 4, x * yy);
    Sqr(x_out, alpha, m);
    Diff(x_out, x_out, beta, m * m, s);
    Diff(x_out, x_out, beta, m * m - s, s);
    var tmp, tmp2 := new Word[9](i => 0), new Word[9](i => 0);
    ghost var x3 := DoubleX(x, y, z);
    Diff(tmp, beta, x_out, s, x3);
    Mul(tmp, alpha, tmp, m, s - x3);
    Sqr(tmp2, gamma, yy);
    Scale(tmp2, 8, yy * yy);
    Diff(y_out, tmp, tmp2, m * (s - x3), 8 * (yy * yy));
  }

  // Twice a point, where the outputs may be the inputs.
  method PointDouble(x_out: array<Word>, y_out: array<Word>, z_out: array<Word>,
                     x: array<Word>, y: array<Word>, z: array<Word>, ghost p: Jacobian)
    requires x_out.Length == y_out.Length == z_out.Length == x.Length == y.Length == z.Length == 9
    requires x_out != y_out && x_out != z_out && y_out != z_out
    requires Stands(x[..], y[..], z[..], p)
    modifies x_out, y_out, z_out
    ensures Stands(x_out[..], y_out[..], z_out[..], Doubled(p))
  {
    hide Elem, DoubleM, DoubleX, DoubleY, DoubleZ;
    ghost var zz, yy := p.z * p.z, p.y * p.y;
    var delta, gamma, beta := new Word[9](i => 0), new Word[9](i => 0), new Word[9](i => 0);
    Sqr(delta, z, p.z);
    Sqr(gamma, y, p.y);
    Mul(beta, x, gamma, p.x, yy);
    var alpha := DoubleSlope(x, delta, p.x, p.z);
    CrossTerm(z_out, y, z, gamma, delta, p.y, p.z);
    DoubleLast(x_out, y_out, alpha, beta, gamma, p.x, p.y, p.z);
  }

  // ----- addition -----

  // The common end of the additions, from u1, s1, h, half of r and z_out / h.
  method AddLast(x_out: array<Word>, y_out: array<Word>, z_out: array<Word>, u1: array<Word>, s1: array<Word>,
                 h: array<Word>, r: array<Word>, tmp: array<Word>,
                 ghost u: int, ghost s: int, ghost d: int, ghost e: int, ghost t: int)
    requires x_out.Length == y_out.Length == z_out.Length == u1.Length == s1.Length == h.Length == r.Length == tmp.Length == 9
    requires x_out != y_out && x_out != z_out && y_out != z_out
    requires s1 !in {x_out, y_out, z_out, r, tmp} && h !in {x_out, y_out, z_out, r, tmp}
    requires r !in {x_out, y_out, z_out, tmp, u1} && tmp !in {x_out, y_out, z_out}
    requires Elem(u1[..], u) && Elem(s1[..], s) && Elem(h[..], d) && Elem(r[..], e) && Elem(tmp[..], t)
    modifies x_out, y_out, z_out, r, tmp
    ensures Elem(x_out[..], AddX(u, d, 2 * e)) && Elem(y_out[..], AddY(u, s, d, 2 * e)) && Elem(z_out[..], t * d)
  {
    hide Elem, AddX, AddY;
    ghost var i, f := AddI(d), 2 * e;
    var j, v := AddScales(u1, h, u, d);
    Sum(r, r, r, e, e);
    Mul(z_out, tmp, h, t, d);
    AddOutX(x_out, r, j, v, f, d * i, u * i);
    AddParts(u, s, d, f, 0, 0);
    ghost var x3 := AddX(u, d, f);
    Diff(tmp, v, x_out, u * i, x3);
    Mul(y_out, tmp, r, u * i - x3, f);
    Mul(tmp, s1, j, s, d * i);
    Diff(y_out, y_out, tmp, (u * i - x3) * f, s * (d * i));
    Diff(y_out, y_out, tmp, (u * i - x3) * f - s * (d * i), s * (d * i));
  }

  // j = h i and v = u1 i.
  method AddScales(u1: array<Word>, h: array<Word>, ghost u: int, ghost d: int) returns (j: array<Word>, v: array<Word>)
    requires u1.Length == h.Length == 9 && Elem(u1[..], u) && Elem(h[..], d)
    ensures fresh(j) && fresh(v) && j.Length == v.Length == 9
    ensures Elem(j[..], d * AddI(d)) && Elem(v[..], u * AddI(d))
  {
    hide Elem;
    var i := new Word[9](k => 0);
    Sum(i, h, h, d, d);
    Sqr(i, i, d + d);
    assert (d + d) * (d + d) == AddI(d);
    j, v := new Word[9](k => 0), new Word[9](k => 0);
    Mul(j, h, i, d, AddI(d));
    Mul(v, u1, i, u, AddI(d));
  }

  // x_out = r^2 - j - 2v.
  method AddOutX(x_out: array<Word>, r: array<Word>, j: array<Word>, v: array<Word>, ghost f: int, ghost k: int, ghost w: int)
    requires x_out.Length == r.Length == j.Length == v.Length == 9 && x_out != v
    requires Elem(r[..], f) && Elem(j[..], k) && Elem(v[..], w)
    modifies x_out
    ensures Elem(x_out[..], f * f - k - 2 * w)
  {
    hide Elem;
    var rr := new Word[9](i => 0);
    Sqr(rr, r, f);
    Diff(x_out, rr, j, f * f, k);
    Diff(x_out, x_out, v, f * f - k, w);
    Diff(x_out, x_out, v, f * f - k - w, w);
  }

  // The second point's coordinates at the scale of the first: x2 z1^2 and y2 z1^3.
  method Rescaled(x: array<Word>, y: array<Word>, z: array<Word>, zz: array<Word>, ghost v: int, ghost w: int, ghost t: int)
    returns (u: array<Word>, s: array<Word>)
    requires x.Length == y.Length == z.Length == zz.Length == 9
    requires Elem(x[..], v) && Elem(y[..], w) && Elem(z[..], t) && Elem(zz[..], t * t)
    ensures fresh(u) && fresh(s) && u != s && u.Length == s.Length == 9
    ensures Elem(u[..], AddU(v, t)) && Elem(s[..], AddS(w, t))
  {
    hide Elem;
    u, s := new Word[9](i => 0), new Word[9](i => 0);
    var zzz := new Word[9](i => 0);
    Mul(u, x, zz, v, t * t);
    Mul(zzz, z, zz, t, t * t);
    Mul(s, y, zzz, w, t * (t * t));
  }

  // h and half of r.
  method Differences(u2: array<Word>, u1: array<Word>, s2: array<Word>, s1: array<Word>,
                     ghost a: int, ghost b: int, ghost c: int, ghost d: int)
    returns (h: array<Word>, r: array<Word>)
    requires u2.Length == u1.Length == s2.Length == s1.Length == 9
    requires Elem(u2[..], a) && Elem(u1[..], b) && Elem(s2[..], c) && Elem(s1[..], d)
    ensures fresh(h) && fresh(r) && h != r && h.Length == r.Length == 9
    ensures Elem(h[..], a - b) && Elem(r[..], c - d)
  {
    hide Elem;
    h, r := new Word[9](i => 0), new Word[9](i => 0);
    Diff(h, u2, u1, a, b);
    Diff(r, s2, s1, c, d);
  }

  lemma MixedParts(p: Jacobian, x2: int, y2: int)
    ensures var q := Jacobian(x2, y2, 1);
            && AddU(p.x, 1) == p.x && AddS(p.y, 1) == p.y
            && AddU(x2, p.z) - p.x == AddH(p.x, p.z, x2, 1) && 2 * (AddS(y2, p.z) - p.y) == AddR(p.y, p.z, y2, 1)
            && (p.z + p.z) * AddH(p.x, p.z, x2, 1) == AddZ(p.z, 1, AddH(p.x, p.z, x2, 1))
  {
    hide AddH, AddU;
    MixedH(p.x, p.z, x2);
    var h := AddH(p.x, p.z, x2, 1);
    assert 2 * (p.z * 1) == p.z + p.z;
  }

  lemma MixedH(x1: int, z1: int, x2: int)
    ensures AddU(x1, 1) == x1 && AddH(x1, z1, x2, 1) == AddU(x2, z1) - x1
  {
  }

  // A point plus an affine point.
  method PointAddMixed(x_out: array<Word>, y_out: array<Word>, z_out: array<Word>,
                       x1: array<Word>, y1: array<Word>, z1: array<Word>, x2: array<Word>, y2: array<Word>,
                       ghost p: Jacobian, ghost vx: int, ghost vy: int)
    requires x_out.Length == y_out.Length == z_out.Length == x1.Length == y1.Length == z1.Length == x2.Length == y2.Length == 9
    requires x_out != y_out && x_out != z_out && y_out != z_out && y1 !in {x_out, y_out, z_out}
    requires Stands(x1[..], y1[..], z1[..], p) && Elem(x2[..], vx) && Elem(y2[..], vy)
    modifies x_out, y_out, z_out
    ensures Stands(x_out[..], y_out[..], z_out[..], Added(p, Jacobian(vx, vy, 1)))
  {
    hide Elem, AddU, AddS, AddH, AddR, AddX, AddY, AddZ;
    ghost var u, s := AddU(vx, p.z), AddS(vy, p.z);
    MixedParts(p, vx, vy);
    var z1z1, tmp := new Word[9](i => 0), new Word[9](i => 0);
    Sqr(z1z1, z1, p.z);
    Sum(tmp, z1, z1, p.z, p.z);
    var u2, s2 := Rescaled(x2, y2, z1, z1z1, vx, vy, p.z);
    var h, r := Differences(u2, x1, s2, y1, u, p.x, s, p.y);
    AddLast(x_out, y_out, z_out, x1, y1, h, r, tmp, p.x, p.y, u - p.x, s - p.y, p.z + p.z);
  }

  lemma FullParts(z1: int, z2: int, h: int)
    ensures DoubleZ(z1, z2) * h == AddZ(z1, z2, h)
  {
  }

  // u1, s1, h, half of r and 2 z1 z2 for two Jacobian points.
  method AddTerms(x1: array<Word>, y1: array<Word>, z1: array<Word>, x2: array<Word>, y2: array<Word>, z2: array<Word>,
                  ghost p: Jacobian, ghost q: Jacobian)
    returns (u1: array<Word>, s1: array<Word>, h: array<Word>, r: array<Word>, tmp: array<Word>)
    requires x1.Length == y1.Length == z1.Length == x2.Length == y2.Length == z2.Length == 9
    requires Stands(x1[..], y1[..], z1[..], p) && Stands(x2[..], y2[..], z2[..], q)
    ensures fresh(u1) && fresh(s1) && fresh(h) && fresh(r) && fresh(tmp)
    ensures u1.Length == s1.Length == h.Length == r.Length == tmp.Length == 9
    ensures r != s1 && r != h && tmp != s1 && tmp != h && r != u1 && r != tmp
    ensures Elem(u1[..], AddU(p.x, q.z)) && Elem(s1[..], AddS(p.y, q.z)) && Elem(tmp[..], DoubleZ(p.z, q.z))
    ensures Elem(h[..], AddU(q.x, p.z) - AddU(p.x, q.z)) && Elem(r[..], AddS(q.y, p.z) - AddS(p.y, q.z))
  {
    hide Elem, AddU, AddS, DoubleZ;
    ghost var a, b := p.z, q.z;
    var z1z1, z2z2 := new Word[9](i => 0), new Word[9](i => 0);
    Sqr(z1z1, z1, a);
    Sqr(z2z2, z2, b);
    var u2, s2 := Rescaled(x2, y2, z1, z1z1, q.x, q.y, a);
    u1, s1 := Rescaled(x1, y1, z2, z2z2, p.x, p.y, b);
    tmp := new Word[9](i => 0);
    CrossTerm(tmp, z1, z2, z1z1, z2z2, a, b);
    h, r := Differences(u2, u1, s2, s1, AddU(q.x, a), AddU(p.x, b), AddS(q.y, a), AddS(p.y, b));
  }

  // The sum of two points, where the outputs may be inputs.
  method PointAdd(x_out: array<Word>, y_out: array<Word>, z_out: array<Word>,
                  x1: array<Word>, y1: array<Word>, z1: array<Word>, x2: array<Word>, y2: array<Word>, z2: array<Word>,
                  ghost p: Jacobian, ghost q: Jacobian)
    requires x_out.Length == y_out.Length == z_out.Length == 9
    requires x1.Length == y1.Length == z1.Length == x2.Length == y2.Length == z2.Length == 9
    requires x_out != y_out && x_out != z_out && y_out != z_out
    requires Stands(x1[..], y1[..], z1[..], p) && Stands(x2[..], y2[..], z2[..], q)
    modifies x_out, y_out, z_out
    ensures Stands(x_out[..], y_out[..], z_out[..], Added(p, q))
  {
    hide Elem, AddU, AddS, AddX, AddY, AddZ, DoubleZ;
    var u1, s1, h, r, tmp := AddTerms(x1, y1, z1, x2, y2, z2, p, q);
    ghost var u, s := AddU(p.x, q.z), AddS(p.y, q.z);
    ghost var d, e := AddU(q.x, p.z) - u, AddS(q.y, p.z) - s;
    FullParts(p.z, q.z, d);
    AddLast(x_out, y_out, z_out, u1, s1, h, r, tmp, u, s, d, e, DoubleZ(p.z, q.z));
  }

  // ----- addition or doubling -----

  // The points have the same affine coordinates, so the chord formulas do not apply.
  predicate Coincide(p: Jacobian, q: Jacobian) {
    && (AddU(q.x, p.z) - AddU(p.x, q.z)) % P == 0
    && (AddS(q.y, p.z) - AddS(p.y, q.z)) % P == 0
  }

  method ElemIsZero(s: array<Word>, ghost v: int) returns (zero: bool)
    requires s.Length == 9 && Elem(s[..], v)
    ensures zero <==> v % P == 0
  {
    hide Loose, Res;
    zero := FelemIsZeroVartime(s);
    ZeroResidue(s[..], v);
  }

  lemma ZeroResidue(s: seq<Word>, v: int)
    requires Is(s, v)
    ensures Res(s) == 0 <==> v % P == 0
  {
    hide Res;
    CongReduced(Res(s), v, P);
  }

  // The sum of two points that may be the same, where the outputs may be inputs.
  method PointAddOrDoubleVartime(x_out: array<Word>, y_out: array<Word>, z_out: array<Word>,
                                 x1: array<Word>, y1: array<Word>, z1: array<Word>,
                                 x2: array<Word>, y2: array<Word>, z2: array<Word>,
                                 ghost p: Jacobian, ghost q: Jacobian)
    requires x_out.Length == y_out.Length == z_out.Length == 9
    requires x1.Length == y1.Length == z1.Length == x2.Length == y2.Length == z2.Length == 9
    requires x_out != y_out && x_out != z_out && y_out != z_out
    requires Stands(x1[..], y1[..], z1[..], p) && Stands(x2[..], y2[..], z2[..], q)
    modifies x_out, y_out, z_out
    ensures Stands(x_out[..], y_out[..], z_out[..], if Coincide(p, q) then Doubled(p) else Added(p, q))
  {
    hide Elem, AddU, AddS, AddX, AddY, AddZ, DoubleZ, Doubled;
    var u1, s1, h, r, tmp := AddTerms(x1, y1, z1, x2, y2, z2, p, q);
    ghost var u, s := AddU(p.x, q.z), AddS(p.y, q.z);
    ghost var d, e := AddU(q.x, p.z) - u, AddS(q.y, p.z) - s;
    var x_equal := ElemIsZero(h, d);
    var y_equal := ElemIsZero(r, e);
    if x_equal && y_equal {
      PointDouble(x_out, y_out, z_out, x1, y1, z1, p);
      return;
    }
    FullParts(p.z, q.z, d);
    AddLast(x_out, y_out, z_out, u1, s1, h, r, tmp, u, s, d, e, DoubleZ(p.z, q.z));
  }
}
