/** p256_ec.c: point_to_affine, p256_base_point_mul and p256_points_mul_vartime, from the
    digits of the scalars to the digits of the affine result. */
module PointMul {
  import opened Arith
  import opened BigNum
  import opened P256Compare
  import opened Felem
  import opened Residue
  import opened FelemProduct
  import opened FelemPower
  import opened Curve
  import opened Points
  import opened Select
  import opened Group
  import opened Scalar
  import opened Comb
  import opened Window
  import opened Montgomery

  // ----- back to affine coordinates -----

  // The coordinate that point_to_affine computes, with the inverse as a power of z.
  function AffineX(x: int, z: int): (r: nat) {
    var i := PowP(z, P - 2);
    MulP(x, MulP(i, i))
  }

  function AffineY(y: int, z: int): (r: nat) {
    var i := PowP(z, P - 2);
    MulP(y, MulP(i, MulP(i, i)))
  }

  method PointToAffine(x_out: array<Word>, y_out: array<Word>, nx: array<Word>, ny: array<Word>, nz: array<Word>)
    requires x_out.Length == y_out.Length == nx.Length == ny.Length == nz.Length == 9
    requires x_out != y_out && x_out != ny
    requires Ok(nx[..]) && Ok(ny[..]) && Ok(nz[..])
    modifies x_out, y_out
    ensures Ok(x_out[..]) && Fv(x_out[..]) < RR && Res(x_out[..]) == AffineX(old(Res(nx[..])), old(Res(nz[..])))
    ensures Ok(y_out[..]) && Fv(y_out[..]) < RR && Res(y_out[..]) == AffineY(old(Res(ny[..])), old(Res(nz[..])))
  {
    hide Fv, Loose, Unscaled, MulP, PowP;
    var z_inv, z_inv_sq := new Word[9](i => 0), new Word[9](i => 0);
    FelemInv(z_inv, nz);
    FelemSquare(z_inv_sq, z_inv);
    FelemMul(x_out, nx, z_inv_sq);
    FelemMul(z_inv, z_inv, z_inv_sq);
    FelemMul(y_out, ny, z_inv);
  }

  lemma MulPCong(a: int, b: int, v: int, w: int)
    requires Cong(a, v, P) && Cong(b, w, P)
    ensures Cong(MulP(a, b), v * w, P)
  {
    hide Cong;
    CongMod(a * b, P);
    CongMul(a, v, b, w, P);
    CongTrans(MulP(a, b), a * b, v * w, P);
  }

  lemma MulPRange(a: int, b: int)
    ensures 0 <= MulP(a, b) < P
  {
  }

  // Scaling by the inverse of z gives back the affine coordinates.
  lemma Unscale(p: Jacobian, a: Affine, i: int)
    requires Scales(p, a) && Cong(p.z * i, 1, P)
    ensures Cong(p.x * (i * i), a.x, P) && Cong(p.y * (i * (i * i)), a.y, P)
  {
    hide Cong, Scales, AddU, AddS;
    ScalesDef(p, a);
    AddSDef(p.y, i);
    AddSDef(p.x, i);
    UnderU(p.x, AddU(a.x, p.z), i);
    UnderS(p.y, AddS(a.y, p.z), i);
    Rescale(a.x, p.z, i);
    Rescale(a.y, p.z, i);
    ScaleCong(a, p.z * i, 1);
    AtOne(a);
    CongTrans(AddU(p.x, i), AddU(a.x, p.z * i), a.x, P);
    CongTrans(AddS(p.y, i), AddS(a.y, p.z * i), a.y, P);
  }

  lemma AtOne(a: Affine)
    ensures AddU(a.x, 1) == a.x && AddS(a.y, 1) == a.y
  {
  }

  // A finite point comes back with its canonical affine coordinates.
  lemma AffineFinite(x: nat, y: nat, z: nat, a: Affine)
    requires Fermat() && z < P && Reps(Jacobian(x, y, z), a)
    ensures AffineX(x, z) == a.x % P && AffineY(y, z) == a.y % P
  {
    hide Cong, PowP, MulP, Scales, Unit, Fermat;
    var p := Jacobian(x, y, z);
    var i := PowP(z, P - 2);
    UnitNonzero(z);
    ZeroMod();
    PowerInverts(z);
    InverseCong(z, i);
    Unscale(p, a, i);
    CongRefl(i, P);
    CongRefl(x, P);
    CongRefl(y, P);
    MulPCong(i, i, i, i);
    MulPCong(i, MulP(i, i), i, i * i);
    MulPCong(x, MulP(i, i), x, i * i);
    MulPCong(y, MulP(i, MulP(i, i)), y, i * (i * i));
    CongTrans(AffineX(x, z), x * (i * i), a.x, P);
    CongTrans(AffineY(y, z), y * (i * (i * i)), a.y, P);
    MulPRange(x, MulP(i, i));
    MulPRange(y, MulP(i, MulP(i, i)));
    CongReduced(AffineX(x, z), a.x, P);
    CongReduced(AffineY(y, z), a.y, P);
  }

  lemma ZeroMod()
    ensures 0 % P == 0
  {
  }

  lemma InverseCong(z: int, i: int)
    requires MulP(z, i) == 1
    ensures Cong(z * i, 1, P)
  {
  }

  // The point at infinity comes back as (0, 0), in both forms in which it occurs.
  ghost predicate Infinite(x: seq<Word>, y: seq<Word>, z: seq<Word>) {
    Res(z) == 0 || (Res(x) == 0 && Res(y) == 0)
  }

  lemma AffineInfinite(x: int, y: int, z: int)
    requires Fermat() && (z == 0 || (x == 0 && y == 0))
    ensures AffineX(x, z) == 0 && AffineY(y, z) == 0
  {
    hide PowP, Fermat;
    if z == 0 {
      PowerInverts(0);
      MulPZero(0);
      MulPZero(x);
      MulPZero(y);
    } else {
      var i := PowP(z, P - 2);
      MulPZero(MulP(i, i));
      MulPZero(MulP(i, MulP(i, i)));
    }
  }

  lemma MulPZero(a: int)
    ensures MulP(0, a) == 0 && MulP(a, 0) == 0
  {
  }

  // ----- results -----

  // Jacobian limbs hold k times the generator, or one of the forms of infinity.
  ghost predicate HoldsMultiple(x: seq<Word>, y: seq<Word>, z: seq<Word>, g: int -> Affine, n: nat, k: int)
    requires n > 0
  {
    && Ok(x) && Ok(y) && Ok(z)
    && (if Zero(k, n) then Infinite(x, y, z) else Holds(x, y, z, g(k)))
  }

  // Digits hold the affine coordinates of k times the generator, (0, 0) for infinity.
  ghost predicate IsMultiple(x: int, y: int, g: int -> Affine, n: nat, k: int)
    requires n > 0
  {
    if Zero(k, n) then x == 0 && y == 0 else x == g(k).x % P && y == g(k).y % P
  }

  lemma MultipleAffine(x: seq<Word>, y: seq<Word>, z: seq<Word>, g: int -> Affine, n: nat, k: int)
    requires Fermat() && n > 0 && HoldsMultiple(x, y, z, g, n, k)
    ensures IsMultiple(AffineX(Res(x), Res(z)), AffineY(Res(y), Res(z)), g, n, k)
  {
    hide Ok, Zero, Reps, AffineX, AffineY, Fermat, Unscaled;
    if Zero(k, n) {
      AffineInfinite(Res(x), Res(y), Res(z));
    } else {
      AffineFinite(Res(x), Res(y), Res(z), g(k));
    }
  }

  lemma OkNonNegative(x: seq<Word>)
    requires Ok(x) && Fv(x) < RR
    ensures Loose(x) && MergeExact(x)
  {
    hide Fv, MergeExact;
    FvNonNegative(x);
    BelowMerges(x);
  }

  // Converts a Jacobian result to affine digits.
  method ToDigits(x: array<Word>, y: array<Word>, z: array<Word>, out_x: array<Word>, out_y: array<Word>,
                  ghost g: int -> Affine, ghost n: nat, ghost k: int)
    requires x.Length == y.Length == z.Length == 9 && out_x.Length == out_y.Length == 8 && out_x != out_y
    requires Fermat() && n > 0 && HoldsMultiple(x[..], y[..], z[..], g, n, k)
    modifies out_x, out_y
    ensures IsMultiple(Val(out_x[..]), Val(out_y[..]), g, n, k)
  {
    hide Fv, Val, Loose, Res, MergeExact, Zero, Infinite, Holds, AffineX, AffineY, Fermat, IsMultiple;
    var px, py := new Word[9](i => 0), new Word[9](i => 0);
    MultipleAffine(x[..], y[..], z[..], g, n, k);
    PointToAffine(px, py, x, y, z);
    OkNonNegative(px[..]);
    OkNonNegative(py[..]);
    FromMontgomery(out_x, px);
    FromMontgomery(out_y, py);
  }

  lemma OrderPositive(g: int -> Affine, n: nat)
    requires CyclicGroup(g, n)
    ensures n > 0
  {
  }

  // What both scalar multiplications leave, for a scalar below the order.
  lemma ScalarResult(x: seq<Word>, y: seq<Word>, z: seq<Word>, g: int -> Affine, n: nat, k: nat)
    requires 0 < n && k < n
    requires k > 0 ==> Holds(x, y, z, g(k))
    requires k == 0 ==> x == ZEROS && y == ZEROS && Ok(z)
    ensures HoldsMultiple(x, y, z, g, n, k)
  {
    hide Ok, Reps, Res, Zero;
    ZerosStand();
    if k > 0 {
      BelowOrder(k, n);
    } else {
      ZeroMultiple(n);
    }
  }

  lemma ZeroMultiple(n: nat)
    requires n > 0
    ensures Zero(0, n)
  {
    DivModUnique(0, 0, 0, n);
  }

  // The affine coordinates of n times the base point, for every scalar below the order.
  method BasePointMul(scalar: array<Word>, out_x: array<Word>, out_y: array<Word>, table: seq<Word>,
                      ghost g: int -> Affine, ghost n: nat)
    requires scalar.Length == out_x.Length == out_y.Length == 8 && out_x != out_y
    requires Fermat() && CyclicGroup(g, n) && CombTable(table, g) && Val(scalar[..]) < n
    modifies out_x, out_y
    ensures n > 0 && IsMultiple(Val(out_x[..]), Val(out_y[..]), g, n, old(Val(scalar[..])))
  {
    hide Val, Fermat, CyclicGroup, CombTable, Holds, HoldsMultiple, IsMultiple, Ok;
    var x, y, z := new Word[9](i => 0), new Word[9](i => 0), new Word[9](i => 0);
    OrderPositive(g, n);
    OneOk();
    ScalarBaseMult(x, y, z, scalar, table, g, n);
    ScalarResult(x[..], y[..], z[..], g, n, Val(scalar[..]));
    ToDigits(x, y, z, out_x, out_y, g, n, Val(scalar[..]));
  }

  // ----- the double multiplication -----

  lemma SumSame(x: seq<Word>, y: seq<Word>, z: seq<Word>, p: Jacobian, q: Jacobian, g: int -> Affine, n: nat, j: int, k: int)
    requires CyclicGroup(g, n) && n > 0 && !Zero(j, n) && Zero(j - k, n) && Reps(p, g(j)) && Reps(q, g(k))
    requires Stands(x, y, z, if Coincide(p, q) then Doubled(p) else Added(p, q))
    ensures HoldsMultiple(x, y, z, g, n, j + k)
  {
    hide CyclicGroup, Zero, Stands, Scales, Unit, Coincide, Doubled, Added, Holds;
    GroupPeriodic(g, n, j, k);
    SameCoincide(p, q, g(j));
    DoubleHolds(x, y, z, p, g, n, j);
    TwiceZero(j, k, n) by { OrderBound(g, n); }
    GroupPeriodic(g, n, 2 * j, j + k);
    HoldsParts(x, y, z, g(j + k));
  }

  // Twice a point is finite in a group of odd order.
  lemma TwiceZero(j: int, k: int, n: nat)
    requires n > 0 && n % 2 == 1 && !Zero(j, n) && Zero(j - k, n)
    ensures Zero(2 * j - (j + k), n) && !Zero(j + k, n)
  {
    hide Inverse;
    if Zero(j + k, n) {
      ZeroIsCong(j + k, n);
      ZeroIsCong(j - k, n);
      CongAdd(j + k, 0, j - k, 0, n);
      ZeroIsCong(2 * j, n);
      OddHalf(n);
      ZeroProduct(2, j, n);
    }
  }

  lemma OddHalf(n: nat)
    requires n % 2 == 1
    ensures exists i: int :: Inverse(2, i, n)
  {
    CongIntro(2 * ((n + 1) / 2), 1, 1, n);
    assert Inverse(2, (n + 1) / 2, n);
  }

  lemma SumOpposite(x: seq<Word>, y: seq<Word>, z: seq<Word>, p: Jacobian, q: Jacobian, g: int -> Affine, n: nat, j: int, k: int)
    requires CyclicGroup(g, n) && n > 0 && !Zero(j, n) && Zero(j + k, n) && Reps(p, g(j)) && Reps(q, g(k))
    requires Stands(x, y, z, if Coincide(p, q) then Doubled(p) else Added(p, q))
    ensures HoldsMultiple(x, y, z, g, n, j + k)
  {
    hide CyclicGroup, Zero, Elem, Reps, Coincide, Doubled, Added, Holds, Unit, Opposite;
    GroupOpposite(g, n, j, k);
    GroupDoubles(g, n, j);
    OppositeCancel(p, q, g(j), g(k));
    ElemResidue(z, Added(p, q).z);
    StandsParts(x, y, z, Added(p, q));
  }

  lemma ElemResidue(s: seq<Word>, v: int)
    requires Elem(s, v)
    ensures Res(s) == 0 <==> v % P == 0
  {
    hide Res;
    ZeroResidue(s, v);
  }

  lemma SumChord(x: seq<Word>, y: seq<Word>, z: seq<Word>, p: Jacobian, q: Jacobian, g: int -> Affine, n: nat, j: int, k: int)
    requires CyclicGroup(g, n) && n > 0 && !Zero(j, n) && !Zero(k, n) && !Zero(j - k, n) && !Zero(j + k, n)
    requires Reps(p, g(j)) && Reps(q, g(k))
    requires Stands(x, y, z, if Coincide(p, q) then Doubled(p) else Added(p, q))
    ensures HoldsMultiple(x, y, z, g, n, j + k)
  {
    hide CyclicGroup, Zero, Stands, Scales, Doubled, Added, Holds, Unit, Slope, OnLine, Cong, AddU, AddS, AddH, AddR;
    GroupAdds(g, n, j, k);
    AddHLaw(p, q, g(j), g(k));
    UnitProduct(p.z, q.z);
    ApartDiffer(AddH(p.x, p.z, q.x, q.z), g(k).x - g(j).x, p.z * q.z);
    assert !Coincide(p, q);
    AddHolds(x, y, z, p, q, g, n, j, k);
    HoldsParts(x, y, z, g(j + k));
  }

  // The general addition is right for all finite operands, with an infinite sum too.
  lemma SumHolds(x: seq<Word>, y: seq<Word>, z: seq<Word>, p: Jacobian, q: Jacobian, g: int -> Affine, n: nat, j: int, k: int)
    requires CyclicGroup(g, n) && n > 0 && !Zero(j, n) && !Zero(k, n) && Reps(p, g(j)) && Reps(q, g(k))
    requires Stands(x, y, z, if Coincide(p, q) then Doubled(p) else Added(p, q))
    ensures HoldsMultiple(x, y, z, g, n, j + k)
  {
    hide CyclicGroup, Zero, Stands, Reps, Coincide, Doubled, Added, HoldsMultiple;
    if Zero(j - k, n) {
      SumSame(x, y, z, p, q, g, n, j, k);
    } else if Zero(j + k, n) {
      SumOpposite(x, y, z, p, q, g, n, j, k);
    } else {
      SumChord(x, y, z, p, q, g, n, j, k);
    }
  }

  // (x1, y1, z1) += (x2, y2, z2) for two finite points.
  method AddPoints(x1: array<Word>, y1: array<Word>, z1: array<Word>, x2: array<Word>, y2: array<Word>, z2: array<Word>,
                   ghost g: int -> Affine, ghost n: nat, ghost j: int, ghost k: int)
    requires x1.Length == y1.Length == z1.Length == x2.Length == y2.Length == z2.Length == 9
    requires x1 != y1 && x1 != z1 && y1 != z1
    requires CyclicGroup(g, n) && n > 0 && !Zero(j, n) && !Zero(k, n)
    requires Holds(x1[..], y1[..], z1[..], g(j)) && Holds(x2[..], y2[..], z2[..], g(k))
    modifies x1, y1, z1
    ensures HoldsMultiple(x1[..], y1[..], z1[..], g, n, j + k)
  {
    hide CyclicGroup, Zero, Stands, Reps, Res, Ok, HoldsMultiple, Coincide, Doubled, Added, Holds;
    ghost var p := Jacobian(Res(x1[..]), Res(y1[..]), Res(z1[..]));
    ghost var q := Jacobian(Res(x2[..]), Res(y2[..]), Res(z2[..]));
    HoldsParts(x1[..], y1[..], z1[..], g(j));
    HoldsParts(x2[..], y2[..], z2[..], g(k));
    OwnResidues(x1[..], y1[..], z1[..]);
    OwnResidues(x2[..], y2[..], z2[..]);
    PointAddOrDoubleVartime(x1, y1, z1, x1, y1, z1, x2, y2, z2, p, q);
    SumHolds(x1[..], y1[..], z1[..], p, q, g, n, j, k);
  }

  // The input point in Montgomery form.
  method LoadPoint(in_x: array<Word>, in_y: array<Word>, ghost a: Affine) returns (px: array<Word>, py: array<Word>)
    requires in_x.Length == 8 == in_y.Length
    requires Cong(Val(in_x[..]), a.x, P) && Cong(Val(in_y[..]), a.y, P)
    ensures fresh(px) && fresh(py) && px.Length == py.Length == 9 && AffineIs(px[..], py[..], a)
  {
    hide Val, Normal, Ok, Res, Cong;
    px, py := new Word[9](i => 0), new Word[9](i => 0);
    ghost var vx, vy := Val(in_x[..]), Val(in_y[..]);
    ToMontgomery(px, in_x);
    ToMontgomery(py, in_y);
    CongMod(vx, P);
    CongMod(vy, P);
    CongTrans(Res(px[..]), vx, a.x, P);
    CongTrans(Res(py[..]), vy, a.y, P);
  }

  // n1 G + n2 Q.
  function Combined(k1: nat, k2: nat, q: int): (k: int) {
    k1 + q * k2
  }

  lemma CombinedParts(k1: nat, k2: nat, q: int)
    ensures Combined(k1, 0, q) == k1 && Combined(0, k2, q) == q * k2 && Combined(0, 0, q) == 0
    ensures Combined(k1, k2, q) == k1 + q * k2
  {
  }

  // The second scalar's multiple of the input point is one of the generator too.
  lemma MultipleOfMultiple(x: seq<Word>, y: seq<Word>, z: seq<Word>, g: int -> Affine, n: nat, q: int, k: nat)
    requires CyclicGroup(g, n) && n > 0 && Invertible(q, n) && 0 < k < n && Holds(x, y, z, Multiples(g, q)(k))
    ensures !Zero(q * k, n) && Holds(x, y, z, g(q * k)) && HoldsMultiple(x, y, z, g, n, q * k)
  {
    hide CyclicGroup, Zero, Reps, Ok, Res, Inverse;
    BelowOrder(k, n);
    ZeroProduct(q, k, n);
  }

  // The sum of the two multiples in Jacobian form, when they are not both infinite.
  method CombineResults(x1: array<Word>, y1: array<Word>, z1: array<Word>, x2: array<Word>, y2: array<Word>, z2: array<Word>,
                        zero1: bool, zero2: bool, ghost g: int -> Affine, ghost n: nat, ghost q: int, ghost k1: nat, ghost k2: nat)
    requires x1.Length == y1.Length == z1.Length == x2.Length == y2.Length == z2.Length == 9
    requires x1 != y1 && x1 != z1 && y1 != z1 && x1 !in {y2, z2} && y1 != z2
    requires CyclicGroup(g, n) && n > 0 && Invertible(q, n) && k1 < n && k2 < n
    requires (zero1 <==> k1 == 0) && (zero2 <==> k2 == 0) && !(zero1 && zero2)
    requires k1 > 0 ==> Holds(x1[..], y1[..], z1[..], g(k1))
    requires k2 > 0 ==> Holds(x2[..], y2[..], z2[..], Multiples(g, q)(k2))
    modifies x1, y1, z1
    ensures HoldsMultiple(x1[..], y1[..], z1[..], g, n, Combined(k1, k2, q))
  {
    hide CyclicGroup, Zero, Holds, HoldsMultiple, Multiples, Combined, Invertible;
    CombinedParts(k1, k2, q);
    if zero2 {
      ScalarResult(x1[..], y1[..], z1[..], g, n, k1);
      return;
    }
    MultipleOfMultiple(x2[..], y2[..], z2[..], g, n, q, k2);
    if zero1 {
      FelemAssign(x1, x2);
      FelemAssign(y1, y2);
      FelemAssign(z1, z2);
    } else {
      BelowOrder(k1, n);
      AddPoints(x1, y1, z1, x2, y2, z2, g, n, k1, q * k2);
    }
  }

  method ClearDigits(a: array<Word>)
    requires a.Length == 8
    modifies a
    ensures Val(a[..]) == 0
  {
    forall k | 0 <= k < 8 {
      a[k] := 0;
    }
    ValZeros(a[..]);
  }

  // The affine coordinates of n1 G + n2 Q, for a point Q = q G that generates the group;
  // an infinite sum comes out as (0, 0).
  method PointsMulVartime(n1: array<Word>, n2: array<Word>, in_x: array<Word>, in_y: array<Word>,
                          out_x: array<Word>, out_y: array<Word>, table: seq<Word>,
                          ghost g: int -> Affine, ghost n: nat, ghost q: int)
    requires n1.Length == n2.Length == in_x.Length == in_y.Length == out_x.Length == out_y.Length == 8 && out_x != out_y
    requires Fermat() && CyclicGroup(g, n) && n > 0 && Invertible(q, n) && CombTable(table, g)
    requires Val(n1[..]) < n && Val(n2[..]) < n
    requires Cong(Val(in_x[..]), g(q).x, P) && Cong(Val(in_y[..]), g(q).y, P)
    modifies out_x, out_y
    ensures IsMultiple(Val(out_x[..]), Val(out_y[..]), g, n, Combined(old(Val(n1[..])), old(Val(n2[..])), q))
  {
    hide Val, Fermat, CyclicGroup, CombTable, Holds, HoldsMultiple, IsMultiple, Multiples, Combined, Invertible, Ok, AffineIs, Cong;
    ghost var k1, k2 := Val(n1[..]), Val(n2[..]);
    CombinedParts(k1, k2, q);
    var zero1 := IsZero(n1);
    var zero2 := IsZero(n2);
    if zero1 && zero2 {
      ClearDigits(out_x);
      ClearDigits(out_y);
      InfiniteDigits(g, n);
      return;
    }
    var x1, y1, z1, x2, y2, z2 := MultiplyBoth(n1, n2, in_x, in_y, table, g, n, q);
    CombineResults(x1, y1, z1, x2, y2, z2, zero1, zero2, g, n, q, k1, k2);
    ToDigits(x1, y1, z1, out_x, out_y, g, n, Combined(k1, k2, q));
  }

  lemma InfiniteDigits(g: int -> Affine, n: nat)
    requires n > 0
    ensures IsMultiple(0, 0, g, n, 0)
  {
    ZeroMultiple(n);
  }

  // Both scalar multiplications.
  method MultiplyBoth(n1: array<Word>, n2: array<Word>, in_x: array<Word>, in_y: array<Word>, table: seq<Word>,
                      ghost g: int -> Affine, ghost n: nat, ghost q: int)
    returns (x1: array<Word>, y1: array<Word>, z1: array<Word>, x2: array<Word>, y2: array<Word>, z2: array<Word>)
    requires n1.Length == n2.Length == in_x.Length == in_y.Length == 8
    requires CyclicGroup(g, n) && n > 0 && Invertible(q, n) && CombTable(table, g)
    requires Val(n1[..]) < n && Val(n2[..]) < n
    requires Cong(Val(in_x[..]), g(q).x, P) && Cong(Val(in_y[..]), g(q).y, P)
    ensures fresh(x1) && fresh(y1) && fresh(z1) && x1.Length == y1.Length == z1.Length == 9
    ensures fresh(x2) && fresh(y2) && fresh(z2) && x2.Length == y2.Length == z2.Length == 9
    ensures x1 != y1 && x1 != z1 && y1 != z1 && x1 !in {x2, y2, z2} && y1 !in {x2, y2, z2} && z1 !in {x2, y2, z2}
    ensures Val(n1[..]) > 0 ==> Holds(x1[..], y1[..], z1[..], g(Val(n1[..])))
    ensures Val(n2[..]) > 0 ==> Holds(x2[..], y2[..], z2[..], Multiples(g, q)(Val(n2[..])))
  {
    hide Val, CyclicGroup, CombTable, Holds, Multiples, Invertible, Ok, AffineIs, Cong;
    MultiplesGroup(g, n, q);
    MultiplesOne(g, q);
    var px, py := LoadPoint(in_x, in_y, g(q));
    x1, y1, z1 := new Word[9](i => 0), new Word[9](i => 0), new Word[9](i => 0);
    ScalarBaseMult(x1, y1, z1, n1, table, g, n);
    x2, y2, z2 := new Word[9](i => 0), new Word[9](i => 0), new Word[9](i => 0);
    ScalarMult(x2, y2, z2, px, py, n2, Multiples(g, q), n);
  }

  lemma MultiplesOne(g: int -> Affine, q: int)
    ensures Multiples(g, q)(1) == g(q)
  {
  }
}
