/** p256_ec.c: scalar_mult, four bits at a time over a table of small multiples. */
module Window {
  import opened Arith
  import opened BigNum
  import opened Bits
  import opened P256Int
  import opened Felem
  import opened Residue
  import opened Curve
  import opened Points
  import opened Select
  import opened Group
  import opened Scalar

  // ----- the bits of a window -----

  // The bits of the scalar above position 256 - i: what the accumulator holds.
  function WindowValue(v: nat, i: nat): (k: nat)
    requires i <= 256
  {
    PowPositive(256 - i);
    DivPositive(v, Pow(2, 256 - i));
    v / Pow(2, 256 - i)
  }

  lemma DivPositive(v: nat, p: int)
    requires p > 0
    ensures v / p >= 0
  {
  }

  function WindowIndex(s: seq<Word>, i: nat): (index: Word)
    requires |s| == 8 && i <= 252
    ensures index < 16
  {
    var b3, b2, b1, b0 := GetBit(s, 255 - i), GetBit(s, 254 - i), GetBit(s, 253 - i), GetBit(s, 252 - i);
    OrBits(b0, b1, b2, b3);
    Or(Or(Or(b3 * 8, b2 * 4), b1 * 2), b0)
  }

  // One more bit of the scalar.
  lemma NextBit(s: seq<Word>, i: nat)
    requires |s| == 8 && i < 256
    ensures WindowValue(Val(s), i + 1) == 2 * WindowValue(Val(s), i) + GetBit(s, 255 - i)
  {
    hide Pow, Val, GetBit;
    GetBitValue(s, 255 - i);
    PowPositive(256 - i);
    PowPositive(255 - i);
    PowAdd(2, 255 - i, 1);
    OneBit();
    DivTwice(Val(s), Pow(2, 255 - i), 2);
  }

  // A window shifts the accumulator by four bits and adds the index.
  lemma NextWindow(s: seq<Word>, i: nat)
    requires |s| == 8 && i <= 252
    ensures WindowValue(Val(s), i + 4) == 16 * WindowValue(Val(s), i) + WindowIndex(s, i)
  {
    hide WindowValue, Val, GetBit, Or;
    NextBit(s, i);
    NextBit(s, i + 1);
    NextBit(s, i + 2);
    NextBit(s, i + 3);
    OrBits(GetBit(s, 252 - i), GetBit(s, 253 - i), GetBit(s, 254 - i), GetBit(s, 255 - i));
  }

  lemma WindowEnds(s: seq<Word>)
    requires |s| == 8
    ensures WindowValue(Val(s), 0) == 0 && WindowValue(Val(s), 256) == Val(s)
  {
    hide Val, BPow, Pow;
    ValBound(s);
    BPowIsPow(8);
    DivModUnique(Val(s), 0, Val(s), Pow(2, 256));
    assert Pow(2, 0) == 1 by { NoBits(); }
  }

  lemma NoBits()
    ensures Pow(2, 0) == 1
  {
  }

  lemma WindowBelow(v: nat, i: nat)
    requires i <= 256
    ensures WindowValue(v, i) <= v
  {
    hide Pow;
    var p := Pow(2, 256 - i);
    PowPositive(256 - i);
    MulMono(1, p, v / p);
    assert v == (v / p) * p + v % p;
  }

  // The window's additions never meet the same or the opposite point.
  lemma WindowApart(s: seq<Word>, i: nat, n: nat)
    requires |s| == 8 && i <= 252 && Val(s) < n
    ensures Apart(16 * WindowValue(Val(s), i), WindowIndex(s, i), n)
  {
    hide WindowValue, WindowIndex, Val;
    NextWindow(s, i);
    WindowBelow(Val(s), i + 4);
  }

  // ----- the table of multiples -----

  // Entry j of the flat table, three coordinates of nine limbs.
  ghost predicate EntryHolds(table: seq<Word>, j: nat, a: Affine) {
    |table| == 432 && j < 16 && Holds(Limbs(table, 27 * j), Limbs(table, 27 * j + 9), Limbs(table, 27 * j + 18), a)
  }

  // The entries 1 to m - 1 hold the multiples of the point.
  ghost predicate Filled(table: seq<Word>, m: nat, g: int -> Affine) {
    |table| == 432 && m <= 16 && forall j :: 0 < j < m ==> EntryHolds(table, j, g(j))
  }

  method LoadLimbs(table: array<Word>, at: nat) returns (out: array<Word>)
    requires at + 9 <= table.Length
    ensures fresh(out) && out.Length == 9 && out[..] == Limbs(table[..], at)
  {
    out := new Word[9](i requires 0 <= i < 9 reads table => table[at + i]);
  }

  method StoreLimbs(table: array<Word>, at: nat, src: array<Word>)
    requires at + 9 <= table.Length && src.Length == 9 && src != table
    modifies table
    ensures Limbs(table[..], at) == src[..]
    ensures forall k: nat :: k + 9 <= table.Length && (k + 9 <= at || at + 9 <= k) ==> Limbs(table[..], k) == old(Limbs(table[..], k))
  {
    ghost var t := table[..];
    forall i | 0 <= i < 9 {
      table[at + i] := src[i];
    }
    forall k: nat | k + 9 <= table.Length && (k + 9 <= at || at + 9 <= k)
      ensures Limbs(table[..], k) == Limbs(t, k)
    {
      assert forall i :: 0 <= i < 9 ==> Limbs(table[..], k)[i] == Limbs(t, k)[i];
    }
  }

  // Writes one entry and leaves the others alone.
  method StorePoint(table: array<Word>, j: nat, x: array<Word>, y: array<Word>, z: array<Word>, ghost g: int -> Affine)
    requires table.Length == 432 && 0 < j < 16 && x.Length == y.Length == z.Length == 9 && table !in {x, y, z}
    requires Filled(table[..], j, g) && Holds(x[..], y[..], z[..], g(j))
    modifies table
    ensures Filled(table[..], j + 1, g)
  {
    hide Holds;
    ghost var t := table[..];
    StoreLimbs(table, 27 * j, x);
    StoreLimbs(table, 27 * j + 9, y);
    StoreLimbs(table, 27 * j + 18, z);
    ghost var u := table[..];
    forall k | 0 < k < j
      ensures EntryHolds(u, k, g(k))
    {
      assert EntryHolds(t, k, g(k));
    }
  }

  lemma EntryParts(table: seq<Word>, m: nat, g: int -> Affine, j: nat)
    requires Filled(table, m, g) && 0 < j < m
    ensures |table| == 432
    ensures Holds(Limbs(table, 27 * j), Limbs(table, 27 * j + 9), Limbs(table, 27 * j + 18), g(j))
  {
    hide Holds;
    assert EntryHolds(table, j, g(j));
  }

  lemma HoldsParts(x: seq<Word>, y: seq<Word>, z: seq<Word>, a: Affine)
    requires Holds(x, y, z, a)
    ensures Ok(x) && Ok(y) && Ok(z) && Reps(Jacobian(Res(x), Res(y), Res(z)), a)
  {
  }

  // Twice entry j.
  method DoubleEntry(table: array<Word>, j: nat, ghost g: int -> Affine, ghost n: nat)
    returns (x: array<Word>, y: array<Word>, z: array<Word>)
    requires table.Length == 432 && 0 < j < 8 && CyclicGroup(g, n) && Filled(table[..], 2 * j, g)
    ensures fresh(x) && fresh(y) && fresh(z) && x.Length == y.Length == z.Length == 9
    ensures Holds(x[..], y[..], z[..], g(2 * j))
  {
    hide CyclicGroup, Filled, Ok, Res, Reps, Zero, Stands, Doubled, Holds;
    EntryParts(table[..], 2 * j, g, j);
    ghost var t := table[..];
    var x1 := LoadLimbs(table, 27 * j);
    var y1 := LoadLimbs(table, 27 * j + 9);
    var z1 := LoadLimbs(table, 27 * j + 18);
    assert table[..] == t;
    x, y, z := new Word[9](i => 0), new Word[9](i => 0), new Word[9](i => 0);
    ghost var p := Jacobian(Res(x1[..]), Res(y1[..]), Res(z1[..]));
    HoldsParts(x1[..], y1[..], z1[..], g(j));
    OwnResidues(x1[..], y1[..], z1[..]);
    PointDouble(x, y, z, x1, y1, z1, p);
    OrderBound(g, n);
    BelowOrder(j, n);
    DoubleHolds(x[..], y[..], z[..], p, g, n, j);
  }

  // A multiple plus the point itself.
  method NextMultiple(x1: array<Word>, y1: array<Word>, z1: array<Word>, px: array<Word>, py: array<Word>,
                      ghost j: nat, ghost g: int -> Affine, ghost n: nat)
    returns (x: array<Word>, y: array<Word>, z: array<Word>)
    requires x1.Length == y1.Length == z1.Length == px.Length == py.Length == 9
    requires CyclicGroup(g, n) && 1 < j < 16 && Holds(x1[..], y1[..], z1[..], g(j)) && AffineIs(px[..], py[..], g(1))
    ensures fresh(x) && fresh(y) && fresh(z) && x.Length == y.Length == z.Length == 9
    ensures Holds(x[..], y[..], z[..], g(j + 1))
  {
    hide CyclicGroup, Ok, Res, Reps, Zero, Stands, Added, Holds, Is;
    x, y, z := new Word[9](i => 0), new Word[9](i => 0), new Word[9](i => 0);
    ghost var p := Jacobian(Res(x1[..]), Res(y1[..]), Res(z1[..]));
    HoldsParts(x1[..], y1[..], z1[..], g(j));
    OwnResidues(x1[..], y1[..], z1[..]);
    AffineHolds(px[..], py[..], g(1));
    PointAddMixed(x, y, z, x1, y1, z1, px, py, p, g(1).x, g(1).y);
    OrderBound(g, n);
    BelowOrder(j, n);
    BelowOrder(1, n);
    BelowOrder(j - 1, n);
    BelowOrder(j + 1, n);
    AddHolds(x[..], y[..], z[..], p, Jacobian(g(1).x, g(1).y, 1), g, n, j, 1);
  }

  // The multiples 1 to 15 of the point.
  method FillTable(px: array<Word>, py: array<Word>, ghost g: int -> Affine, ghost n: nat) returns (table: array<Word>)
    requires px.Length == py.Length == 9 && CyclicGroup(g, n) && AffineIs(px[..], py[..], g(1))
    ensures fresh(table) && table.Length == 432 && Filled(table[..], 16, g)
  {
    hide CyclicGroup, Holds, AffineIs, Filled;
    ghost var vx, vy := px[..], py[..];
    table := new Word[432](i => 0);
    var one := new Word[9](i requires 0 <= i < 9 => KONE[i]);
    assert one[..] == KONE;
    AffineHolds(px[..], py[..], g(1));
    FilledStart(table[..], g);
    StorePoint(table, 1, px, py, one, g);
    var i := 2;
    while i < 16
      invariant 2 <= i <= 16 && i % 2 == 0 && px[..] == vx && py[..] == vy
      invariant Filled(table[..], i, g)
    {
      var x2, y2, z2 := DoubleEntry(table, i / 2, g, n);
      StorePoint(table, i, x2, y2, z2, g);
      var x3, y3, z3 := NextMultiple(x2, y2, z2, px, py, i, g, n);
      StorePoint(table, i + 1, x3, y3, z3, g);
      assert px[..] == vx && py[..] == vy;
      i := i + 2;
    }
  }

  lemma FilledStart(table: seq<Word>, g: int -> Affine)
    requires |table| == 432
    ensures Filled(table, 1, g)
  {
  }

  // ----- the multiplication -----

  lemma SelectedPoint(table: seq<Word>, index: Word, g: int -> Affine)
    requires Filled(table, 16, g) && index < 16
    ensures |table| == 432
    ensures var x, y, z := Chosen(table, 27, 27, index, true), Chosen(table, 36, 27, index, true), Chosen(table, 45, 27, index, true);
            && Ok(x) && Ok(y) && Ok(z) && (index != 0 ==> Holds(x, y, z, g(index as int)))
            && (index == 0 ==> x == ZEROS && y == ZEROS)
  {
    hide Reps, Ok, Limbs;
    ZerosStand();
    if index != 0 {
      EntryParts(table, 16, g, index);
    }
  }

  // The sum of the accumulator and a point of the table.
  method AddStep(nx: array<Word>, ny: array<Word>, nz: array<Word>, px: array<Word>, py: array<Word>, pz: array<Word>,
                 inf: Word, index: Word, ghost g: int -> Affine, ghost n: nat, ghost k: int)
    returns (tx: array<Word>, ty: array<Word>, tz: array<Word>)
    requires nx.Length == ny.Length == nz.Length == px.Length == py.Length == pz.Length == 9
    requires CyclicGroup(g, n) && Tracks(nx[..], ny[..], nz[..], inf, g, n, k) && Apart(k, index, n)
    requires Ok(px[..]) && Ok(py[..]) && Ok(pz[..]) && (index != 0 ==> Holds(px[..], py[..], pz[..], g(index as int)))
    ensures fresh(tx) && fresh(ty) && fresh(tz) && tx.Length == ty.Length == tz.Length == 9
    ensures inf == 0 && index != 0 ==> Holds(tx[..], ty[..], tz[..], g(k + index))
  {
    hide CyclicGroup, Stands, Ok, Res, Reps, Zero, Added, Apart;
    tx, ty, tz := new Word[9](i => 0), new Word[9](i => 0), new Word[9](i => 0);
    ghost var p := Jacobian(Res(nx[..]), Res(ny[..]), Res(nz[..]));
    ghost var q := Jacobian(Res(px[..]), Res(py[..]), Res(pz[..]));
    OwnResidues(nx[..], ny[..], nz[..]);
    OwnResidues(px[..], py[..], pz[..]);
    PointAdd(tx, ty, tz, nx, ny, nz, px, py, pz, p, q);
    if inf == 0 && index != 0 {
      ApartOperands(k, index, n);
      AddHolds(tx[..], ty[..], tz[..], p, q, g, n, k, index);
    }
  }

  // Selects a multiple and adds it to the accumulator.
  method WindowStep(nx: array<Word>, ny: array<Word>, nz: array<Word>, inf: Word, table: seq<Word>, index: Word,
                    ghost g: int -> Affine, ghost n: nat, ghost k: int)
    returns (next: Word)
    requires nx.Length == ny.Length == nz.Length == 9 && nx != ny && nx != nz && ny != nz
    requires CyclicGroup(g, n) && Filled(table, 16, g) && index < 16
    requires Tracks(nx[..], ny[..], nz[..], inf, g, n, k) && Apart(k, index, n)
    modifies nx, ny, nz
    ensures Tracks(nx[..], ny[..], nz[..], next, g, n, k + index)
    ensures next == ONES ==> nx[..] == ZEROS && ny[..] == ZEROS
  {
    hide CyclicGroup, Holds, Ok, Apart, Tracks, Filled;
    SelectedPoint(table, index, g);
    TracksMask(nx[..], ny[..], nz[..], inf, g, n, k);
    var px, py, pz := new Word[9](i => 0), new Word[9](i => 0), new Word[9](i => 0);
    SelectJacobianPoint(px, py, pz, table, index);
    var tx, ty, tz := AddStep(nx, ny, nz, px, py, pz, inf, index, g, n, k);
    ApartSum(k, index, n);
    next := MergePoint(nx, ny, nz, px, py, pz, tx, ty, tz, inf, index, g, n, k, index);
  }

  // Four doublings.
  method FourDoublings(nx: array<Word>, ny: array<Word>, nz: array<Word>, inf: Word,
                       ghost g: int -> Affine, ghost n: nat, ghost k: nat)
    requires nx.Length == ny.Length == nz.Length == 9 && nx != ny && nx != nz && ny != nz
    requires CyclicGroup(g, n) && 16 * k < n && Tracks(nx[..], ny[..], nz[..], inf, g, n, k)
    modifies nx, ny, nz
    ensures Tracks(nx[..], ny[..], nz[..], inf, g, n, 16 * k)
  {
    hide CyclicGroup, Tracks;
    DoubleStep(nx, ny, nz, inf, g, n, k);
    DoubleStep(nx, ny, nz, inf, g, n, 2 * k);
    DoubleStep(nx, ny, nz, inf, g, n, 4 * k);
    DoubleStep(nx, ny, nz, inf, g, n, 8 * k);
  }

  // The scalar's multiple of a point, for every scalar below the group order.
  method ScalarMult(nx: array<Word>, ny: array<Word>, nz: array<Word>, x: array<Word>, y: array<Word>, scalar: array<Word>,
                    ghost g: int -> Affine, ghost n: nat)
    requires nx.Length == ny.Length == nz.Length == x.Length == y.Length == 9 && nx != ny && nx != nz && ny != nz
    requires scalar.Length == 8 && scalar !in {nx, ny, nz}
    requires CyclicGroup(g, n) && AffineIs(x[..], y[..], g(1)) && Val(scalar[..]) < n
    modifies nx, ny, nz
    ensures Val(scalar[..]) > 0 ==> Holds(nx[..], ny[..], nz[..], g(Val(scalar[..])))
    ensures Val(scalar[..]) == 0 ==> nx[..] == ZEROS && ny[..] == ZEROS && Ok(nz[..])
  {
    hide CyclicGroup, AffineIs, Filled, Holds, Ok, WindowValue, WindowIndex, Val, Tracks, Apart;
    ghost var s := scalar[..];
    var precomp := FillTable(x, y, g, n);
    var table := precomp[..];
    ClearLimbs(nx);
    ClearLimbs(ny);
    ClearLimbs(nz);
    assert scalar[..] == s;
    WindowEnds(s);
    StartsAtInfinity(g, n);
    var inf: Word := ONES;
    var i := 0;
    while i < 256
      invariant 0 <= i <= 256 && i % 4 == 0 && scalar[..] == s
      invariant Tracks(nx[..], ny[..], nz[..], inf, g, n, WindowValue(Val(s), i))
      invariant i > 0 && inf == ONES ==> nx[..] == ZEROS && ny[..] == ZEROS
    {
      ghost var k := WindowValue(Val(s), i);
      WindowApart(s, i, n);
      ApartSum(16 * k, WindowIndex(s, i), n);
      if i > 0 {
        FourDoublings(nx, ny, nz, inf, g, n, k);
      }
      assert scalar[..] == s;
      NextWindow(s, i);
      inf := WindowStep(nx, ny, nz, inf, table, WindowIndex(scalar[..], i), g, n, 16 * k);
      assert scalar[..] == s;
      i := i + 4;
    }
    TracksEnds(nx[..], ny[..], nz[..], inf, g, n, Val(s));
  }
}
