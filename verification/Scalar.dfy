/** p256_get_bit, and the accumulator steps that the two scalar multiplications share. */
module Scalar {
  import opened Arith
  import opened BigNum
  import opened Bits
  import opened P256Int
  import opened Felem
  import opened Residue
  import opened Curve
  import opened Points
  import opened Select
  import opened Group

  // ----- bits of a scalar -----

  function GetBit(scalar: seq<Word>, bit: nat): (b: Word)
    requires bit / 32 < |scalar|
    ensures b <= 1
  {
    PowPositive(bit % 32);
    (scalar[bit / 32] / Pow(2, bit % 32)) % 2
  }

  lemma {:induction false} BPowIsPow(j: nat)
    ensures BPow(j) == Pow(2, 32 * j)
  {
    if j > 0 {
      hide Pow;
      BPowIsPow(j - 1);
      ThirtyTwo();
      PowAdd(2, 32, 32 * (j - 1));
    }
  }

  // A bit of a digit is the bit of the number at its full position.
  lemma GetBitValue(s: seq<Word>, bit: nat)
    requires bit / 32 < |s|
    ensures Pow(2, bit) > 0 && GetBit(s, bit) == (Val(s) / Pow(2, bit)) % 2
  {
    hide Pow, Val, BPow, GetBit;
    var j, m := bit / 32, bit % 32;
    BPowIsPow(j);
    PowAdd(2, 32 * j, m);
    var rest := DigitsAbove(s, j);
    GetBitDef(s, bit);
    PowPositive(m);
    PowPositive(31 - m);
    HalfWord(m);
    BitOfDigit(Val(s), BPow(j), Pow(2, m), Pow(2, 31 - m), s[j], rest);
  }

  lemma GetBitDef(s: seq<Word>, bit: nat)
    requires bit / 32 < |s|
    ensures Pow(2, bit % 32) > 0 && GetBit(s, bit) == (s[bit / 32] / Pow(2, bit % 32)) % 2
  {
    hide Pow;
    PowPositive(bit % 32);
  }

  lemma BitOfDigit(v: nat, a: int, p: int, q: int, d: Word, rest: nat)
    requires a > 0 && p > 0 && q > 0 && p * q * 2 == B && v / a == d + B * rest
    ensures a * p > 0 && (v / (a * p)) % 2 == (d / p) % 2
  {
    DivTwice(v, a, p);
    LowDigitBit(v / a, d, rest, p, q);
  }

  lemma HalfWord(m: nat)
    requires m < 32
    ensures Pow(2, m) * Pow(2, 31 - m) * 2 == B
  {
    hide Pow;
    ThirtyTwo();
    assert Pow(2, 1) == 2 by { OneBit(); }
    PowAdd(2, m, 31 - m);
    PowAdd(2, 31, 1);
  }

  // Dividing away the digits below j leaves digit j and those above.
  lemma DigitsAbove(s: seq<Word>, j: nat) returns (rest: nat)
    requires j < |s|
    ensures Val(s) / BPow(j) == s[j] + B * rest
  {
    hide Val, BPow;
    ValSplit(s, j);
    ValBound(s[..j]);
    var high := Val(s[j..]);
    MulSym(high, BPow(j));
    DivModUnique(Val(s), high, Val(s[..j]), BPow(j));
    ValSplit(s[j..], 1);
    assert s[j..][..1] == [] + [s[j]];
    ValSnoc([], s[j]);
    ValBase();
    BPowSucc(0);
    rest := Val(s[j..][1..]);
  }

  lemma MulSym(a: int, b: int)
    ensures a * b == b * a
  {
  }

  lemma DivTwice(v: nat, a: int, b: int)
    requires a > 0 && b > 0
    ensures a * b > 0 && v / (a * b) == v / a / b
  {
    var q, r := v / a, v % a;
    var t, u := q / b, q % b;
    assert v == q * a + r && q == t * b + u;
    MulAddLeft(t * b, u, a);
    MulSwap(t, b, a);
    MulAssoc(t, a, b);
    MulMono(u, b - 1, a);
    MulMono(0, u, a);
    MulSubLeft(b, 1, a);
    MulSym(b, a);
    MulMono(1, a, b);
    DivModUnique(v, t, u * a + r, a * b);
  }

  // A bit below position 32 does not see the higher digits.
  lemma LowDigitBit(v: nat, d: Word, rest: nat, p: int, q: int)
    requires p > 0 && q > 0 && v == d + B * rest
    requires p * q * 2 == B
    ensures (v / p) % 2 == (d / p) % 2
  {
    var e := 2 * q * rest;
    MulAssoc(p * q, 2, rest);
    assert B * rest == e * p by {
      MulSwap(p, q, 2 * rest);
      MulAssoc(p, q, 2 * rest);
      MulAssoc(2 * rest, q, p);
    }
    MulAddLeft(d / p, e, p);
    DivModUnique(v, d / p + e, d % p, p);
    MulAssoc(2, q, rest);
    CongIntro(d / p + e, d / p, q * rest, 2);
  }

  lemma SmallPowers()
    ensures Pow(2, 1) == 2 && Pow(2, 2) == 4 && Pow(2, 3) == 8
  {
  }

  // Four bits make an index.
  lemma OrBits(b0: Word, b1: Word, b2: Word, b3: Word)
    requires b0 <= 1 && b1 <= 1 && b2 <= 1 && b3 <= 1
    ensures Or(Or(Or(b0, b1 * 2), b2 * 4), b3 * 8) == b0 + 2 * b1 + 4 * b2 + 8 * b3
    ensures Or(Or(Or(b3 * 8, b2 * 4), b1 * 2), b0) == b0 + 2 * b1 + 4 * b2 + 8 * b3
  {
    hide Or, Pow;
    SmallPowers();
    OrShifted(b1, b0, 1);
    OrSym(b0, b1 * 2);
    OrShifted(b2, b0 + 2 * b1, 2);
    OrSym(b0 + 2 * b1, b2 * 4);
    OrShifted(b3, b0 + 2 * b1 + 4 * b2, 3);
    OrSym(b0 + 2 * b1 + 4 * b2, b3 * 8);
    OrShifted(b3, 4 * b2, 3);
    OrShifted(2 * b3 + b2, 2 * b1, 2);
    OrShifted(4 * b3 + 2 * b2 + b1, b0, 1);
  }

  // ----- the accumulator -----

  // The number 1 as a field element.
  const KONE: seq<Word> := [2, 0, 0, 0xfff_f800, 0x1fff_ffff, 0xfff_ffff, 0x1fbf_ffff, 0x1ff_ffff, 0]

  lemma OneStands()
    ensures Elem(KONE, 1)
  {
    hide Fv, Cong;
    FvSum9(KONE);
    CongIntro(Fv(KONE), 1 * RR, -2, P);
    UnscaledIff(Fv(KONE), 1);
  }

  lemma OneOk()
    ensures Ok(KONE)
  {
    hide Fv;
    FvSum9(KONE);
  }

  lemma ZerosStand()
    ensures Elem(ZEROS, 0) && Res(ZEROS) == 0
  {
    hide Fv;
    FvSum9(ZEROS);
    ZeroStands(Fv(ZEROS));
  }

  // The accumulator holds k times the generator; the mask is all ones while k is zero,
  // and the limbs then hold no point.
  ghost predicate Tracks(x: seq<Word>, y: seq<Word>, z: seq<Word>, inf: Word, g: int -> Affine, n: nat, k: int) {
    && Ok(x) && Ok(y) && Ok(z) && Mask(inf)
    && (inf == ONES ==> k == 0)
    && (inf == 0 ==> 0 < k < n && Holds(x, y, z, g(k)))
  }

  lemma BelowOrder(k: int, n: nat)
    requires -(n as int) < k < n && k != 0
    ensures !Zero(k, n)
  {
    if k > 0 {
      DivModUnique(k, 0, k, n);
    } else {
      DivModUnique(k, -1, k + n, n);
    }
  }

  // One doubling in place keeps the accumulator, also when it holds no point.
  method DoubleStep(nx: array<Word>, ny: array<Word>, nz: array<Word>, inf: Word,
                    ghost g: int -> Affine, ghost n: nat, ghost k: int)
    requires nx.Length == ny.Length == nz.Length == 9 && nx != ny && nx != nz && ny != nz
    requires CyclicGroup(g, n) && 2 * k < n && Tracks(nx[..], ny[..], nz[..], inf, g, n, k)
    modifies nx, ny, nz
    ensures Tracks(nx[..], ny[..], nz[..], inf, g, n, 2 * k)
  {
    hide CyclicGroup, Stands, Ok, Res, Reps, Zero, Doubled;
    ghost var p := Jacobian(Res(nx[..]), Res(ny[..]), Res(nz[..]));
    OwnResidues(nx[..], ny[..], nz[..]);
    PointDouble(nx, ny, nz, nx, ny, nz, p);
    StandsParts(nx[..], ny[..], nz[..], Doubled(p));
    if inf == 0 {
      BelowOrder(k, n);
      DoubleHolds(nx[..], ny[..], nz[..], p, g, n, k);
    }
  }

  // What the conditional copies of one step choose: the point from the table while there
  // is none, the sum when the index is not zero, and else no change.
  function Merged(inf: Word, index: Word, s: seq<Word>, p: seq<Word>, t: seq<Word>): (r: seq<Word>) {
    if inf == ONES then p else if index == 0 then s else t
  }

  lemma MergeMasks(inf: Word, index: Word)
    requires Mask(inf) && index < 16
    ensures var m := NonZeroMask(index);
            && Mask(m) && And(m, Not(inf)) == (if inf == ONES || index == 0 then 0 else ONES)
            && And(inf, Not(m)) == (if index == 0 then inf else 0)
  {
    hide And, U32;
    var m := NonZeroMask(index);
    MaskAnd(m, Not(inf));
    MaskAnd(inf, Not(m));
  }

  method Merge(n: array<Word>, p: array<Word>, t: array<Word>, inf: Word, index: Word)
    requires n.Length == p.Length == t.Length == 9 && n != p && n != t && Mask(inf) && index < 16
    modifies n
    ensures n[..] == Merged(inf, index, old(n[..]), p[..], t[..])
  {
    hide And, NonZeroMask;
    MergeMasks(inf, index);
    ghost var q, s := p[..], t[..];
    CopyConditional(n, p, inf);
    CopyConditional(n, t, And(NonZeroMask(index), Not(inf)));
    assert p[..] == q && t[..] == s;
  }

  // The mask after a step, inf & ~NON_ZERO_TO_ALL_ONES(index).
  function NextMask(inf: Word, index: Word): (r: Word) {
    if index == 0 then inf else 0
  }

  // The step is right whenever the sum is: at infinity and for index zero the sum that
  // was computed is garbage, and never chosen.
  lemma MergeTracks(x: seq<Word>, y: seq<Word>, z: seq<Word>, px: seq<Word>, py: seq<Word>, pz: seq<Word>,
                    tx: seq<Word>, ty: seq<Word>, tz: seq<Word>, inf: Word, index: Word,
                    g: int -> Affine, n: nat, k: int, w: int)
    requires Tracks(x, y, z, inf, g, n, k) && Ok(px) && Ok(py) && Ok(pz) && index < 16
    requires (index == 0 ==> w == 0) && (index != 0 ==> 0 < w && Holds(px, py, pz, g(w)))
    requires k + w < n
    requires inf == 0 && index != 0 ==> Holds(tx, ty, tz, g(k + w))
    ensures Tracks(Merged(inf, index, x, px, tx), Merged(inf, index, y, py, ty), Merged(inf, index, z, pz, tz),
                   NextMask(inf, index), g, n, k + w)
  {
    hide Ok, Reps;
  }

  // The conditional copies of one step and the new mask.
  method MergePoint(nx: array<Word>, ny: array<Word>, nz: array<Word>, px: array<Word>, py: array<Word>, pz: array<Word>,
                    tx: array<Word>, ty: array<Word>, tz: array<Word>, inf: Word, index: Word,
                    ghost g: int -> Affine, ghost n: nat, ghost k: int, ghost w: int)
    returns (next: Word)
    requires nx.Length == ny.Length == nz.Length == px.Length == py.Length == pz.Length == tx.Length == ty.Length == tz.Length == 9
    requires nx != ny && nx != nz && ny != nz
    requires nx !in {px, py, pz, tx, ty, tz} && ny !in {px, py, pz, tx, ty, tz} && nz !in {px, py, pz, tx, ty, tz}
    requires Tracks(nx[..], ny[..], nz[..], inf, g, n, k) && Ok(px[..]) && Ok(py[..]) && Ok(pz[..]) && index < 16
    requires (index == 0 ==> w == 0) && (index != 0 ==> 0 < w && Holds(px[..], py[..], pz[..], g(w)))
    requires k + w < n
    requires inf == 0 && index != 0 ==> Holds(tx[..], ty[..], tz[..], g(k + w))
    modifies nx, ny, nz
    ensures Tracks(nx[..], ny[..], nz[..], next, g, n, k + w) && next == NextMask(inf, index)
    ensures inf == ONES ==> nx[..] == px[..] && ny[..] == py[..] && nz[..] == pz[..]
  {
    hide Holds, Ok, NonZeroMask, Tracks, Merged, And;
    ghost var x, y, z := nx[..], ny[..], nz[..];
    TracksMask(x, y, z, inf, g, n, k);
    MergeTracks(x, y, z, px[..], py[..], pz[..], tx[..], ty[..], tz[..], inf, index, g, n, k, w);
    Merge(nx, px, tx, inf, index);
    Merge(ny, py, ty, inf, index);
    Merge(nz, pz, tz, inf, index);
    MergeMasks(inf, index);
    next := And(inf, Not(NonZeroMask(index)));
    MergedAtInfinity(inf, index, x, px[..], tx[..]);
    MergedAtInfinity(inf, index, y, py[..], ty[..]);
    MergedAtInfinity(inf, index, z, pz[..], tz[..]);
  }

  lemma MergedAtInfinity(inf: Word, index: Word, s: seq<Word>, p: seq<Word>, t: seq<Word>)
    ensures inf == ONES ==> Merged(inf, index, s, p, t) == p
  {
  }

  lemma TracksMask(x: seq<Word>, y: seq<Word>, z: seq<Word>, inf: Word, g: int -> Affine, n: nat, k: int)
    requires Tracks(x, y, z, inf, g, n, k)
    ensures Mask(inf)
  {
  }

  // What an addition may not meet: the same point, the opposite one, and a sum of the
  // group order or more.
  predicate Apart(k: int, w: int, n: nat) {
    0 <= k && 0 <= w && k + w < n && (k > 0 && w > 0 ==> k != w)
  }

  lemma ApartOperands(k: int, w: int, n: nat)
    requires Apart(k, w, n) && 0 < k && 0 < w
    ensures !Zero(k, n) && !Zero(w, n) && !Zero(k - w, n) && !Zero(k + w, n)
  {
    hide Zero;
    BelowOrder(k, n);
    BelowOrder(w, n);
    BelowOrder(k - w, n);
    BelowOrder(k + w, n);
  }

  lemma ApartSum(k: int, w: int, n: nat)
    requires Apart(k, w, n)
    ensures k + w < n
  {
  }

  // ----- affine operands -----

  // Limbs that stand for the affine coordinates of a point.
  ghost predicate AffineIs(x: seq<Word>, y: seq<Word>, a: Affine) {
    Elem(x, a.x) && Elem(y, a.y)
  }

  lemma AffineHolds(x: seq<Word>, y: seq<Word>, a: Affine)
    requires AffineIs(x, y, a)
    ensures Holds(x, y, KONE, a)
    ensures Elem(x, a.x) && Elem(y, a.y) && Reps(Jacobian(a.x, a.y, 1), a)
  {
    hide Ok, Cong, Is;
    OneStands();
    var p := Jacobian(a.x, a.y, 1);
    assert AddU(a.x, 1) == a.x && AddS(a.y, 1) == a.y;
    CongRefl(a.x, P);
    CongRefl(a.y, P);
    CongRefl(1, P);
    assert Inverse(1, 1, P);
    StandsParts(x, y, KONE, p);
    RepsMoves(p, Jacobian(Res(x), Res(y), Res(KONE)), a);
  }

  lemma StartsAtInfinity(g: int -> Affine, n: nat)
    ensures Tracks(ZEROS, ZEROS, ZEROS, ONES, g, n, 0)
  {
    hide Holds;
    ZerosStand();
  }

  lemma TracksEnds(x: seq<Word>, y: seq<Word>, z: seq<Word>, inf: Word, g: int -> Affine, n: nat, k: int)
    requires Tracks(x, y, z, inf, g, n, k)
    ensures Ok(z) && (k > 0 ==> Holds(x, y, z, g(k))) && (k == 0 ==> inf == ONES)
  {
    hide Holds, Ok;
  }
}
