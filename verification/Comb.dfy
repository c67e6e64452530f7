/** p256_ec.c: scalar_base_mult, a comb over a table of multiples of the generator. */
module Comb {
  import opened Arith
  import opened BigNum
  import opened Bits
  import opened P256Int
  import opened Felem
  import opened Residue
  import opened Curve
  import opened Points
  import opened Select
  import opened Group
  import opened Scalar

  // ----- the digits of the comb -----

  lemma {:induction false} ValSum(x: seq<Word>, y: seq<Word>, z: seq<Word>)
    requires |x| == |y| == |z| && forall c :: 0 <= c < |x| ==> z[c] == x[c] as int + y[c]
    ensures Val(z) == Val(x) + Val(y)
  {
    if |x| > 0 {
      var m := |x| - 1;
      ValSum(x[..m], y[..m], z[..m]);
      MulAddLeft(x[m], y[m], BPow(m));
    }
  }

  lemma {:induction false} ValMono(x: seq<Word>, y: seq<Word>)
    requires |x| == |y| && forall c :: 0 <= c < |x| ==> x[c] <= y[c]
    ensures Val(x) <= Val(y)
  {
    if |x| > 0 {
      var m := |x| - 1;
      ValMono(x[..m], y[..m]);
      MulMono(x[m], y[m], BPow(m));
    }
  }

  lemma {:induction false} ValPositive(x: seq<Word>, c: nat)
    requires c < |x| && x[c] > 0
    ensures Val(x) > 0
  {
    var m := |x| - 1;
    MulMono(0, x[m], BPow(m));
    if c < m {
      ValPositive(x[..m], c);
    } else {
      MulMono(1, x[m], BPow(m));
    }
  }

  // The top i bits of every digit: what the accumulator holds after i rounds.
  function Tops(s: seq<Word>, p: nat): (t: seq<Word>)
    requires |s| == 8 && p > 0
  {
    seq(8, c requires 0 <= c < 8 => DivWord(s[c], p))
  }

  function DivWord(d: Word, p: nat): (w: Word)
    requires p > 0
    ensures w == d / p
  {
    DivSmall(d, p);
    d / p
  }

  lemma DivSmall(d: nat, p: nat)
    requires p > 0
    ensures 0 <= d / p <= d
  {
    MulMono(1, p, d / p);
    assert d == (d / p) * p + d % p;
  }

  // Index bit b stands for digit 2b of one half of the comb and digit 2b + 1 of the other.
  function IndexDigits(half: nat, index: nat): (t: seq<Word>)
    requires half < 2
  {
    var b0, b1, b2, b3 := index % 2, (index / 2) % 2, (index / 4) % 2, (index / 8) % 2;
    if half == 0 then [b0, 0, b1, 0, b2, 0, b3, 0] else [0, b0, 0, b1, 0, b2, 0, b3]
  }

  // The multiple that a table entry holds.
  function Weight(half: nat, index: nat): (w: nat)
    requires half < 2
  {
    Val(IndexDigits(half, index))
  }

  lemma WeightZero(half: nat, index: nat)
    requires half < 2 && index < 16
    ensures Weight(half, index) == 0 <==> index == 0
  {
    hide Val, BPow;
    var t := IndexDigits(half, index);
    if index == 0 {
      ValZeros(t);
    } else {
      var c := if index % 2 == 1 then 0 else if (index / 2) % 2 == 1 then 2 else if (index / 4) % 2 == 1 then 4 else 6;
      assert t[c + half] == 1;
      ValPositive(t, c + half);
    }
  }

  // The index that round i reads for one half: one bit of four digits.
  function CombIndex(s: seq<Word>, half: nat, i: nat): (index: Word)
    requires |s| == 8 && half < 2 && i < 32
    ensures index < 16
  {
    var m := 31 - i + 32 * half;
    var b0, b1, b2, b3 := GetBit(s, m), GetBit(s, m + 64), GetBit(s, m + 128), GetBit(s, m + 192);
    OrBits(b0, b1, b2, b3);
    Or(Or(Or(b0, b1 * 2), b2 * 4), b3 * 8)
  }

  lemma CombIndexBits(s: seq<Word>, half: nat, i: nat)
    requires |s| == 8 && half < 2 && i < 32
    ensures var t := IndexDigits(half, CombIndex(s, half, i));
            |t| == 8 && forall c :: 0 <= c < 8 ==> t[c] == if c % 2 == half then GetBit(s, 31 - i + 32 * c) else 0
  {
    hide GetBit, Or;
    var m := 31 - i + 32 * half;
    var b0, b1, b2, b3 := GetBit(s, m), GetBit(s, m + 64), GetBit(s, m + 128), GetBit(s, m + 192);
    OrBits(b0, b1, b2, b3);
    FourBits(b0, b1, b2, b3);
  }

  lemma FourBits(b0: Word, b1: Word, b2: Word, b3: Word)
    requires b0 <= 1 && b1 <= 1 && b2 <= 1 && b3 <= 1
    ensures var x := b0 + 2 * b1 + 4 * b2 + 8 * b3;
            x % 2 == b0 && (x / 2) % 2 == b1 && (x / 4) % 2 == b2 && (x / 8) % 2 == b3
  {
  }

  lemma GetBitAt(s: seq<Word>, c: nat, m: nat)
    requires |s| == 8 && c < 8 && m < 32
    ensures Pow(2, m) > 0 && GetBit(s, m + 32 * c) == (s[c] / Pow(2, m)) % 2
  {
    hide Pow;
    PowPositive(m);
    assert (m + 32 * c) / 32 == c && (m + 32 * c) % 32 == m;
  }

  // ----- one round -----

  // The accumulated digits before a round, doubled, and after each half of it.
  function RoundDigits(s: seq<Word>, i: nat, step: nat): (t: seq<int>)
    requires |s| == 8 && i < 32 && step < 3
  {
    PowPositive(32 - i);
    seq(8, c requires 0 <= c < 8 =>
      2 * (s[c] / Pow(2, 32 - i)) + (if step > c % 2 then GetBit(s, 31 - i + 32 * c) else 0))
  }

  lemma HalfDigit(d: Word, i: nat)
    requires i < 32
    ensures Pow(2, 32 - i) > 0 && Pow(2, 31 - i) > 0
    ensures d / Pow(2, 31 - i) == 2 * (d / Pow(2, 32 - i)) + (d / Pow(2, 31 - i)) % 2
  {
    hide Pow;
    PowPositive(32 - i);
    PowPositive(31 - i);
    PowAdd(2, 31 - i, 1);
    OneBit();
    DivTwice(d, Pow(2, 31 - i), 2);
  }

  // The digits of a round stay words: they are at most those after it.
  lemma RoundFits(s: seq<Word>, i: nat, step: nat, c: nat)
    requires |s| == 8 && i < 32 && step < 3 && c < 8
    ensures |RoundDigits(s, i, step)| == 8 && Pow(2, 31 - i) > 0
    ensures 0 <= RoundDigits(s, i, step)[c] <= s[c] / Pow(2, 31 - i) <= s[c]
    ensures step == 2 ==> RoundDigits(s, i, step)[c] == s[c] / Pow(2, 31 - i)
    ensures step == 0 ==> RoundDigits(s, i, step)[c] % 2 == 0
  {
    hide Pow, GetBit;
    HalfDigit(s[c], i);
    GetBitAt(s, c, 31 - i);
    DivSmall(s[c], Pow(2, 31 - i));
    DivSmall(s[c], Pow(2, 32 - i));
  }

  function RoundWords(s: seq<Word>, i: nat, step: nat): (t: seq<Word>)
    requires |s| == 8 && i < 32 && step < 3
    ensures |t| == 8 && forall c :: 0 <= c < 8 ==> t[c] == RoundDigits(s, i, step)[c]
  {
    seq(8, c requires 0 <= c < 8 => RoundWord(s, i, step, c))
  }

  function RoundWord(s: seq<Word>, i: nat, step: nat, c: nat): (w: Word)
    requires |s| == 8 && i < 32 && step < 3 && c < 8
    ensures w == RoundDigits(s, i, step)[c]
  {
    RoundFits(s, i, step, c);
    RoundDigits(s, i, step)[c]
  }

  // The accumulator through round i.
  function RoundValue(s: seq<Word>, i: nat, step: nat): (k: nat)
    requires |s| == 8 && i < 32 && step < 3
  {
    Val(RoundWords(s, i, step))
  }

  // The accumulator after i rounds.
  function CombValue(s: seq<Word>, i: nat): (k: nat)
    requires |s| == 8 && i <= 32
  {
    PowPositive(32 - i);
    Val(Tops(s, Pow(2, 32 - i)))
  }

  lemma TopsAt(s: seq<Word>, p: nat)
    requires |s| == 8 && p > 0
    ensures |Tops(s, p)| == 8 && forall c :: 0 <= c < 8 ==> Tops(s, p)[c] == s[c] / p
  {
    hide DivWord;
  }

  lemma RoundAt(s: seq<Word>, i: nat, c: nat)
    requires |s| == 8 && i < 32 && c < 8
    ensures Pow(2, 32 - i) > 0 && RoundWords(s, i, 0)[c] == 2 * (s[c] / Pow(2, 32 - i))
    ensures RoundWords(s, i, 1)[c] == RoundWords(s, i, 0)[c] as int + (if c % 2 == 0 then GetBit(s, 31 - i + 32 * c) else 0)
    ensures RoundWords(s, i, 2)[c] == RoundWords(s, i, 1)[c] as int + (if c % 2 == 1 then GetBit(s, 31 - i + 32 * c) else 0)
  {
    hide Pow, GetBit, RoundWords;
    PowPositive(32 - i);
  }

  // A round doubles the accumulator and uses each of its eight scalar bits once, with the
  // weight of its digit.
  lemma RoundSum(s: seq<Word>, i: nat)
    requires |s| == 8 && i < 32
    ensures RoundValue(s, i, 0) == 2 * CombValue(s, i)
    ensures RoundValue(s, i, 1) == RoundValue(s, i, 0) + Weight(0, CombIndex(s, 0, i))
    ensures RoundValue(s, i, 2) == RoundValue(s, i, 1) + Weight(1, CombIndex(s, 1, i))
    ensures RoundValue(s, i, 2) == CombValue(s, i + 1) <= Val(s)
  {
    hide Val, BPow, Pow, GetBit, CombIndex, IndexDigits, RoundWords, RoundDigits, Tops;
    PowPositive(32 - i);
    PowPositive(31 - i);
    var a, b := Tops(s, Pow(2, 32 - i)), Tops(s, Pow(2, 31 - i));
    TopsAt(s, Pow(2, 32 - i));
    TopsAt(s, Pow(2, 31 - i));
    CombIndexBits(s, 0, i);
    CombIndexBits(s, 1, i);
    forall c | 0 <= c < 8
      ensures RoundWords(s, i, 0)[c] == a[c] as int + a[c]
      ensures RoundWords(s, i, 1)[c] == RoundWords(s, i, 0)[c] as int + IndexDigits(0, CombIndex(s, 0, i))[c]
      ensures RoundWords(s, i, 2)[c] == RoundWords(s, i, 1)[c] as int + IndexDigits(1, CombIndex(s, 1, i))[c]
      ensures RoundWords(s, i, 2)[c] == b[c] && b[c] <= s[c]
    {
      RoundAt(s, i, c);
      RoundFits(s, i, 2, c);
    }
    ValSum(a, a, RoundWords(s, i, 0));
    ValSum(RoundWords(s, i, 0), IndexDigits(0, CombIndex(s, 0, i)), RoundWords(s, i, 1));
    ValSum(RoundWords(s, i, 1), IndexDigits(1, CombIndex(s, 1, i)), RoundWords(s, i, 2));
    assert RoundWords(s, i, 2) == b;
    ValMono(b, s);
  }

  // The operands of an addition are never the same point: doubled digits are even, the
  // table's digits are bits, so equal values are zero.
  lemma RoundDistinct(s: seq<Word>, i: nat, half: nat)
    requires |s| == 8 && i < 32 && half < 2
    requires RoundValue(s, i, half) == Weight(half, CombIndex(s, half, i))
    ensures RoundValue(s, i, half) == 0
  {
    hide Val, BPow, Pow, GetBit, CombIndex, IndexDigits, RoundWords, RoundDigits;
    CombIndexBits(s, half, i);
    var t := IndexDigits(half, CombIndex(s, half, i));
    ValUnique(RoundWords(s, i, half), t);
    forall c | 0 <= c < 8
      ensures t[c] == 0
    {
      RoundAt(s, i, c);
    }
    ValZeros(t);
  }

  lemma CombEnds(s: seq<Word>)
    requires |s| == 8
    ensures CombValue(s, 0) == 0 && CombValue(s, 32) == Val(s)
  {
    hide Val, BPow, Tops;
    ThirtyTwo();
    TopsAt(s, B);
    ValZeros(Tops(s, B));
    TopsAt(s, 1);
    assert Pow(2, 0) == 1;
    assert Tops(s, 1) == s;
  }

  // ----- the table -----

  ghost predicate CombTable(table: seq<Word>, g: int -> Affine) {
    && |table| == 540
    && forall half, index :: 0 <= half < 2 && 0 < index < 16 ==>
         AffineIs(Limbs(table, 270 * half + 18 * (index - 1)), Limbs(table, 270 * half + 18 * (index - 1) + 9),
                 g(Weight(half, index)))
  }

  // ----- the multiplication -----

  // The sum of the accumulator and a point of the table.
  method MixedStep(nx: array<Word>, ny: array<Word>, nz: array<Word>, px: array<Word>, py: array<Word>,
                   inf: Word, index: Word, ghost g: int -> Affine, ghost n: nat, ghost k: int, ghost w: int)
    returns (tx: array<Word>, ty: array<Word>, tz: array<Word>)
    requires nx.Length == ny.Length == nz.Length == px.Length == py.Length == 9
    requires CyclicGroup(g, n) && Tracks(nx[..], ny[..], nz[..], inf, g, n, k) && Apart(k, w, n)
    requires Ok(px[..]) && Ok(py[..]) && (index != 0 ==> 0 < w && AffineIs(px[..], py[..], g(w)))
    ensures fresh(tx) && fresh(ty) && fresh(tz) && tx.Length == ty.Length == tz.Length == 9
    ensures inf == 0 && index != 0 ==> Holds(tx[..], ty[..], tz[..], g(k + w))
  {
    hide CyclicGroup, Stands, Ok, Res, Reps, Zero, Added, Is, Apart;
    tx, ty, tz := new Word[9](i => 0), new Word[9](i => 0), new Word[9](i => 0);
    ghost var p := Jacobian(Res(nx[..]), Res(ny[..]), Res(nz[..]));
    ghost var vx, vy := if index != 0 then g(w).x else Res(px[..]), if index != 0 then g(w).y else Res(py[..]);
    OwnResidues(nx[..], ny[..], nz[..]);
    IsRes(px[..]);
    IsRes(py[..]);
    PointAddMixed(tx, ty, tz, nx, ny, nz, px, py, p, vx, vy);
    if inf == 0 && index != 0 {
      AffineHolds(px[..], py[..], g(w));
      ApartOperands(k, w, n);
      AddHolds(tx[..], ty[..], tz[..], p, Jacobian(vx, vy, 1), g, n, k, w);
    }
  }

  // Half a round: selects a table entry and adds it to the accumulator.
  method CombStep(nx: array<Word>, ny: array<Word>, nz: array<Word>, inf: Word, table: seq<Word>, index: Word,
                  ghost g: int -> Affine, ghost n: nat, ghost k: int, ghost w: int)
    returns (next: Word)
    requires nx.Length == ny.Length == nz.Length == 9 && nx != ny && nx != nz && ny != nz
    requires CyclicGroup(g, n) && Tracks(nx[..], ny[..], nz[..], inf, g, n, k) && Apart(k, w, n)
    requires index < 16 && |table| == 270 && (index == 0 <==> w == 0) && 0 <= w
    requires index != 0 ==> AffineIs(Limbs(table, 18 * (index - 1)), Limbs(table, 18 * (index - 1) + 9), g(w))
    modifies nx, ny, nz
    ensures Tracks(nx[..], ny[..], nz[..], next, g, n, k + w)
    ensures next == NextMask(inf, index)
    ensures inf == ONES && index == 0 ==> nx[..] == ZEROS && ny[..] == ZEROS && nz[..] == KONE
  {
    hide CyclicGroup, Holds, Ok, Apart, Tracks, AffineIs;
    var px, py := new Word[9](i => 0), new Word[9](i => 0);
    SelectAffinePoint(px, py, table, index);
    SelectedOk(table, index, g(w));
    var tx, ty, tz := MixedStep(nx, ny, nz, px, py, inf, index, g, n, k, w);
    var one := new Word[9](i requires 0 <= i < 9 => KONE[i]);
    assert one[..] == KONE;
    SelectedHolds(px[..], py[..], index, g(w));
    ApartSum(k, w, n);
    next := MergePoint(nx, ny, nz, px, py, one, tx, ty, tz, inf, index, g, n, k, w);
  }

  lemma SelectedOk(table: seq<Word>, index: Word, a: Affine)
    requires index < 16 && |table| == 270
    requires index != 0 ==> AffineIs(Limbs(table, 18 * (index - 1)), Limbs(table, 18 * (index - 1) + 9), a)
    ensures var x, y := Chosen(table, 0, 18, index, true), Chosen(table, 9, 18, index, true);
            Ok(x) && Ok(y) && (index != 0 ==> AffineIs(x, y, a))
    ensures index == 0 ==> Chosen(table, 0, 18, index, true) == ZEROS && Chosen(table, 9, 18, index, true) == ZEROS
  {
    hide Is, Limbs;
    ZerosStand();
  }

  lemma SelectedHolds(x: seq<Word>, y: seq<Word>, index: Word, a: Affine)
    requires index != 0 ==> AffineIs(x, y, a)
    ensures Ok(KONE) && (index != 0 ==> Holds(x, y, KONE, a))
  {
    hide AffineIs, Holds, Is;
    OneStands();
    if index != 0 {
      AffineHolds(x, y, a);
    }
  }

  lemma TableHalf(table: seq<Word>, g: int -> Affine, half: nat, index: nat)
    requires CombTable(table, g) && half < 2 && index < 16
    ensures var t := table[270 * half..270 * half + 270];
            index != 0 ==> AffineIs(Limbs(t, 18 * (index - 1)), Limbs(t, 18 * (index - 1) + 9), g(Weight(half, index)))
  {
    hide AffineIs, Weight;
    if index != 0 {
      SubLimbs(table, 270 * half, 18 * (index - 1));
      SubLimbs(table, 270 * half, 18 * (index - 1) + 9);
    }
  }

  lemma SubLimbs(table: seq<Word>, lo: nat, at: nat)
    requires lo + 270 <= |table| && at + 9 <= 270
    ensures Limbs(table[lo..lo + 270], at) == Limbs(table, lo + at)
  {
    var t := table[lo..lo + 270];
    var a, b := Limbs(t, at), Limbs(table, lo + at);
    forall k | 0 <= k < 9
      ensures a[k] == b[k]
    {
      assert a[k] == t[at + k] && t[at + k] == table[lo + (at + k)];
    }
  }

  // The operands of both additions of a round are apart while the scalar is below the order.
  lemma RoundApart(s: seq<Word>, i: nat, half: nat, n: nat)
    requires |s| == 8 && i < 32 && half < 2 && Val(s) < n
    ensures Apart(RoundValue(s, i, half), Weight(half, CombIndex(s, half, i)), n)
    ensures RoundValue(s, i, half + 1) == RoundValue(s, i, half) + Weight(half, CombIndex(s, half, i))
  {
    hide RoundValue, CombValue, Weight, CombIndex, Val;
    RoundSum(s, i);
    if RoundValue(s, i, half) == Weight(half, CombIndex(s, half, i)) {
      RoundDistinct(s, i, half);
    }
  }

  // A round of the comb.
  method CombRound(nx: array<Word>, ny: array<Word>, nz: array<Word>, inf: Word, scalar: array<Word>, i: nat,
                   table: seq<Word>, ghost g: int -> Affine, ghost n: nat)
    returns (next: Word)
    requires nx.Length == ny.Length == nz.Length == 9 && nx != ny && nx != nz && ny != nz
    requires scalar.Length == 8 && scalar !in {nx, ny, nz} && i < 32
    requires CyclicGroup(g, n) && CombTable(table, g) && Val(scalar[..]) < n
    requires Tracks(nx[..], ny[..], nz[..], inf, g, n, RoundValue(scalar[..], i, 0))
    modifies nx, ny, nz
    ensures Tracks(nx[..], ny[..], nz[..], next, g, n, CombValue(scalar[..], i + 1))
    ensures next == ONES ==> nx[..] == ZEROS && ny[..] == ZEROS && nz[..] == KONE
  {
    hide CyclicGroup, CombTable, Tracks, Apart, RoundValue, CombValue, Weight, CombIndex, AffineIs, Val;
    ghost var s := scalar[..];
    TableLength(table, g);
    RoundApart(s, i, 0, n);
    RoundApart(s, i, 1, n);
    RoundSum(s, i);
    TracksMask(nx[..], ny[..], nz[..], inf, g, n, RoundValue(s, i, 0));
    var index := CombIndex(scalar[..], 0, i);
    WeightZero(0, index);
    TableHalf(table, g, 0, index);
    var mid := CombStep(nx, ny, nz, inf, table[..270], index, g, n, RoundValue(s, i, 0), Weight(0, index));
    assert table[270 * 0..270 * 0 + 270] == table[..270];
    assert scalar[..] == s;
    index := CombIndex(scalar[..], 1, i);
    WeightZero(1, index);
    TableHalf(table, g, 1, index);
    next := CombStep(nx, ny, nz, mid, table[270..540], index, g, n, RoundValue(s, i, 1), Weight(1, index));
  }

  lemma TableLength(table: seq<Word>, g: int -> Affine)
    requires CombTable(table, g)
    ensures |table| == 540
  {
  }

  // The scalar's multiple of the generator, for every scalar below the group order; for
  // zero x and y come out as zero, and z as the number 1.
  method ScalarBaseMult(nx: array<Word>, ny: array<Word>, nz: array<Word>, scalar: array<Word>, table: seq<Word>,
                        ghost g: int -> Affine, ghost n: nat)
    requires nx.Length == ny.Length == nz.Length == 9 && nx != ny && nx != nz && ny != nz
    requires scalar.Length == 8 && scalar !in {nx, ny, nz}
    requires CyclicGroup(g, n) && CombTable(table, g) && Val(scalar[..]) < n
    modifies nx, ny, nz
    ensures Val(scalar[..]) > 0 ==> Holds(nx[..], ny[..], nz[..], g(Val(scalar[..])))
    ensures Val(scalar[..]) == 0 ==> nx[..] == ZEROS && ny[..] == ZEROS && nz[..] == KONE
  {
    hide CyclicGroup, CombTable, Holds, Ok, CombValue, RoundValue, Val, Weight, CombIndex, Tracks;
    ghost var s := scalar[..];
    ClearLimbs(nx);
    ClearLimbs(ny);
    ClearLimbs(nz);
    CombEnds(s);
    StartsAtInfinity(g, n);
    var inf: Word := ONES;
    var i := 0;
    while i < 32
      invariant 0 <= i <= 32 && scalar[..] == s
      invariant Tracks(nx[..], ny[..], nz[..], inf, g, n, CombValue(s, i))
      invariant i > 0 && inf == ONES ==> nx[..] == ZEROS && ny[..] == ZEROS && nz[..] == KONE
    {
      RoundSum(s, i);
      if i > 0 {
        DoubleStep(nx, ny, nz, inf, g, n, CombValue(s, i));
      } else {
        CombEnds(s);
      }
      assert scalar[..] == s;
      inf := CombRound(nx, ny, nz, inf, scalar, i, table, g, n);
      assert scalar[..] == s;
      i := i + 1;
    }
    TracksEnds(nx[..], ny[..], nz[..], inf, g, n, Val(s));
  }
}
