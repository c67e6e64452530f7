/** p256_ec.c: felem_mul and felem_square. */
module FelemProduct {
  import opened Arith
  import opened BigNum
  import opened Felem
  import opened FelemReduce
  import opened Residue

  // One 32 by 32 bit product.
  function Term(x: int, y: int): (t: int) {
    x * y
  }

  // The seventeen 64-bit words of a product: where the positions of two odd limbs add
  // up to one bit above the position of the word, their product is doubled.
  function MulWords(x: seq<Word>, y: seq<Word>): (t: seq<Dword>)
    requires |x| == 9 == |y|
  {
    [U64(Term(x[0], y[0])),
     U64(Term(x[0], y[1]) + Term(x[1], y[0])),
     U64(Term(x[0], y[2]) + Term(x[1], U32(y[1] as int * 2)) + Term(x[2], y[0])),
     U64(Term(x[0], y[3]) + Term(x[1], y[2]) + Term(x[2], y[1]) + Term(x[3], y[0])),
     U64(Term(x[0], y[4]) + Term(x[1], U32(y[3] as int * 2)) + Term(x[2], y[2]) +
         Term(x[3], U32(y[1] as int * 2)) + Term(x[4], y[0])),
     U64(Term(x[0], y[5]) + Term(x[1], y[4]) + Term(x[2], y[3]) + Term(x[3], y[2]) + Term(x[4], y[1]) +
         Term(x[5], y[0])),
     U64(Term(x[0], y[6]) + Term(x[1], U32(y[5] as int * 2)) + Term(x[2], y[4]) +
         Term(x[3], U32(y[3] as int * 2)) + Term(x[4], y[2]) + Term(x[5], U32(y[1] as int * 2)) +
         Term(x[6], y[0])),
     U64(Term(x[0], y[7]) + Term(x[1], y[6]) + Term(x[2], y[5]) + Term(x[3], y[4]) + Term(x[4], y[3]) +
         Term(x[5], y[2]) + Term(x[6], y[1]) + Term(x[7], y[0])),
     U64(Term(x[0], y[8]) + Term(x[1], U32(y[7] as int * 2)) + Term(x[2], y[6]) +
         Term(x[3], U32(y[5] as int * 2)) + Term(x[4], y[4]) + Term(x[5], U32(y[3] as int * 2)) +
         Term(x[6], y[2]) + Term(x[7], U32(y[1] as int * 2)) + Term(x[8], y[0])),
     U64(Term(x[1], y[8]) + Term(x[2], y[7]) + Term(x[3], y[6]) + Term(x[4], y[5]) + Term(x[5], y[4]) +
         Term(x[6], y[3]) + Term(x[7], y[2]) + Term(x[8], y[1])),
     U64(Term(x[2], y[8]) + Term(x[3], U32(y[7] as int * 2)) + Term(x[4], y[6]) +
         Term(x[5], U32(y[5] as int * 2)) + Term(x[6], y[4]) + Term(x[7], U32(y[3] as int * 2)) +
         Term(x[8], y[2])),
     U64(Term(x[3], y[8]) + Term(x[4], y[7]) + Term(x[5], y[6]) + Term(x[6], y[5]) + Term(x[7], y[4]) +
         Term(x[8], y[3])),
     U64(Term(x[4], y[8]) + Term(x[5], U32(y[7] as int * 2)) + Term(x[6], y[6]) +
         Term(x[7], U32(y[5] as int * 2)) + Term(x[8], y[4])),
     U64(Term(x[5], y[8]) + Term(x[6], y[7]) + Term(x[7], y[6]) + Term(x[8], y[5])),
     U64(Term(x[6], y[8]) + Term(x[7], U32(y[7] as int * 2)) + Term(x[8], y[6])),
     U64(Term(x[7], y[8]) + Term(x[8], y[7])),
     U64(Term(x[8], y[8]))]
  }

  // The words of a square, each mixed product formed once from a shifted limb.
  function SquareWords(x: seq<Word>): (t: seq<Dword>)
    requires |x| == 9
  {
    [U64(Term(x[0], x[0])),
     U64(Term(x[0], U32(x[1] as int * 2))),
     U64(Term(x[0], U32(x[2] as int * 2)) + Term(x[1], U32(x[1] as int * 2))),
     U64(Term(x[0], U32(x[3] as int * 2)) + Term(x[1], U32(x[2] as int * 2))),
     U64(Term(x[0], U32(x[4] as int * 2)) + Term(x[1], U32(x[3] as int * 4)) + Term(x[2], x[2])),
     U64(Term(x[0], U32(x[5] as int * 2)) + Term(x[1], U32(x[4] as int * 2)) + Term(x[2], U32(x[3] as int * 2))),
     U64(Term(x[0], U32(x[6] as int * 2)) + Term(x[1], U32(x[5] as int * 4)) + Term(x[2], U32(x[4] as int * 2)) +
         Term(x[3], U32(x[3] as int * 2))),
     U64(Term(x[0], U32(x[7] as int * 2)) + Term(x[1], U32(x[6] as int * 2)) + Term(x[2], U32(x[5] as int * 2)) +
         Term(x[3], U32(x[4] as int * 2))),
     U64(Term(x[0], U32(x[8] as int * 2)) + Term(x[1], U32(x[7] as int * 4)) + Term(x[2], U32(x[6] as int * 2)) +
         Term(x[3], U32(x[5] as int * 4)) + Term(x[4], x[4])),
     U64(Term(x[1], U32(x[8] as int * 2)) + Term(x[2], U32(x[7] as int * 2)) + Term(x[3], U32(x[6] as int * 2)) +
         Term(x[4], U32(x[5] as int * 2))),
     U64(Term(x[2], U32(x[8] as int * 2)) + Term(x[3], U32(x[7] as int * 4)) + Term(x[4], U32(x[6] as int * 2)) +
         Term(x[5], U32(x[5] as int * 2))),
     U64(Term(x[3], U32(x[8] as int * 2)) + Term(x[4], U32(x[7] as int * 2)) + Term(x[5], U32(x[6] as int * 2))),
     U64(Term(x[4], U32(x[8] as int * 2)) + Term(x[5], U32(x[7] as int * 4)) + Term(x[6], x[6])),
     U64(Term(x[5], U32(x[8] as int * 2)) + Term(x[6], U32(x[7] as int * 2))),
     U64(Term(x[6], U32(x[8] as int * 2)) + Term(x[7], U32(x[7] as int * 2))),
     U64(Term(x[7], U32(x[8] as int * 2))),
     U64(Term(x[8], x[8]))]
  }

  // The exact sums of products behind both.
  function Columns(x: seq<int>, y: seq<int>): (z: seq<int>)
    requires |x| == 9 == |y|
  {
    [Term(x[0], y[0]),
     Term(x[0], y[1]) + Term(x[1], y[0]),
     Term(x[0], y[2]) + 2 * Term(x[1], y[1]) + Term(x[2], y[0]),
     Term(x[0], y[3]) + Term(x[1], y[2]) + Term(x[2], y[1]) + Term(x[3], y[0]),
     Term(x[0], y[4]) + 2 * Term(x[1], y[3]) + Term(x[2], y[2]) + 2 * Term(x[3], y[1]) + Term(x[4], y[0]),
     Term(x[0], y[5]) + Term(x[1], y[4]) + Term(x[2], y[3]) + Term(x[3], y[2]) + Term(x[4], y[1]) +
     Term(x[5], y[0]),
     Term(x[0], y[6]) + 2 * Term(x[1], y[5]) + Term(x[2], y[4]) + 2 * Term(x[3], y[3]) + Term(x[4], y[2]) +
     2 * Term(x[5], y[1]) + Term(x[6], y[0]),
     Term(x[0], y[7]) + Term(x[1], y[6]) + Term(x[2], y[5]) + Term(x[3], y[4]) + Term(x[4], y[3]) +
     Term(x[5], y[2]) + Term(x[6], y[1]) + Term(x[7], y[0]),
     Term(x[0], y[8]) + 2 * Term(x[1], y[7]) + Term(x[2], y[6]) + 2 * Term(x[3], y[5]) + Term(x[4], y[4]) +
     2 * Term(x[5], y[3]) + Term(x[6], y[2]) + 2 * Term(x[7], y[1]) + Term(x[8], y[0]),
     Term(x[1], y[8]) + Term(x[2], y[7]) + Term(x[3], y[6]) + Term(x[4], y[5]) + Term(x[5], y[4]) +
     Term(x[6], y[3]) + Term(x[7], y[2]) + Term(x[8], y[1]),
     Term(x[2], y[8]) + 2 * Term(x[3], y[7]) + Term(x[4], y[6]) + 2 * Term(x[5], y[5]) + Term(x[6], y[4]) +
     2 * Term(x[7], y[3]) + Term(x[8], y[2]),
     Term(x[3], y[8]) + Term(x[4], y[7]) + Term(x[5], y[6]) + Term(x[6], y[5]) + Term(x[7], y[4]) +
     Term(x[8], y[3]),
     Term(x[4], y[8]) + 2 * Term(x[5], y[7]) + Term(x[6], y[6]) + 2 * Term(x[7], y[5]) + Term(x[8], y[4]),
     Term(x[5], y[8]) + Term(x[6], y[7]) + Term(x[7], y[6]) + Term(x[8], y[5]),
     Term(x[6], y[8]) + 2 * Term(x[7], y[7]) + Term(x[8], y[6]),
     Term(x[7], y[8]) + Term(x[8], y[7]),
     Term(x[8], y[8])]
  }

  // The explicit sum behind Fv for seventeen words.
  function Sum17(z: seq<int>): (v: int)
    requires |z| == 17
  {
    z[0] + z[1] * 0x2000_0000 + z[2] * 0x200_0000_0000_0000 + z[3] * 0x40_0000_0000_0000_0000_0000 +
    z[4] * 0x4_0000_0000_0000_0000_0000_0000_0000 + z[5] * 0x8000_0000_0000_0000_0000_0000_0000_0000_0000 +
    z[6] * 0x800_0000_0000_0000_0000_0000_0000_0000_0000_0000_0000 +
    z[7] * 0x100_0000_0000_0000_0000_0000_0000_0000_0000_0000_0000_0000_0000 +
    z[8] * 0x10_0000_0000_0000_0000_0000_0000_0000_0000_0000_0000_0000_0000_0000_0000 +
    z[9] * 0x2_0000_0000_0000_0000_0000_0000_0000_0000_0000_0000_0000_0000_0000_0000_0000_0000 +
    z[10] * 0x2000_0000_0000_0000_0000_0000_0000_0000_0000_0000_0000_0000_0000_0000_0000_0000_0000_0000 +
    z[11] * 0x400_0000_0000_0000_0000_0000_0000_0000_0000_0000_0000_0000_0000_0000_0000_0000_0000_0000_0000_0000 +
    z[12] * 0x40_0000_0000_0000_0000_0000_0000_0000_0000_0000_0000_0000_0000_0000_0000_0000_0000_0000_0000_0000_0000_0000 +
    z[13] * 0x8_0000_0000_0000_0000_0000_0000_0000_0000_0000_0000_0000_0000_0000_0000_0000_0000_0000_0000_0000_0000_0000_0000_0000 +
    z[14] * 0x8000_0000_0000_0000_0000_0000_0000_0000_0000_0000_0000_0000_0000_0000_0000_0000_0000_0000_0000_0000_0000_0000_0000_0000_0000 +
    z[15] * 0x1000_0000_0000_0000_0000_0000_0000_0000_0000_0000_0000_0000_0000_0000_0000_0000_0000_0000_0000_0000_0000_0000_0000_0000_0000_0000_0000 +
    z[16] * 0x100_0000_0000_0000_0000_0000_0000_0000_0000_0000_0000_0000_0000_0000_0000_0000_0000_0000_0000_0000_0000_0000_0000_0000_0000_0000_0000_0000_0000
  }

  lemma FvSum17(z: seq<int>)
    requires |z| == 17
    ensures Fv(z) == Sum17(z)
  {
    hide Fv, W;
    FvBase();
    forall i | 0 <= i < 17
      ensures Fv(z[..i + 1]) == Fv(z[..i]) + z[i] * W(i)
    {
      FvPrefix(z, i);
    }
    assert z[..0] == [] && z[..17] == z;
    Weights();
    ColumnWeights();
  }

  lemma ColumnWeights()
    ensures W(9) == 0x2_0000_0000_0000_0000_0000_0000_0000_0000_0000_0000_0000_0000_0000_0000_0000_0000
    ensures W(10) == 0x2000_0000_0000_0000_0000_0000_0000_0000_0000_0000_0000_0000_0000_0000_0000_0000_0000_0000
    ensures W(11) == 0x400_0000_0000_0000_0000_0000_0000_0000_0000_0000_0000_0000_0000_0000_0000_0000_0000_0000_0000_0000
    ensures W(12) == 0x40_0000_0000_0000_0000_0000_0000_0000_0000_0000_0000_0000_0000_0000_0000_0000_0000_0000_0000_0000_0000_0000
    ensures W(13) == 0x8_0000_0000_0000_0000_0000_0000_0000_0000_0000_0000_0000_0000_0000_0000_0000_0000_0000_0000_0000_0000_0000_0000_0000
    ensures W(14) == 0x8000_0000_0000_0000_0000_0000_0000_0000_0000_0000_0000_0000_0000_0000_0000_0000_0000_0000_0000_0000_0000_0000_0000_0000_0000
    ensures W(15) == 0x1000_0000_0000_0000_0000_0000_0000_0000_0000_0000_0000_0000_0000_0000_0000_0000_0000_0000_0000_0000_0000_0000_0000_0000_0000_0000_0000
    ensures W(16) == 0x100_0000_0000_0000_0000_0000_0000_0000_0000_0000_0000_0000_0000_0000_0000_0000_0000_0000_0000_0000_0000_0000_0000_0000_0000_0000_0000_0000_0000
  {
    hide W;
    Weights();
    WSucc(9);
    WSucc(10);
    WSucc(11);
    WSucc(12);
    WSucc(13);
    WSucc(14);
    WSucc(15);
  }

  // One limb times a whole element.
  function Row(v: int, y: seq<int>): (r: int)
    requires |y| == 9
  {
    Term(v, y[0]) + Term(v, y[1]) * 0x2000_0000 + Term(v, y[2]) * 0x200_0000_0000_0000 +
    Term(v, y[3]) * 0x40_0000_0000_0000_0000_0000 + Term(v, y[4]) * 0x4_0000_0000_0000_0000_0000_0000_0000 +
    Term(v, y[5]) * 0x8000_0000_0000_0000_0000_0000_0000_0000_0000 +
    Term(v, y[6]) * 0x800_0000_0000_0000_0000_0000_0000_0000_0000_0000_0000 +
    Term(v, y[7]) * 0x100_0000_0000_0000_0000_0000_0000_0000_0000_0000_0000_0000_0000 +
    Term(v, y[8]) * 0x10_0000_0000_0000_0000_0000_0000_0000_0000_0000_0000_0000_0000_0000_0000
  }

  lemma RowValue(v: int, y: seq<int>)
    requires |y| == 9
    ensures v * Fv(y) == Row(v, y)
  {
    hide Fv;
    FvSum9(y);
  }

  lemma RowsValue(x: seq<int>, f: int)
    requires |x| == 9
    ensures Fv(x) * f == x[0] * f + x[1] * f * 0x2000_0000 + x[2] * f * 0x200_0000_0000_0000 +
      x[3] * f * 0x40_0000_0000_0000_0000_0000 + x[4] * f * 0x4_0000_0000_0000_0000_0000_0000_0000 +
      x[5] * f * 0x8000_0000_0000_0000_0000_0000_0000_0000_0000 +
      x[6] * f * 0x800_0000_0000_0000_0000_0000_0000_0000_0000_0000_0000 +
      x[7] * f * 0x100_0000_0000_0000_0000_0000_0000_0000_0000_0000_0000_0000_0000 +
      x[8] * f * 0x10_0000_0000_0000_0000_0000_0000_0000_0000_0000_0000_0000_0000_0000_0000
  {
    hide Fv;
    FvSum9(x);
  }

  // Collecting the products by word or by limb of x is the same.
  lemma RowsAreColumns(x: seq<int>, y: seq<int>)
    requires |x| == 9 == |y|
    ensures Sum17(Columns(x, y)) == Row(x[0], y) + Row(x[1], y) * 0x2000_0000 + Row(x[2], y) * 0x200_0000_0000_0000 +
      Row(x[3], y) * 0x40_0000_0000_0000_0000_0000 + Row(x[4], y) * 0x4_0000_0000_0000_0000_0000_0000_0000 +
      Row(x[5], y) * 0x8000_0000_0000_0000_0000_0000_0000_0000_0000 +
      Row(x[6], y) * 0x800_0000_0000_0000_0000_0000_0000_0000_0000_0000_0000 +
      Row(x[7], y) * 0x100_0000_0000_0000_0000_0000_0000_0000_0000_0000_0000_0000_0000 +
      Row(x[8], y) * 0x10_0000_0000_0000_0000_0000_0000_0000_0000_0000_0000_0000_0000_0000_0000
  {
    hide Term;
  }

  lemma ColumnsValue(x: seq<int>, y: seq<int>)
    requires |x| == 9 == |y|
    ensures Fv(Columns(x, y)) == Fv(x) * Fv(y)
  {
    hide Fv, Sum17, Columns, Row;
    RowsAreColumns(x, y);
    ColumnsLength(x, y);
    FvSum17(Columns(x, y));
    RowsValue(x, Fv(y));
    RowValue(x[0], y);
    RowValue(x[1], y);
    RowValue(x[2], y);
    RowValue(x[3], y);
    RowValue(x[4], y);
    RowValue(x[5], y);
    RowValue(x[6], y);
    RowValue(x[7], y);
    RowValue(x[8], y);
  }

  lemma ColumnsLength(x: seq<int>, y: seq<int>)
    requires |x| == 9 == |y|
    ensures |Columns(x, y)| == 17
  {
  }

  // ----- no word overflows -----

  // Products of bounded limbs: 60 bits, 59 and 58 with one and two odd limbs.
  ghost predicate TermsFit(x: seq<Word>, y: seq<Word>)
    requires |x| == 9 == |y|
  {
    forall i, j :: 0 <= i < 9 && 0 <= j < 9 ==>
      0 <= Term(x[i], y[j]) <= (if i % 2 == 1 && j % 2 == 1 then 0x400_0000_0000_0000 else 0xfff_ffff_8000_0001)
  }

  // A limb may be shifted before the multiplication.
  ghost predicate ShiftsOut(x: seq<Word>, y: seq<Word>)
    requires |x| == 9 == |y|
  {
    && (forall i, j :: 0 <= i < 9 && 0 <= j < 9 ==> Term(x[i], U32(y[j] as int * 2)) == 2 * Term(x[i], y[j]))
    && (forall i, j :: 0 <= i < 9 && 0 <= j < 9 && j % 2 == 1 ==> Term(x[i], U32(y[j] as int * 4)) == 4 * Term(x[i], y[j]))
  }

  lemma TermFits(x: int, y: int, m: int, n: int)
    requires 0 <= x <= m && 0 <= y <= n
    ensures 0 <= Term(x, y) <= Term(m, n)
  {
    MulMono(x, m, y);
    MulMono(y, n, m);
  }

  lemma TermShifts(x: int, y: int, m: int)
    ensures Term(x, y * m) == m * Term(x, y)
  {
    MulAssoc(x, y, m);
  }

  lemma LooseLimb(x: seq<Word>, i: nat)
    requires Loose(x) && i < 9
    ensures x[i] < 0x4000_0000 && (i % 2 == 1 ==> x[i] < 0x2000_0000)
  {
  }

  lemma LooseTerms(x: seq<Word>, y: seq<Word>)
    requires Loose(x) && Loose(y)
    ensures TermsFit(x, y) && ShiftsOut(x, y)
  {
    hide Loose, Term, U32;
    LooseLength(x);
    LooseLength(y);
    assert Term(0x3fff_ffff, 0x3fff_ffff) == 0xfff_ffff_8000_0001
      && Term(0x2000_0000, 0x2000_0000) == 0x400_0000_0000_0000 by { LimbTerms(); }
    forall i, j | 0 <= i < 9 && 0 <= j < 9
      ensures 0 <= Term(x[i], y[j]) <= (if i % 2 == 1 && j % 2 == 1 then 0x400_0000_0000_0000 else 0xfff_ffff_8000_0001)
      ensures Term(x[i], U32(y[j] as int * 2)) == 2 * Term(x[i], y[j])
      ensures j % 2 == 1 ==> Term(x[i], U32(y[j] as int * 4)) == 4 * Term(x[i], y[j])
    {
      LooseLimb(x, i);
      LooseLimb(y, j);
      TermFits(x[i], y[j], 0x3fff_ffff, 0x3fff_ffff);
      if i % 2 == 1 && j % 2 == 1 {
        TermFits(x[i], y[j], 0x2000_0000, 0x2000_0000);
      }
      TermShifts(x[i], y[j], 2);
      TermShifts(x[i], y[j], 4);
      SmallU32(y[j] as int * 2);
      if j % 2 == 1 {
        SmallU32(y[j] as int * 4);
      }
    }
  }

  lemma LooseLength(x: seq<Word>)
    requires Loose(x)
    ensures |x| == 9
  {
  }

  lemma LimbTerms()
    ensures Term(0x3fff_ffff, 0x3fff_ffff) == 0xfff_ffff_8000_0001
    ensures Term(0x2000_0000, 0x2000_0000) == 0x400_0000_0000_0000
  {
  }

  lemma SmallU64(x: int)
    requires 0 <= x < 0x1_0000_0000_0000_0000
    ensures U64(x) == x
  {
  }

  // Every column is below 2^63, and the last one below 2^60.
  lemma ColumnsFit(x: seq<Word>, y: seq<Word>)
    requires |x| == 9 == |y| && TermsFit(x, y)
    ensures forall k :: 0 <= k < 17 ==> 0 <= Columns(x, y)[k] < 0x8000_0000_0000_0000
    ensures Columns(x, y)[16] < 0x1000_0000_0000_0000
  {
    hide Term;
  }

  lemma MulExact(x: seq<Word>, y: seq<Word>)
    requires |x| == 9 == |y| && TermsFit(x, y) && ShiftsOut(x, y)
    ensures MulWords(x, y) == Columns(x, y)
  {
    hide Term, U32, U64;
    ColumnsFit(x, y);
    forall k | 0 <= k < 17
      ensures MulWords(x, y)[k] == Columns(x, y)[k]
    {
      SmallU64(Columns(x, y)[k]);
    }
  }

  lemma TermSym(x: int, y: int)
    ensures Term(x, y) == Term(y, x)
  {
  }

  lemma SquareExact(x: seq<Word>)
    requires |x| == 9 && TermsFit(x, x) && ShiftsOut(x, x)
    ensures SquareWords(x) == Columns(x, x)
  {
    hide Term, U32, U64;
    ColumnsFit(x, x);
    TermsSym(x);
    forall k | 0 <= k < 17
      ensures SquareWords(x)[k] == Columns(x, x)[k]
    {
      SmallU64(Columns(x, x)[k]);
    }
  }

  lemma TermsSym(x: seq<int>)
    ensures forall i, j :: 0 <= i < |x| && 0 <= j < |x| ==> Term(x[i], x[j]) == Term(x[j], x[i])
  {
    hide Term;
    forall i, j | 0 <= i < |x| && 0 <= j < |x|
      ensures Term(x[i], x[j]) == Term(x[j], x[i])
    {
      TermSym(x[i], x[j]);
    }
  }

  // Both ways to multiply an element by itself form the same words, with the value of
  // the exact product.
  lemma ProductWords(x: seq<Word>, y: seq<Word>)
    requires Loose(x) && Loose(y)
    ensures |MulWords(x, y)| == 17
    ensures Fv(MulWords(x, y)) == Fv(x) * Fv(y) && MulWords(x, y)[16] < 0x1000_0000_0000_0000
    ensures x == y ==> SquareWords(x) == MulWords(x, y)
  {
    hide Fv, MulWords, SquareWords, Columns, Term, Loose, TermsFit, ShiftsOut;
    LooseLength(x);
    LooseLength(y);
    LooseTerms(x, y);
    MulExact(x, y);
    ColumnsFit(x, y);
    ColumnsLength(x, y);
    ColumnsValue(x, y);
    if x == y {
      SquareExact(x);
    }
  }

  // The values the operations keep are small enough for a product below 2^257.
  lemma SmallProduct(x: seq<Word>, y: seq<Word>)
    requires |x| == 9 == |y|
    ensures Ok(x) && Ok(y) ==> Fv(x) * Fv(y) <= (RR + P) * RR
  {
    hide Fv, Loose;
    if Ok(x) && Ok(y) {
      FvSum9(x);
      FvSum9(y);
      var b := RR + SLACK;
      MulMono(Fv(x), b, Fv(y));
      MulMono(Fv(y), b, b);
    }
  }

  // out = in1 * in2, where out may be an operand.
  method FelemMul(out: array<Word>, in1: array<Word>, in2: array<Word>)
    requires out.Length == in1.Length == in2.Length == 9
    requires Loose(in1[..]) && Loose(in2[..])
    modifies out
    ensures Ok(out[..])
    ensures Cong(Fv(out[..]) * RR, old(Fv(in1[..])) * old(Fv(in2[..])), P)
    ensures Res(out[..]) == MulP(old(Res(in1[..])), old(Res(in2[..])))
    ensures old(Ok(in1[..])) && old(Ok(in2[..])) ==> Fv(out[..]) < RR
  {
    hide Fv, MulWords, Loose, Ok, Cong, Unscaled, MulP;
    ghost var x, y := in1[..], in2[..];
    ProductWords(x, y);
    LooseLength(x);
    LooseLength(y);
    SmallProduct(x, y);
    var words := MulWords(in1[..], in2[..]);
    var tmp := new Dword[17](k requires 0 <= k < 17 => words[k]);
    assert tmp[..] == words;
    ReduceDegree(out, tmp);
    ProductStands(Fv(out[..]), Fv(x), Fv(y));
  }

  // out = in1 * in1, where out may be in1.
  method FelemSquare(out: array<Word>, in1: array<Word>)
    requires out.Length == in1.Length == 9
    requires Loose(in1[..])
    modifies out
    ensures Ok(out[..])
    ensures Cong(Fv(out[..]) * RR, old(Fv(in1[..])) * old(Fv(in1[..])), P)
    ensures Res(out[..]) == MulP(old(Res(in1[..])), old(Res(in1[..])))
    ensures old(Ok(in1[..])) ==> Fv(out[..]) < RR
  {
    hide Fv, MulWords, SquareWords, Loose, Ok, Cong, Unscaled, MulP;
    ghost var x := in1[..];
    ProductWords(x, x);
    LooseLength(x);
    SmallProduct(x, x);
    var words := SquareWords(in1[..]);
    var tmp := new Dword[17](k requires 0 <= k < 17 => words[k]);
    assert tmp[..] == words;
    ReduceDegree(out, tmp);
    ProductStands(Fv(out[..]), Fv(x), Fv(x));
  }

  method FelemAssign(out: array<Word>, in1: array<Word>)
    requires out.Length == in1.Length == 9
    modifies out
    ensures out[..] == old(in1[..])
  {
    forall k | 0 <= k < 9 {
      out[k] := in1[k];
    }
  }
}
