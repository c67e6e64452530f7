/** p256_ec.c: choosing without branches, by all-ones and all-zeros masks. */
module Select {
  import opened Arith
  import opened BigNum
  import opened Bits
  import opened P256Int

  predicate Mask(m: Word) {
    m == 0 || m == ONES
  }

  lemma MaskAnd(m: Word, x: nat)
    requires Mask(m) && x < B
    ensures And(m, x) == if m == 0 then 0 else x
  {
    hide And;
    AndSym(m, x);
    MaskedDigit(x, m);
  }

  lemma MaskedXor(a: Word, b: Word, m: Word)
    requires Mask(m)
    ensures Xor(a, And(m, Xor(b, a))) == if m == 0 then a else b
  {
    hide And, Xor;
    ThirtyTwo();
    XorBound(b, a, 32);
    MaskAnd(m, Xor(b, a));
    XorCancel(a, b);
    XorNothing(a);
  }

  lemma XorNothing(a: nat)
    ensures Xor(a, 0) == a
  {
  }

  // out = in when the mask is all ones, and out otherwise.
  method CopyConditional(out: array<Word>, in1: array<Word>, mask: Word)
    requires out.Length == in1.Length == 9 && Mask(mask)
    modifies out
    ensures out[..] == if mask == 0 then old(out[..]) else old(in1[..])
  {
    hide And, Xor;
    ghost var x, y := out[..], in1[..];
    var i := 0;
    while i < 9
      invariant 0 <= i <= 9
      invariant forall k :: 0 <= k < i ==> out[k] == if mask == 0 then x[k] else y[k]
      invariant forall k :: i <= k < 9 ==> out[k] == x[k] && in1[k] == y[k]
    {
      MaskedXor(out[i], in1[i], mask);
      var tmp := And(mask, Xor(in1[i], out[i]));
      out[i] := Xor(out[i], tmp);
      i := i + 1;
    }
  }

  // The mask that is all ones exactly for i == index, folded together from four bits.
  function EqualMask(i: Word, index: Word): (m: Word) {
    var a := Xor(i, index);
    var b := Or(a, a / 4);
    var c := Or(b, b / 2);
    U32(And(c, 1) - 1)
  }

  lemma FoldBits(a: nat)
    requires a < 16
    ensures And(Or(Or(a, a / 4), Or(a, a / 4) / 2), 1) == if a == 0 then 0 else 1
  {
    hide And, Or;
    var b := Or(a, a / 4);
    OrLow(a, a / 4);
    OrLow(b, b / 2);
    OrLow(a / 2, a / 4 / 2);
    LowBit(Or(b, b / 2));
  }

  lemma OrLow(a: nat, b: nat)
    ensures Or(a, b) % 2 == (if a % 2 == 1 || b % 2 == 1 then 1 else 0)
    ensures Or(a, b) / 2 == Or(a / 2, b / 2)
  {
  }

  lemma LowBit(c: nat)
    ensures And(c, 1) == c % 2
  {
    hide And;
    assert Pow(2, 1) == 2;
    AndMask(c, 1);
    AndSym(c, 1);
  }

  lemma EqualMaskIs(i: Word, index: Word)
    requires i < 16 && index < 16
    ensures EqualMask(i, index) == if i == index then ONES else 0
  {
    hide And, Or, Xor;
    assert Pow(2, 4) == 16;
    XorBound(i, index, 4);
    XorZero(i, index);
    FoldBits(Xor(i, index));
  }

  // Nine limbs of a flat table.
  function Limbs(table: seq<Word>, at: nat): (s: seq<Word>)
    requires at + 9 <= |table|
    ensures |s| == 9
  {
    table[at..at + 9]
  }

  const ZEROS: seq<Word> := [0, 0, 0, 0, 0, 0, 0, 0, 0]

  lemma MaskedOr(o: Word, t: Word, m: Word)
    requires Mask(m) && (m == 0 || o == 0)
    ensures Or(o, And(t, m)) == if m == 0 then o else t
  {
    hide And, Or;
    MaskedDigit(t, m);
    OrNothing(o);
    OrNothing(t);
  }

  lemma OrNothing(a: nat)
    ensures Or(a, 0) == a && Or(0, a) == a
  {
  }

  // The inner loop of the selection: merges nine limbs of the table under a mask.
  method MergeLimbs(out: array<Word>, table: seq<Word>, at: nat, mask: Word)
    requires out.Length == 9 && at + 9 <= |table| && Mask(mask)
    requires mask == 0 || out[..] == ZEROS
    modifies out
    ensures out[..] == if mask == 0 then old(out[..]) else Limbs(table, at)
  {
    hide And, Or;
    ghost var x := out[..];
    var j := 0;
    while j < 9
      invariant 0 <= j <= 9
      invariant forall k :: 0 <= k < j ==> out[k] == if mask == 0 then x[k] else table[at + k]
      invariant forall k :: j <= k < 9 ==> out[k] == x[k]
    {
      assert mask == 0 || out[j] == ZEROS[j];
      MaskedOr(out[j], table[at + j], mask);
      out[j] := Or(out[j], And(table[at + j], mask));
      j := j + 1;
    }
  }

  method ClearLimbs(out: array<Word>)
    requires out.Length == 9
    modifies out
    ensures out[..] == ZEROS
  {
    forall k | 0 <= k < 9 {
      out[k] := 0;
    }
  }

  // What the first entries of a table leave in one output: entry index once it is passed.
  function Chosen(table: seq<Word>, base: nat, stride: nat, index: nat, passed: bool): (s: seq<Word>)
    requires passed && index > 0 ==> base + stride * (index - 1) + 9 <= |table|
  {
    if passed && index > 0 then Limbs(table, base + stride * (index - 1)) else ZEROS
  }

  // Entry index of a table of affine points, and zero for index 0.
  method SelectAffinePoint(out_x: array<Word>, out_y: array<Word>, table: seq<Word>, index: Word)
    requires out_x.Length == out_y.Length == 9 && out_x != out_y && |table| == 270 && index < 16
    modifies out_x, out_y
    ensures out_x[..] == Chosen(table, 0, 18, index, true) && out_y[..] == Chosen(table, 9, 18, index, true)
  {
    hide EqualMask;
    ClearLimbs(out_x);
    ClearLimbs(out_y);
    var i: Word := 1;
    while i < 16
      invariant 1 <= i <= 16
      invariant out_x[..] == Chosen(table, 0, 18, index, index < i)
      invariant out_y[..] == Chosen(table, 9, 18, index, index < i)
    {
      EqualMaskIs(i, index);
      var mask := EqualMask(i, index);
      MergeLimbs(out_x, table, 18 * (i - 1), mask);
      MergeLimbs(out_y, table, 18 * (i - 1) + 9, mask);
      i := i + 1;
    }
  }

  // Entry index of a table of Jacobian points whose first entry is zero.
  method SelectJacobianPoint(out_x: array<Word>, out_y: array<Word>, out_z: array<Word>, table: seq<Word>, index: Word)
    requires out_x.Length == out_y.Length == out_z.Length == 9
    requires out_x != out_y && out_x != out_z && out_y != out_z && |table| == 432 && index < 16
    modifies out_x, out_y, out_z
    ensures out_x[..] == Chosen(table, 27, 27, index, true)
    ensures out_y[..] == Chosen(table, 36, 27, index, true)
    ensures out_z[..] == Chosen(table, 45, 27, index, true)
  {
    hide EqualMask;
    ClearLimbs(out_x);
    ClearLimbs(out_y);
    ClearLimbs(out_z);
    var i: Word := 1;
    while i < 16
      invariant 1 <= i <= 16
      invariant out_x[..] == Chosen(table, 27, 27, index, index < i)
      invariant out_y[..] == Chosen(table, 36, 27, index, index < i)
      invariant out_z[..] == Chosen(table, 45, 27, index, index < i)
    {
      EqualMaskIs(i, index);
      var mask := EqualMask(i, index);
      MergeLimbs(out_x, table, 27 * i, mask);
      MergeLimbs(out_y, table, 27 * i + 9, mask);
      MergeLimbs(out_z, table, 27 * i + 18, mask);
      i := i + 1;
    }
  }
}
