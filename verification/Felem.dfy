/** p256_ec.c: field elements as nine limbs of 29 and 28 bits, and their linear operations. */
module Felem {
  import opened Arith
  import opened BigNum
  import opened Bits
  import opened P256Int

  // The P-256 prime, 2^256 - 2^224 + 2^192 + 2^96 - 1.
  const P: nat := 0xffffffff00000001000000000000000000000000ffffffffffffffffffffffff

  // 2^257, the Montgomery factor and the weight above limb 8.
  const RR: nat := 0x2_0000_0000_0000_0000_0000_0000_0000_0000_0000_0000_0000_0000_0000_0000_0000_0000

  const TWO29: int := 0x2000_0000

  // Limb i is 29 bits wide for even i and 28 bits wide for odd i.
  function Radix(i: nat): (r: int) {
    if i % 2 == 0 then 0x2000_0000 else 0x1000_0000
  }

  function W(i: nat): (w: nat)
    ensures w > 0
  {
    if i == 0 then 1 else Radix(i - 1) * W(i - 1)
  }

  // The value of limbs, of any number and any size.
  function Fv(s: seq<int>): (v: int) {
    if |s| == 0 then 0 else Fv(s[..|s| - 1]) + s[|s| - 1] * W(|s| - 1)
  }

  lemma FvBase()
    ensures Fv([]) == 0 && W(0) == 1
  {
  }

  lemma FvSnoc(s: seq<int>, x: int)
    ensures Fv(s + [x]) == Fv(s) + x * W(|s|)
  {
    assert (s + [x])[..|s|] == s;
  }

  lemma FvPrefix(s: seq<int>, i: nat)
    requires i < |s|
    ensures Fv(s[..i + 1]) == Fv(s[..i]) + s[i] * W(i)
  {
    assert s[..i + 1] == s[..i] + [s[i]];
    FvSnoc(s[..i], s[i]);
  }

  lemma WSucc(i: nat)
    ensures W(i + 1) == Radix(i) * W(i)
  {
  }

  // The low bits that `& kBottom29Bits` and `& kBottom28Bits` keep.
  function Low29(x: Word): (r: Word)
    ensures r == x % 0x2000_0000
  {
    Bottom29(x);
    And(x, 0x1fff_ffff)
  }

  function Low28(x: Word): (r: Word)
    ensures r == x % 0x1000_0000
  {
    Bottom28(x);
    And(x, 0xfff_ffff)
  }

  lemma Bottom29(x: Word)
    ensures And(x, 0x1fff_ffff) == x % 0x2000_0000
  {
    hide And;
    LimbPowers();
    AndMask(x, 29);
    AndSym(x, 0x1fff_ffff);
  }

  lemma Bottom28(x: Word)
    ensures And(x, 0xfff_ffff) == x % 0x1000_0000
  {
    hide And;
    LimbPowers();
    AndMask(x, 28);
    AndSym(x, 0xfff_ffff);
  }

  lemma LimbPowers()
    ensures Pow(2, 28) == 0x1000_0000 && Pow(2, 29) == 0x2000_0000
  {
    assert Pow(2, 4) == 16;
    PowAdd(2, 4, 4);
    PowAdd(2, 8, 8);
    PowAdd(2, 16, 8);
    PowAdd(2, 24, 4);
  }

  // All ones for 0 < x <= 2^31, and zero otherwise.
  function NonZeroMask(x: Word): (m: Word)
    ensures x == 0 ==> m == 0
    ensures 0 < x <= 0x8000_0000 ==> m == ONES
  {
    U32(U32(x as int - 1) / 0x8000_0000 - 1)
  }

  // Nine limbs, each below its radix.
  predicate Normal(s: seq<Word>) {
    && |s| == 9
    && s[0] < 0x2000_0000 && s[1] < 0x1000_0000 && s[2] < 0x2000_0000 && s[3] < 0x1000_0000
    && s[4] < 0x2000_0000 && s[5] < 0x1000_0000 && s[6] < 0x2000_0000 && s[7] < 0x1000_0000
    && s[8] < 0x2000_0000
  }

  // The bounds the comments state for every operation: one bit more than the radix.
  predicate Loose(s: seq<Word>) {
    && |s| == 9
    && s[0] < 0x4000_0000 && s[1] < 0x2000_0000 && s[2] < 0x4000_0000 && s[3] < 0x2000_0000
    && s[4] < 0x4000_0000 && s[5] < 0x2000_0000 && s[6] < 0x4000_0000 && s[7] < 0x2000_0000
    && s[8] < 0x4000_0000
  }

  // How far above 2^257 a value can lie when its last carry is cancelled: 2^230.
  const SLACK: nat := 0x40_0000_0000_0000_0000_0000_0000_0000_0000_0000_0000_0000_0000_0000_0000

  // The bounds every operation really keeps: limb 8 stays below 2^29, and the value
  // hardly exceeds 2^257.
  predicate Ok(s: seq<Word>) {
    Loose(s) && s[8] < 0x2000_0000 && Fv(s) < RR + SLACK
  }

  // The explicit sum behind Fv for nine limbs.
  function Sum9(s: seq<int>): (v: int)
    requires |s| == 9
  {
    s[0]
    + s[1] * 0x2000_0000
    + s[2] * 0x200_0000_0000_0000
    + s[3] * 0x40_0000_0000_0000_0000_0000
    + s[4] * 0x4_0000_0000_0000_0000_0000_0000_0000
    + s[5] * 0x8000_0000_0000_0000_0000_0000_0000_0000_0000
    + s[6] * 0x800_0000_0000_0000_0000_0000_0000_0000_0000_0000_0000
    + s[7] * 0x100_0000_0000_0000_0000_0000_0000_0000_0000_0000_0000_0000_0000
    + s[8] * 0x10_0000_0000_0000_0000_0000_0000_0000_0000_0000_0000_0000_0000_0000_0000
  }

  lemma FvSum9(s: seq<int>)
    requires |s| == 9
    ensures Fv(s) == Sum9(s)
  {
    hide Fv;
    FvBase();
    forall i | 0 <= i < 9
      ensures Fv(s[..i + 1]) == Fv(s[..i]) + s[i] * W(i)
    {
      FvPrefix(s, i);
    }
    assert s[..0] == [] && s[..9] == s;
    Weights();
  }

  lemma Weights()
    ensures W(0) == 1 && W(1) == 0x2000_0000
    ensures W(2) == 0x200_0000_0000_0000
    ensures W(3) == 0x40_0000_0000_0000_0000_0000
    ensures W(4) == 0x4_0000_0000_0000_0000_0000_0000_0000
    ensures W(5) == 0x8000_0000_0000_0000_0000_0000_0000_0000_0000
    ensures W(6) == 0x800_0000_0000_0000_0000_0000_0000_0000_0000_0000_0000
    ensures W(7) == 0x100_0000_0000_0000_0000_0000_0000_0000_0000_0000_0000_0000_0000
    ensures W(8) == 0x10_0000_0000_0000_0000_0000_0000_0000_0000_0000_0000_0000_0000_0000_0000
    ensures W(9) == RR
  {
  }

  // Adds a multiple of P that cancels carry, a term of weight 2^257.
  method ReduceCarry(inout: array<Word>, carry: Word)
    requires inout.Length == 9 && Normal(inout[..]) && carry <= 16
    modifies inout
    ensures Fv(inout[..]) == old(Fv(inout[..])) + carry * RR - carry * (2 * P)
    ensures Loose(inout[..]) <==> inout[7] < TWO29
    ensures carry <= 8 ==> Ok(inout[..])
    ensures inout[8] == old(inout[8]) && inout[0] == old(inout[0]) + 2 * carry
    ensures inout[7] == old(inout[7]) + carry * 0x200_0000 - (if carry == 0 then 0 else 1)
    ensures carry == 0 ==> inout[..] == old(inout[..])
  {
    hide Fv, W, U32, And, Normal, Loose, Ok, NonZeroMask;
    ghost var s := inout[..];
    NormalLength(s);
    var mask := NonZeroMask(carry);
    CarryWords(s, carry, mask);
    inout[0] := U32(inout[0] + U32(carry * 2));
    inout[3] := U32(inout[3] + And(0x1000_0000, mask));
    inout[3] := U32(inout[3] as int - U32(carry * 0x800));
    inout[4] := U32(inout[4] + And(0x1fff_ffff, mask));
    inout[5] := U32(inout[5] + And(0xfff_ffff, mask));
    inout[6] := U32(inout[6] + And(0x1fff_ffff, mask));
    inout[6] := U32(inout[6] as int - U32(carry * 0x40_0000));
    inout[7] := U32(inout[7] as int - And(1, mask));
    inout[7] := U32(inout[7] + U32(carry * 0x200_0000));
    assert inout[..] == Cancelled(s, carry);
    CancelledValue(s, carry);
    CancelledBounds(s, carry, inout[..]);
  }

  // The limbs after a carry is cancelled: no 32-bit wrap survives.
  function Cancelled(s: seq<int>, c: int): (t: seq<int>)
    requires |s| == 9
  {
    if c == 0 then s
    else [s[0] + 2 * c, s[1], s[2], s[3] + 0x1000_0000 - c * 0x800, s[4] + 0x1fff_ffff,
          s[5] + 0xfff_ffff, s[6] + 0x1fff_ffff - c * 0x40_0000, s[7] - 1 + c * 0x200_0000, s[8]]
  }

  lemma CarryWords(s: seq<Word>, c: Word, mask: Word)
    requires Normal(s) && c <= 16 && mask == NonZeroMask(c)
    ensures var t := Cancelled(s, c);
            && U32(s[0] + U32(c * 2)) == t[0]
            && U32(U32(s[3] + And(0x1000_0000, mask)) as int - U32(c * 0x800)) == t[3]
            && U32(s[4] + And(0x1fff_ffff, mask)) == t[4]
            && U32(s[5] + And(0xfff_ffff, mask)) == t[5]
            && U32(U32(s[6] + And(0x1fff_ffff, mask)) as int - U32(c * 0x40_0000)) == t[6]
            && U32(U32(s[7] as int - And(1, mask)) + U32(c * 0x200_0000)) == t[7]
  {
    hide And, U32;
    MaskedDigit(0x1000_0000, mask);
    MaskedDigit(0x1fff_ffff, mask);
    MaskedDigit(0xfff_ffff, mask);
    MaskedDigit(1, mask);
    var n := if c == 0 then 0 else 1;
    TwoSteps(s[0], 0, c * 2);
    TwoSteps(s[3], n * 0x1000_0000, -(c * 0x800));
    TwoSteps(s[4], n * 0x1fff_ffff, 0);
    TwoSteps(s[5], n * 0xfff_ffff, 0);
    TwoSteps(s[6], n * 0x1fff_ffff, -(c * 0x40_0000));
    TwoSteps(s[7], -n, c * 0x200_0000);
  }

  // Two wrapping steps whose total stays in a word.
  lemma TwoSteps(w: int, a: int, b: int)
    requires 0 <= w + a + b < B
    ensures U32(U32(w + a) + b) == w + a + b
    ensures 0 <= b < B ==> U32(U32(w + a) + U32(b)) == w + a + b && U32(w + U32(b)) == U32(w + b)
    ensures 0 <= -b < B ==> U32(U32(w + a) as int - U32(-b)) == w + a + b
    ensures U32(w + a + b) == w + a + b
  {
  }

  lemma NormalLength(s: seq<Word>)
    requires Normal(s)
    ensures |s| == 9
  {
  }

  lemma CancelledBounds(s: seq<Word>, c: Word, t: seq<Word>)
    requires Normal(s) && c <= 16 && t == Cancelled(s, c)
    ensures t[8] == s[8] && t[0] == s[0] + 2 * c
    ensures t[7] == s[7] + c * 0x200_0000 - (if c == 0 then 0 else 1)
    ensures Loose(t) <==> t[7] < TWO29
    ensures c <= 8 ==> Ok(t)
  {
    hide Fv;
    NormalBelow(s);
    CancelledValue(s, c);
  }

  lemma NormalBelow(s: seq<Word>)
    requires Normal(s)
    ensures 0 <= Fv(s) < RR
  {
    hide Fv;
    FvSum9(s);
  }

  lemma CancelledValue(s: seq<Word>, c: Word)
    requires |s| == 9
    ensures Fv(Cancelled(s, c)) == Fv(s) + c * RR - c * (2 * P)
  {
    hide Fv;
    FvSum9(s);
    FvSum9(Cancelled(s, c));
  }
}
