/** p256_ec.c: the Montgomery elimination inside felem_reduce_degree.

    Eighteen words hold a number in the 29/28-bit radix. The words are 32-bit and may
    wrap below zero for a while, so the proofs follow the integers g they stand for:
    a word is always its integer modulo 2^32. */
module FelemEliminate {
  import opened Arith
  import opened BigNum
  import opened Bits
  import opened P256Int
  import opened Felem

  // ----- adding a short vector into a longer one -----

  function AddAt(g: seq<int>, d: seq<int>, i: nat): (h: seq<int>)
    requires i + |d| <= |g|
    ensures |h| == |g|
  {
    seq(|g|, k requires 0 <= k < |g| => if i <= k < i + |d| then g[k] + d[k - i] else g[k])
  }

  lemma {:induction false} FvUpdate(s: seq<int>, k: nat, v: int)
    requires k < |s|
    ensures Fv(s[k := v]) == Fv(s) + (v - s[k]) * W(k)
    decreases |s|
  {
    hide Fv, W;
    var n := |s| - 1;
    FvLast(s);
    FvLast(s[k := v]);
    if k == n {
      assert s[k := v][..n] == s[..n];
      MulSubLeft(v, s[k], W(k));
    } else {
      assert s[k := v][..n] == s[..n][k := v];
      FvUpdate(s[..n], k, v);
    }
  }

  lemma FvLast(s: seq<int>)
    requires |s| > 0
    ensures Fv(s) == Fv(s[..|s| - 1]) + s[|s| - 1] * W(|s| - 1)
  {
  }

  // From an even position on, the radix repeats.
  lemma {:induction false} WShift(i: nat, o: nat)
    requires i % 2 == 0
    ensures W(i + o) == W(i) * W(o)
    decreases o
  {
    hide Radix;
    if o > 0 {
      WShift(i, o - 1);
      WSucc(i + o - 1);
      WSucc(o - 1);
      RadixShift(i, o - 1);
      MulAssoc(W(i), Radix(o - 1), W(o - 1));
      MulSwap(W(i), Radix(o - 1), W(o - 1));
      MulAssoc(Radix(o - 1), W(i), W(o - 1));
    }
  }

  lemma RadixShift(i: nat, o: nat)
    requires i % 2 == 0
    ensures Radix(i + o) == Radix(o)
  {
  }

  lemma {:induction false} AddAtValue(g: seq<int>, d: seq<int>, i: nat)
    requires i % 2 == 0 && i + |d| <= |g|
    ensures Fv(AddAt(g, d, i)) == Fv(g) + W(i) * Fv(d)
    decreases |d|
  {
    hide Fv, W;
    if |d| == 0 {
      FvBase();
      assert d == [] && AddAt(g, d, i) == g;
    } else {
      var n := |d| - 1;
      var h := AddAt(g, d[..n], i);
      AddAtValue(g, d[..n], i);
      assert AddAt(g, d, i) == h[i + n := h[i + n] + d[n]];
      FvUpdate(h, i + n, h[i + n] + d[n]);
      FvLast(d);
      WShift(i, n);
      Distribute(W(i), Fv(d[..n]), d[n], W(n));
    }
  }

  // ----- the multiple of P that one elimination adds -----

  // What a summand under xMask comes to.
  function Gate(x: int, v: int): (r: int) {
    if x > 0 then v else 0
  }

  // The bits of x * p that stay inside a limb of 28 or 29 bits.
  function Shl28(x: int, p: int): (r: int) {
    (x * p) % 0x1000_0000
  }

  function Shl29(x: int, p: int): (r: int) {
    (x * p) % 0x2000_0000
  }

  // What the first half of the loop adds to words i, i + 1, ... when word i is w.
  function EvenDelta(w: int): (d: seq<int>) {
    var x := w % 0x2000_0000;
    [-w, w / 0x2000_0000, 0, Shl28(x, 0x400), x / 0x4_0000, 0, Shl29(x, 0x20_0000),
     x / 0x100 + Gate(x, 0x1000_0000) - Shl28(x, 0x100_0000),
     Gate(x, x - 1) - x / 0x10 + Gate(x, 0x2000_0000) - x + Shl29(x, 0x1000_0000),
     Gate(x, x / 2 - 1)]
  }

  // What the second half adds when word i + 1 is w.
  function OddDelta(w: int): (d: seq<int>) {
    var x := w % 0x1000_0000;
    [0, -w, w / 0x1000_0000, 0, Shl29(x, 0x800), x / 0x4_0000, 0, Shl28(x, 0x20_0000),
     x / 0x80 + Gate(x, 0x2000_0000) - Shl29(x, 0x200_0000),
     Gate(x, x - 1) - x / 0x10 + Gate(x, 0x1000_0000) - x,
     Gate(x, x - 1)]
  }

  // The low part of a shift, and the bits that leave it.
  lemma ShiftParts(x: int, p: int, q: int)
    requires x >= 0 && p > 0 && q > 0
    ensures p * q > 0 && x * p == (x * p) % (p * q) + (x / q) * (p * q)
    ensures 0 <= (x * p) % (p * q) <= p * q - p
  {
    var h, l := x / q, x % q;
    assert x == h * q + l;
    MulMono(1, q, p);
    MulAddLeft(h * q, l, p);
    MulAssoc(h, q, p);
    MulMono(l, q - 1, p);
    MulMono(0, l, p);
    MulSubLeft(q, 1, p);
    DivModUnique(x * p, h, l * p, p * q);
  }

  lemma EvenShifts(x: int)
    requires x >= 0
    ensures x * 0x400 == Shl28(x, 0x400) + (x / 0x4_0000) * 0x1000_0000
    ensures x * 0x20_0000 == Shl29(x, 0x20_0000) + (x / 0x100) * 0x2000_0000
    ensures x * 0x100_0000 == Shl28(x, 0x100_0000) + (x / 0x10) * 0x1000_0000
    ensures x * 0x1000_0000 == Shl29(x, 0x1000_0000) + (x / 2) * 0x2000_0000
    ensures 0 <= Shl28(x, 0x400) < 0x1000_0000 && 0 <= Shl29(x, 0x20_0000) < 0x2000_0000
    ensures 0 <= Shl28(x, 0x100_0000) <= 0xf00_0000 && 0 <= Shl29(x, 0x1000_0000) <= 0x1000_0000
  {
    ShiftParts(x, 0x400, 0x4_0000);
    ShiftParts(x, 0x20_0000, 0x100);
    ShiftParts(x, 0x100_0000, 0x10);
    ShiftParts(x, 0x1000_0000, 2);
  }

  lemma OddShifts(x: int)
    requires x >= 0
    ensures x * 0x800 == Shl29(x, 0x800) + (x / 0x4_0000) * 0x2000_0000
    ensures x * 0x20_0000 == Shl28(x, 0x20_0000) + (x / 0x80) * 0x1000_0000
    ensures x * 0x200_0000 == Shl29(x, 0x200_0000) + (x / 0x10) * 0x2000_0000
    ensures 0 <= Shl29(x, 0x800) < 0x2000_0000 && 0 <= Shl28(x, 0x20_0000) < 0x1000_0000
    ensures 0 <= Shl29(x, 0x200_0000) <= 0x1e00_0000
  {
    ShiftParts(x, 0x800, 0x4_0000);
    ShiftParts(x, 0x20_0000, 0x80);
    ShiftParts(x, 0x200_0000, 0x10);
  }

  lemma WeightTen()
    ensures W(9) == RR && W(10) == 0x1000_0000 * RR
  {
    hide W;
    Weights();
    WSucc(9);
  }

  // The first half of the loop adds x * P, and zeroes the word it starts from.
  lemma EvenDeltaValue(w: int)
    requires w >= 0
    ensures Fv(EvenDelta(w)) == (w % 0x2000_0000) * P
  {
    hide Fv, W;
    var x, d := w % 0x2000_0000, EvenDelta(w);
    FvLast(d);
    FvSum9(d[..9]);
    WeightTen();
    EvenTerms(w);
  }

  lemma EvenTerms(w: int)
    requires w >= 0
    ensures var d := EvenDelta(w); Sum9(d[..9]) + d[9] * RR == (w % 0x2000_0000) * P
  {
    var x := w % 0x2000_0000;
    var a, b, c, e := Shl28(x, 0x400), Shl29(x, 0x20_0000), Shl28(x, 0x100_0000), Shl29(x, 0x1000_0000);
    EvenShifts(x);
    EvenLinear(w, x, w / 0x2000_0000, a, x / 0x4_0000, b, x / 0x100, c, x / 0x10, e, x / 2);
  }

  lemma EvenLinear(w: int, x: int, h: int, a: int, a2: int, b: int, b2: int, c: int, c2: int, e: int, e2: int)
    requires w == h * 0x2000_0000 + x && x >= 0 && (x == 0 ==> e == 0)
    requires x * 0x400 == a + a2 * 0x1000_0000
    requires x * 0x20_0000 == b + b2 * 0x2000_0000
    requires x * 0x100_0000 == c + c2 * 0x1000_0000
    requires x * 0x1000_0000 == e + e2 * 0x2000_0000
    ensures Sum9([-w, h, 0, a, a2, 0, b, b2 + Gate(x, 0x1000_0000) - c,
                  Gate(x, x - 1) - c2 + Gate(x, 0x2000_0000) - x + e]) + (Gate(x, e2 - 1)) * RR == x * P
  {
  }

  // The second half adds x * P one word higher, and zeroes that word.
  lemma OddDeltaValue(w: int)
    requires w >= 0
    ensures Fv(OddDelta(w)) == (w % 0x1000_0000) * (P * 0x2000_0000)
  {
    hide Fv, W;
    var d := OddDelta(w);
    FvLast(d);
    FvLast(d[..10]);
    assert d[..10][..9] == d[..9];
    FvSum9(d[..9]);
    WeightTen();
    OddTerms(w);
  }

  lemma OddTerms(w: int)
    requires w >= 0
    ensures var d := OddDelta(w);
            Sum9(d[..9]) + d[9] * RR + d[10] * (0x1000_0000 * RR) == (w % 0x1000_0000) * (P * 0x2000_0000)
  {
    var x := w % 0x1000_0000;
    var a, b, c := Shl29(x, 0x800), Shl28(x, 0x20_0000), Shl29(x, 0x200_0000);
    OddShifts(x);
    OddLinear(w, x, w / 0x1000_0000, a, x / 0x4_0000, b, x / 0x80, c, x / 0x10);
  }

  lemma OddLinear(w: int, x: int, h: int, a: int, a2: int, b: int, b2: int, c: int, c2: int)
    requires w == h * 0x1000_0000 + x && x >= 0
    requires x * 0x800 == a + a2 * 0x2000_0000
    requires x * 0x20_0000 == b + b2 * 0x1000_0000
    requires x * 0x200_0000 == c + c2 * 0x2000_0000
    ensures Sum9([0, -w, h, 0, a, a2, 0, b, b2 + Gate(x, 0x2000_0000) - c])
            + (Gate(x, x - 1) - c2 + Gate(x, 0x1000_0000) - x) * RR
            + (Gate(x, x - 1)) * (0x1000_0000 * RR) == x * (P * 0x2000_0000)
  {
  }

  // ----- the words -----

  // Every word is its integer modulo 2^32.
  ghost predicate Stands(t: seq<Word>, g: seq<int>) {
    |t| == |g| && forall k :: 0 <= k < |g| ==> t[k] == U32(g[k])
  }

  // Additions modulo 2^32 can be done in any order.
  lemma WrapAdd(a: int, b: int)
    ensures U32(U32(a) + b) == U32(a + b)
  {
  }

  lemma WrapAdds(a: int, b: int, c: int, d: int, e: int, f: int)
    ensures U32(U32(a) + b) == U32(a + b)
    ensures U32(U32(U32(U32(a) + b) + c) + d) == U32(a + b + c + d)
    ensures U32(U32(U32(U32(U32(a) + b) + c) + d) + e) == U32(a + b + c + d + e)
    ensures U32(U32(U32(U32(U32(U32(a) + b) + c) + d) + e) + f) == U32(a + b + c + d + e + f)
  {
    hide U32;
    WrapAdd(a, b);
    WrapAdd(a + b, c);
    WrapAdd(a + b + c, d);
    WrapAdd(a + b + c + d, e);
    WrapAdd(a + b + c + d + e, f);
  }

  lemma MaskFacts(x: Word)
    requires x < 0x2000_0000
    ensures And(0x1000_0000, NonZeroMask(x)) == Gate(x, 0x1000_0000)
    ensures And(0x2000_0000, NonZeroMask(x)) == Gate(x, 0x2000_0000)
    ensures And(U32(x as int - 1), NonZeroMask(x)) == U32(Gate(x, x - 1))
    ensures And(U32(x / 2 - 1), NonZeroMask(x)) == U32(Gate(x, x / 2 - 1))
  {
    hide And, U32, NonZeroMask;
    ZeroWord();
    var m := NonZeroMask(x);
    MaskedDigit(0x1000_0000, m);
    MaskedDigit(0x2000_0000, m);
    MaskedDigit(U32(x as int - 1), m);
    MaskedDigit(U32(x / 2 - 1), m);
  }

  // A wrapped summand adds the same as the integer it stands for.
  lemma WrapSummand(a: int, b: int)
    ensures U32(a + U32(b)) == U32(a + b)
  {
  }

  // The statements of the first half that meet in words i + 7, i + 8 and i + 9.
  function Even7(w: Word, x: Word): (r: Word) {
    U32(U32(U32(w as int + x / 0x100) as int + And(0x1000_0000, NonZeroMask(x))) as int - Low28(U32(x as int * 0x100_0000)))
  }

  function Even8(w: Word, x: Word): (r: Word) {
    var a := U32(U32(w as int + And(U32(x as int - 1), NonZeroMask(x))) as int - x / 0x10);
    U32(U32(U32(a as int + And(0x2000_0000, NonZeroMask(x))) as int - x) as int + Low29(U32(x as int * 0x1000_0000)))
  }

  function Even9(w: Word, x: Word): (r: Word) {
    U32(w as int + And(U32(x as int / 2 - 1), NonZeroMask(x)))
  }

  lemma EvenEntries(w: int)
    ensures |EvenDelta(w)| == 10
    ensures var x, d := w % 0x2000_0000, EvenDelta(w);
            && d[0] == -w && d[1] == w / 0x2000_0000 && d[3] == Shl28(x, 0x400)
            && d[4] == x / 0x4_0000 && d[6] == Shl29(x, 0x20_0000)
  {
  }

  lemma OddEntries(w: int)
    ensures |OddDelta(w)| == 11
    ensures var x, d := w % 0x1000_0000, OddDelta(w);
            && d[1] == -w && d[2] == w / 0x1000_0000 && d[4] == Shl29(x, 0x800)
            && d[5] == x / 0x4_0000 && d[7] == Shl28(x, 0x20_0000)
  {
  }

  // Every word the first half touches moves by its entry of EvenDelta, modulo 2^32.
  lemma EvenLowFacts(w: Word, a1: int, a3: int, a4: int, a6: int)
    ensures var x, d := Low29(w), EvenDelta(w);
            && U32(w + d[0]) == 0
            && U32(U32(a1) as int + w / 0x2000_0000) == U32(a1 + d[1])
            && U32(U32(a3) as int + Low28(U32(x as int * 0x400))) == U32(a3 + d[3])
            && U32(U32(a4) as int + x / 0x4_0000) == U32(a4 + d[4])
            && U32(U32(a6) as int + Low29(U32(x as int * 0x20_0000))) == U32(a6 + d[6])
  {
    hide U32, Gate, EvenDelta, Shl28, Shl29, Low28, Low29;
    EvenEntries(w);
    var x: int := Low29(w);
    ShlWord28(x, 0x400);
    ShlWord29(x, 0x20_0000);
    ZeroWord();
    WrapAdd(a1, w / 0x2000_0000);
    WrapAdd(a3, Shl28(x, 0x400));
    WrapAdd(a4, x / 0x4_0000);
    WrapAdd(a6, Shl29(x, 0x20_0000));
  }

  lemma EvenHighFacts(w: Word, a7: int, a8: int, a9: int)
    ensures var x, d := Low29(w), EvenDelta(w);
            && Even7(U32(a7), x) == U32(a7 + d[7])
            && Even8(U32(a8), x) == U32(a8 + d[8])
            && Even9(U32(a9), x) == U32(a9 + d[9])
  {
    hide And, NonZeroMask, U32, Gate, Shl28, Shl29, Low28, Low29;
    var x: int := Low29(w);
    MaskFacts(x);
    ShlWord28(x, 0x100_0000);
    ShlWord29(x, 0x1000_0000);
    WrapAdds(a7, x / 0x100, Gate(x, 0x1000_0000), -(Shl28(x, 0x100_0000)), 0, 0);
    WrapSummand(U32(a8), Gate(x, x - 1));
    WrapAdds(a8, Gate(x, x - 1), -(x / 0x10), Gate(x, 0x2000_0000), -x, Shl29(x, 0x1000_0000));
    WrapSummand(U32(a9), Gate(x, x / 2 - 1));
    WrapAdd(a9, Gate(x, x / 2 - 1));
  }

  lemma ZeroWord()
    ensures U32(0) == 0
  {
  }

  lemma ShlWord28(x: nat, p: nat)
    ensures x * p >= 0 && Low28(U32(x * p)) == Shl28(x, p)
  {
    MulMono(0, x, p);
    LowShift28(x * p);
  }

  lemma ShlWord29(x: nat, p: nat)
    ensures x * p >= 0 && Low29(U32(x * p)) == Shl29(x, p)
  {
    MulMono(0, x, p);
    LowShift29(x * p);
  }

  lemma LowShift28(v: nat)
    ensures Low28(U32(v)) == v % 0x1000_0000
  {
    CongIntro(U32(v), v, -(v / 0x1_0000_0000) * 0x10, 0x1000_0000);
  }

  lemma LowShift29(v: nat)
    ensures Low29(U32(v)) == v % 0x2000_0000
  {
    CongIntro(U32(v), v, -(v / 0x1_0000_0000) * 8, 0x2000_0000);
  }

  // The first half of the loop: eliminates word i, for even i.
  method EvenStep(t: array<Word>, i: nat, ghost g: seq<int>)
    requires t.Length == 18 == |g| && i + 9 < 18
    requires Stands(t[..], g) && 0 <= g[i] < 0x1_0000_0000
    modifies t
    ensures Stands(t[..], AddAt(g, EvenDelta(g[i]), i))
  {
    hide U32, Low29, Low28, AddAt, EvenDelta, And, NonZeroMask, Even7, Even8, Even9;
    SmallU32(g[i]);
    EvenLowFacts(t[i], g[i + 1], g[i + 3], g[i + 4], g[i + 6]);
    EvenHighFacts(t[i], g[i + 7], g[i + 8], g[i + 9]);
    t[i + 1] := U32(t[i + 1] as int + t[i] / 0x2000_0000);
    var x := Low29(t[i]);
    t[i] := 0;
    t[i + 3] := U32(t[i + 3] as int + Low28(U32(x as int * 0x400)));
    t[i + 4] := U32(t[i + 4] as int + x / 0x4_0000);
    t[i + 6] := U32(t[i + 6] as int + Low29(U32(x as int * 0x20_0000)));
    EvenHigh(t, i, x);
    EvenPlaces(g, i);
  }

  method EvenHigh(t: array<Word>, i: nat, x: Word)
    requires t.Length == 18 && i + 9 < 18
    modifies t
    ensures t[..] == old(t[..][i + 7 := Even7(t[i + 7], x)][i + 8 := Even8(t[i + 8], x)][i + 9 := Even9(t[i + 9], x)])
  {
    hide U32, Low29, Low28, And, NonZeroMask;
    var xMask := NonZeroMask(x);
    t[i + 7] := U32(t[i + 7] as int + x / 0x100);
    t[i + 7] := U32(t[i + 7] as int + And(0x1000_0000, xMask));
    t[i + 8] := U32(t[i + 8] as int + And(U32(x as int - 1), xMask));
    t[i + 7] := U32(t[i + 7] as int - Low28(U32(x as int * 0x100_0000)));
    t[i + 8] := U32(t[i + 8] as int - x / 0x10);
    t[i + 8] := U32(t[i + 8] as int + And(0x2000_0000, xMask));
    t[i + 8] := U32(t[i + 8] as int - x);
    t[i + 8] := U32(t[i + 8] as int + Low29(U32(x as int * 0x1000_0000)));
    t[i + 9] := U32(t[i + 9] as int + And(U32(x as int / 2 - 1), xMask));
  }

  // The words a step touches, one by one.
  lemma EvenPlaces(g: seq<int>, i: nat)
    requires i + 9 < |g|
    ensures var d, h := EvenDelta(g[i]), AddAt(g, EvenDelta(g[i]), i);
            && h[i] == g[i] + d[0] && h[i + 1] == g[i + 1] + d[1] && h[i + 2] == g[i + 2] && h[i + 3] == g[i + 3] + d[3]
            && h[i + 4] == g[i + 4] + d[4] && h[i + 5] == g[i + 5] && h[i + 6] == g[i + 6] + d[6]
            && h[i + 7] == g[i + 7] + d[7] && h[i + 8] == g[i + 8] + d[8] && h[i + 9] == g[i + 9] + d[9]
            && forall k :: 0 <= k < |g| && !(i <= k <= i + 9) ==> h[k] == g[k]
  {
  }

  // The statements of the second half that meet in words i + 8, i + 9 and i + 10.
  function Odd8(w: Word, x: Word): (r: Word) {
    U32(U32(U32(w as int + x / 0x80) as int + And(0x2000_0000, NonZeroMask(x))) as int - Low29(U32(x as int * 0x200_0000)))
  }

  function Odd9(w: Word, x: Word): (r: Word) {
    var a := U32(U32(w as int + And(U32(x as int - 1), NonZeroMask(x))) as int - x / 0x10);
    U32(U32(a as int + And(0x1000_0000, NonZeroMask(x))) as int - x)
  }

  function Odd10(w: Word, x: Word): (r: Word) {
    U32(w as int + And(U32(x as int - 1), NonZeroMask(x)))
  }

  lemma OddLowFacts(w: Word, a2: int, a4: int, a5: int, a7: int)
    ensures var x, d := Low28(w), OddDelta(w);
            && U32(w + d[1]) == 0
            && U32(U32(a2) as int + w / 0x1000_0000) == U32(a2 + d[2])
            && U32(U32(a4) as int + Low29(U32(x as int * 0x800))) == U32(a4 + d[4])
            && U32(U32(a5) as int + x / 0x4_0000) == U32(a5 + d[5])
            && U32(U32(a7) as int + Low28(U32(x as int * 0x20_0000))) == U32(a7 + d[7])
  {
    hide U32, Gate, OddDelta, Shl28, Shl29, Low28, Low29;
    OddEntries(w);
    var x: int := Low28(w);
    ShlWord29(x, 0x800);
    ShlWord28(x, 0x20_0000);
    ZeroWord();
    WrapAdd(a2, w / 0x1000_0000);
    WrapAdd(a4, Shl29(x, 0x800));
    WrapAdd(a5, x / 0x4_0000);
    WrapAdd(a7, Shl28(x, 0x20_0000));
  }

  lemma OddHighFacts(w: Word, a8: int, a9: int, a10: int)
    ensures var x, d := Low28(w), OddDelta(w);
            && Odd8(U32(a8), x) == U32(a8 + d[8])
            && Odd9(U32(a9), x) == U32(a9 + d[9])
            && Odd10(U32(a10), x) == U32(a10 + d[10])
  {
    hide And, NonZeroMask, U32, Gate, Shl28, Shl29, Low28, Low29;
    var x: int := Low28(w);
    MaskFacts(x);
    ShlWord29(x, 0x200_0000);
    WrapAdds(a8, x / 0x80, Gate(x, 0x2000_0000), -(Shl29(x, 0x200_0000)), 0, 0);
    WrapSummand(U32(a9), Gate(x, x - 1));
    WrapAdds(a9, Gate(x, x - 1), -(x / 0x10), Gate(x, 0x1000_0000), -x, 0);
    WrapSummand(U32(a10), Gate(x, x - 1));
    WrapAdd(a10, Gate(x, x - 1));
  }

  // The second half of the loop: eliminates word i + 1, for even i.
  method OddStep(t: array<Word>, i: nat, ghost g: seq<int>)
    requires t.Length == 18 == |g| && i + 10 < 18
    requires Stands(t[..], g) && 0 <= g[i + 1] < 0x1_0000_0000
    modifies t
    ensures Stands(t[..], AddAt(g, OddDelta(g[i + 1]), i))
  {
    hide U32, Low29, Low28, AddAt, OddDelta, And, NonZeroMask, Odd8, Odd9, Odd10;
    SmallU32(g[i + 1]);
    OddLowFacts(t[i + 1], g[i + 2], g[i + 4], g[i + 5], g[i + 7]);
    OddHighFacts(t[i + 1], g[i + 8], g[i + 9], g[i + 10]);
    t[i + 2] := U32(t[i + 2] as int + t[i + 1] / 0x1000_0000);
    var x := Low28(t[i + 1]);
    t[i + 1] := 0;
    t[i + 4] := U32(t[i + 4] as int + Low29(U32(x as int * 0x800)));
    t[i + 5] := U32(t[i + 5] as int + x / 0x4_0000);
    t[i + 7] := U32(t[i + 7] as int + Low28(U32(x as int * 0x20_0000)));
    OddHigh(t, i, x);
    OddPlaces(g, i);
  }

  method OddHigh(t: array<Word>, i: nat, x: Word)
    requires t.Length == 18 && i + 10 < 18
    modifies t
    ensures t[..] == old(t[..][i + 8 := Odd8(t[i + 8], x)][i + 9 := Odd9(t[i + 9], x)][i + 10 := Odd10(t[i + 10], x)])
  {
    hide U32, Low29, Low28, And, NonZeroMask;
    var xMask := NonZeroMask(x);
    t[i + 8] := U32(t[i + 8] as int + x / 0x80);
    t[i + 8] := U32(t[i + 8] as int + And(0x2000_0000, xMask));
    t[i + 9] := U32(t[i + 9] as int + And(U32(x as int - 1), xMask));
    t[i + 8] := U32(t[i + 8] as int - Low29(U32(x as int * 0x200_0000)));
    t[i + 9] := U32(t[i + 9] as int - x / 0x10);
    t[i + 9] := U32(t[i + 9] as int + And(0x1000_0000, xMask));
    t[i + 9] := U32(t[i + 9] as int - x);
    t[i + 10] := U32(t[i + 10] as int + And(U32(x as int - 1), xMask));
  }

  lemma OddPlaces(g: seq<int>, i: nat)
    requires i + 10 < |g|
    ensures var d, h := OddDelta(g[i + 1]), AddAt(g, OddDelta(g[i + 1]), i);
            && h[i] == g[i] && h[i + 1] == g[i + 1] + d[1] && h[i + 2] == g[i + 2] + d[2] && h[i + 3] == g[i + 3]
            && h[i + 4] == g[i + 4] + d[4] && h[i + 5] == g[i + 5] + d[5] && h[i + 6] == g[i + 6]
            && h[i + 7] == g[i + 7] + d[7] && h[i + 8] == g[i + 8] + d[8] && h[i + 9] == g[i + 9] + d[9]
            && h[i + 10] == g[i + 10] + d[10]
            && forall k :: 0 <= k < |g| && !(i <= k <= i + 10) ==> h[k] == g[k]
  {
  }
}
