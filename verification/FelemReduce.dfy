/** p256_ec.c: felem_reduce_degree, a Montgomery reduction of seventeen 64-bit words. */
module FelemReduce {
  import opened Arith
  import opened BigNum
  import opened Bits
  import opened Felem
  import opened FelemLinear
  import opened FelemEliminate
  import opened FelemBounds

  type Dword = x: int | 0 <= x < 0x1_0000_0000_0000_0000

  // ----- spreading 64-bit words over the limbs they overlap -----

  // The 29 or 28 bits that stay, the bits of the next limb, and the rest.
  function Lo(k: nat, t: int): (r: int) {
    t % Radix(k)
  }

  function Mid(k: nat, t: int): (r: int) {
    (t / Radix(k)) % Radix(k + 1)
  }

  function Hi(t: int): (r: int) {
    t / 0x200_0000_0000_0000
  }

  lemma ThreeParts(k: nat, t: int)
    requires t >= 0
    ensures t == Lo(k, t) + Mid(k, t) * Radix(k) + Hi(t) * 0x200_0000_0000_0000
    ensures 0 <= Lo(k, t) < Radix(k) && 0 <= Mid(k, t) < Radix(k + 1) && Hi(t) >= 0
  {
    var r, s := Radix(k), Radix(k + 1);
    var q := t / r;
    assert r * s == 0x200_0000_0000_0000;
    assert t == q * r + t % r && q == (q / s) * s + q % s;
    DivModUnique(t, q / s, (q % s) * r + t % r, 0x200_0000_0000_0000);
  }

  // The limb words before carries: the top one takes all that is left of tmp[16].
  function SpreadLimbs(tmp: seq<int>): (z: seq<int>)
    requires |tmp| == 17
  {
    seq(18, i requires 0 <= i < 18 =>
      (if i < 17 then Lo(i, tmp[i]) else 0)
      + (if i == 0 then 0 else if i == 17 then tmp[16] / 0x2000_0000 else Mid(i - 1, tmp[i - 1]))
      + (if i < 2 then 0 else Hi(tmp[i - 2])))
  }

  // What the first i words still have to hand to limbs i and i + 1.
  ghost function Pending(tmp: seq<int>, i: nat): (v: int)
    requires i <= |tmp|
  {
    (if i == 0 then 0 else Mid(i - 1, tmp[i - 1]) + (if i == 1 then 0 else Hi(tmp[i - 2]))) * W(i)
    + (if i == 0 then 0 else Hi(tmp[i - 1])) * W(i + 1)
  }

  lemma {:induction false} SpreadPrefix(tmp: seq<int>, i: nat)
    requires |tmp| == 17 && i <= 16 && forall k :: 0 <= k < 17 ==> tmp[k] >= 0
    ensures Fv(SpreadLimbs(tmp)[..i]) + Pending(tmp, i) == Fv(tmp[..i])
  {
    hide Fv, W, Lo, Mid, Hi;
    var z := SpreadLimbs(tmp);
    if i == 0 {
      assert z[..0] == [] && tmp[..0] == [];
      assert 0 * W(0) == 0 && 0 * W(1) == 0;
    } else {
      var j := i - 1;
      SpreadPrefix(tmp, j);
      FvPrefix(z, j);
      FvPrefix(tmp, j);
      ThreeParts(j, tmp[j]);
      WSucc(j);
      WSucc(j + 1);
      var m := if j == 0 then 0 else Mid(j - 1, tmp[j - 1]) + (if j == 1 then 0 else Hi(tmp[j - 2]));
      var h := if j == 0 then 0 else Hi(tmp[j - 1]);
      PendingIs(tmp, i);
      PendingIs(tmp, j);
      SpreadStep(W(j), Radix(j), Radix(j + 1), tmp[j], Lo(j, tmp[j]), Mid(j, tmp[j]), Hi(tmp[j]), m, h);
    }
  }

  lemma PendingIs(tmp: seq<int>, i: nat)
    requires i <= |tmp|
    ensures var m := if i == 0 then 0 else Mid(i - 1, tmp[i - 1]) + (if i == 1 then 0 else Hi(tmp[i - 2]));
            var h := if i == 0 then 0 else Hi(tmp[i - 1]);
            Pending(tmp, i) == m * W(i) + h * W(i + 1)
  {
  }

  // t * w taken apart, with m and h pending from below.
  lemma SpreadStep(w: int, r: int, s: int, t: int, lo: int, mid: int, hi: int, m: int, h: int)
    requires t == lo + mid * r + hi * 0x200_0000_0000_0000 && r * s == 0x200_0000_0000_0000
    ensures (lo + m) * w + (mid + h) * (r * w) + hi * (s * (r * w)) == (m * w + h * (r * w)) + t * w
  {
    MulAddLeft(lo, m, w);
    MulAddLeft(mid, h, r * w);
    MulAddLeft(lo, mid * r, w);
    MulAddLeft(lo + mid * r, hi * 0x200_0000_0000_0000, w);
    MulAssoc(mid, r, w);
    MulAssoc(s, r, w);
    MulAssoc(hi, 0x200_0000_0000_0000, w);
  }

  lemma SpreadValue(tmp: seq<int>)
    requires |tmp| == 17 && forall k :: 0 <= k < 17 ==> tmp[k] >= 0
    ensures Fv(SpreadLimbs(tmp)) == Fv(tmp)
  {
    hide Fv, W, Lo, Mid, Hi;
    var z := SpreadLimbs(tmp);
    SpreadPrefix(tmp, 16);
    PendingIs(tmp, 16);
    FvPrefix(z, 16);
    FvPrefix(z, 17);
    FvPrefix(tmp, 16);
    assert z[..18] == z && tmp[..17] == tmp;
    WSucc(16);
    LastWord(tmp[16]);
    SpreadLast(W(16), tmp[16], Lo(16, tmp[16]), tmp[16] / 0x2000_0000, Mid(15, tmp[15]) + Hi(tmp[14]), Hi(tmp[15]));
  }

  lemma LastWord(t: int)
    requires t >= 0
    ensures t == Lo(16, t) + (t / 0x2000_0000) * 0x2000_0000
  {
  }

  lemma SpreadLast(w: int, t: int, lo: int, up: int, m: int, h: int)
    requires t == lo + up * 0x2000_0000
    ensures (lo + m) * w + (up + h) * (0x2000_0000 * w) == (m * w + h * (0x2000_0000 * w)) + t * w
  {
    MulAddLeft(lo, m, w);
    MulAddLeft(up, h, 0x2000_0000 * w);
    MulAddLeft(lo, up * 0x2000_0000, w);
    MulAssoc(up, 0x2000_0000, w);
  }

  // The two halves of a 64-bit word, as the C casts and shifts take them.
  function Low32(t: Dword): (w: Word) {
    U32(t)
  }

  function High32(t: Dword): (w: Word) {
    U32(t / 0x1_0000_0000)
  }

  lemma LoWord(t: Dword, k: nat)
    ensures k % 2 == 0 ==> Low29(Low32(t)) == Lo(k, t) < 0x2000_0000
    ensures k % 2 == 1 ==> Low28(Low32(t)) == Lo(k, t) < 0x1000_0000
  {
    LowShift29(t);
    LowShift28(t);
  }

  lemma HiWord(t: Dword)
    ensures High32(t) / 0x200_0000 == Hi(t)
  {
    var h, l := t / 0x1_0000_0000, t % 0x1_0000_0000;
    DivModUnique(t, h / 0x200_0000, (h % 0x200_0000) * 0x1_0000_0000 + l, 0x200_0000_0000_0000);
  }

  // t as a high word h and a low word l, cut again at the limb boundaries.
  lemma MidHalves(t: int, f: int, r: int, h: int, c: int, l0: int, h1: int, h0: int)
    requires (f == 8 && r == 0x2000_0000) || (f == 16 && r == 0x1000_0000)
    requires t == h * 0x1_0000_0000 + c * r + l0 && h == h1 * 0x200_0000 + h0
    requires 0 <= c < f && 0 <= l0 < r && 0 <= h0 < 0x200_0000
    ensures (t / r) % (f * 0x200_0000) == h0 * f + c && (h * f) % (f * 0x200_0000) == h0 * f
  {
    DivModUnique(t, h * f + c, l0, r);
    DivModUnique(h * f + c, h1, h0 * f + c, f * 0x200_0000);
    DivModUnique(h * f, h1, h0 * f, f * 0x200_0000);
  }

  lemma WordCuts(t: Dword)
    ensures var h, l := t / 0x1_0000_0000, t % 0x1_0000_0000;
            && High32(t) == h && Low32(t) == l
            && t == h * 0x1_0000_0000 + (l / 0x2000_0000) * 0x2000_0000 + l % 0x2000_0000
            && t == h * 0x1_0000_0000 + (l / 0x1000_0000) * 0x1000_0000 + l % 0x1000_0000
            && l / 0x2000_0000 < 8 && l / 0x1000_0000 < 16
            && h == (h / 0x200_0000) * 0x200_0000 + h % 0x200_0000
  {
  }

  // The cuts of a word at the boundary r, named.
  lemma CutAt(t: Dword, r: int) returns (h1: int, h0: int, c: int, l0: int)
    requires r in {0x1000_0000, 0x2000_0000}
    ensures High32(t) == h1 * 0x200_0000 + h0 && Low32(t) / r == c
    ensures t == (h1 * 0x200_0000 + h0) * 0x1_0000_0000 + c * r + l0
    ensures 0 <= h0 < 0x200_0000 && 0 <= l0 < r && 0 <= h1 < 0x80
    ensures 0 <= c < (if r == 0x2000_0000 then 8 else 16)
  {
    hide Low32, High32;
    WordCuts(t);
    var h, l := t / 0x1_0000_0000, t % 0x1_0000_0000;
    h1, h0, c, l0 := h / 0x200_0000, h % 0x200_0000, l / r, l % r;
  }

  lemma MidAt(k: nat, t: int)
    ensures k % 2 == 0 ==> Mid(k, t) == (t / 0x2000_0000) % 0x1000_0000
    ensures k % 2 == 1 ==> Mid(k, t) == (t / 0x1000_0000) % 0x2000_0000
  {
  }

  lemma MidWordEven(t: Dword, k: nat)
    requires k % 2 == 0
    ensures Low32(t) / 0x2000_0000 + Low28(U32(High32(t) as int * 8)) == Mid(k, t)
    ensures Or(Low32(t) / 0x2000_0000, Low28(U32(High32(t) as int * 8))) == Mid(k, t)
  {
    hide Or, Low32, High32, Low28, U32, Mid;
    var h1, h0, c, l0 := CutAt(t, 0x2000_0000);
    var h := h1 * 0x200_0000 + h0;
    MidHalves(t, 8, 0x2000_0000, h, c, l0, h1, h0);
    LowShift28(h * 8);
    MidAt(k, t);
    EightPow();
    OrShifted(h0, c, 3);
    OrSym(c, h0 * 8);
  }

  lemma MidWordOdd(t: Dword, k: nat)
    requires k % 2 == 1
    ensures Low32(t) / 0x1000_0000 + Low29(U32(High32(t) as int * 16)) == Mid(k, t)
  {
    hide Low32, High32, Low29, U32, Mid;
    var h1, h0, c, l0 := CutAt(t, 0x1000_0000);
    var h := h1 * 0x200_0000 + h0;
    MidHalves(t, 16, 0x1000_0000, h, c, l0, h1, h0);
    LowShift29(h * 16);
    MidAt(k, t);
  }

  lemma EightPow()
    ensures Pow(2, 3) == 8
  {
    assert Pow(2, 1) == 2;
    PowAdd(2, 1, 1);
    PowAdd(2, 2, 1);
  }

  // The word of limb i before the carry, for the limbs 2 to 16.
  function SpreadEven(a: Dword, b: Dword, c: Dword): (w: Word) {
    U32(U32(U32(High32(a) as int / 0x200_0000 + Low32(b) / 0x1000_0000) as int + Low29(U32(High32(b) as int * 16))) as int + Low29(Low32(c)))
  }

  function SpreadOdd(a: Dword, b: Dword, c: Dword): (w: Word) {
    U32(U32(U32(High32(a) as int / 0x200_0000 + Low32(b) / 0x2000_0000) as int + Low28(U32(High32(b) as int * 8))) as int + Low28(Low32(c)))
  }

  lemma SpreadWord(tmp: seq<Dword>, i: nat, carry: Word)
    requires |tmp| == 17 && 2 <= i < 17 && carry < 16
    ensures var z := SpreadLimbs(tmp)[i];
            && 0 <= z < 0x7000_0000
            && (i % 2 == 0 ==> U32(SpreadEven(tmp[i - 2], tmp[i - 1], tmp[i]) as int + carry) == z + carry)
            && (i % 2 == 1 ==> U32(SpreadOdd(tmp[i - 2], tmp[i - 1], tmp[i]) as int + carry) == z + carry)
  {
    hide U32, SpreadEven, SpreadOdd, Lo, Mid, Hi;
    assert SpreadLimbs(tmp)[i] == Lo(i, tmp[i]) + Mid(i - 1, tmp[i - 1]) + Hi(tmp[i - 2]);
    if i % 2 == 0 {
      EvenWord(tmp[i - 2], tmp[i - 1], tmp[i], i, carry);
    } else {
      OddWord(tmp[i - 2], tmp[i - 1], tmp[i], i, carry);
    }
  }

  lemma EvenWord(a: Dword, b: Dword, c: Dword, i: nat, carry: Word)
    requires i % 2 == 0 && i >= 2 && carry < 16
    ensures 0 <= Lo(i, c) + Mid(i - 1, b) + Hi(a) < 0x7000_0000
    ensures U32(SpreadEven(a, b, c) as int + carry) == Lo(i, c) + Mid(i - 1, b) + Hi(a) + carry
  {
    hide U32, Low29, Low32, High32, Lo, Mid, Hi;
    HiWord(a);
    LoWord(c, i);
    ThreeParts(i - 1, b);
    HiSmall(a);
    MidWordOdd(b, i - 1);
    Sum5(High32(a) / 0x200_0000, Low32(b) / 0x1000_0000, Low29(U32(High32(b) as int * 16)), Low29(Low32(c)), carry);
  }

  lemma OddWord(a: Dword, b: Dword, c: Dword, i: nat, carry: Word)
    requires i % 2 == 1 && i >= 2 && carry < 16
    ensures 0 <= Lo(i, c) + Mid(i - 1, b) + Hi(a) < 0x7000_0000
    ensures U32(SpreadOdd(a, b, c) as int + carry) == Lo(i, c) + Mid(i - 1, b) + Hi(a) + carry
  {
    hide U32, Low28, Low32, High32, Lo, Mid, Hi, Or;
    HiWord(a);
    LoWord(c, i);
    ThreeParts(i - 1, b);
    HiSmall(a);
    MidWordEven(b, i - 1);
    Sum5(High32(a) / 0x200_0000, Low32(b) / 0x2000_0000, Low28(U32(High32(b) as int * 8)), Low28(Low32(c)), carry);
  }

  lemma HiSmall(t: Dword)
    ensures 0 <= Hi(t) < 128
  {
  }

  lemma Sum5(a: nat, b: nat, c: nat, d: nat, e: nat)
    requires a + b + c + d + e < 0x1_0000_0000
    ensures U32(U32(U32(U32(a + b) + c) + d) + e) == a + b + c + d + e
    ensures U32(U32(U32(a + b) + c) + d) == a + b + c + d
  {
    SmallU32(a + b);
    SmallU32(a + b + c);
    SmallU32(a + b + c + d);
    SmallU32(a + b + c + d + e);
  }

  // The first two limbs have no word two places below.
  lemma FirstWords(tmp: seq<Dword>)
    requires |tmp| == 17
    ensures var z := SpreadLimbs(tmp);
            && Low29(Low32(tmp[0])) == z[0] < Radix(0)
            && 0 <= Or(Low32(tmp[0]) / 0x2000_0000, Low28(U32(High32(tmp[0]) as int * 8))) < 0x1000_0000
            && U32(Or(Low32(tmp[0]) / 0x2000_0000, Low28(U32(High32(tmp[0]) as int * 8))) as int + Low28(Low32(tmp[1]))) == z[1]
  {
    hide Or, U32, Low32, High32, Lo, Mid;
    LoWord(tmp[0], 0);
    LoWord(tmp[1], 1);
    MidWordEven(tmp[0], 0);
    ThreeParts(0, tmp[0]);
    ThreeParts(1, tmp[1]);
    SmallU32(Mid(0, tmp[0]) + Lo(1, tmp[1]));
  }

  // The shift of the last word is not masked: it loses bits exactly from 2^61 on.
  lemma TopShiftIff(t: Dword)
    ensures U32(High32(t) as int * 8) == High32(t) as int * 8 <==> t < 0x2000_0000_0000_0000
  {
  }

  // The last one keeps everything, which fits because tmp[16] < 2^60.
  lemma TopWord(tmp: seq<Dword>, carry: Word)
    requires |tmp| == 17 && tmp[16] < 0x1000_0000_0000_0000 && carry < 16
    ensures var z := SpreadLimbs(tmp)[17];
            && U32(U32(U32(High32(tmp[15]) as int / 0x200_0000 + Low32(tmp[16]) / 0x2000_0000) as int + U32(High32(tmp[16]) as int * 8)) as int + carry) == z + carry
            && 0 <= z + carry <= TOP
  {
    hide U32, Low32, High32, Hi;
    HiWord(tmp[15]);
    HiSmall(tmp[15]);
    WordCuts(tmp[16]);
    var h, l := tmp[16] / 0x1_0000_0000, tmp[16] % 0x1_0000_0000;
    DivModUnique(tmp[16], h * 8 + l / 0x2000_0000, l % 0x2000_0000, 0x2000_0000);
    SmallU32(h * 8);
    Sum5(High32(tmp[15]) / 0x200_0000, l / 0x2000_0000, h * 8, carry, 0);
    assert SpreadLimbs(tmp)[17] == tmp[16] / 0x2000_0000 + Hi(tmp[15]);
  }

  // Removes the overlap of the 64-bit words: the same value in eighteen limbs.
  method SpreadWords(tmp: array<Dword>) returns (t: array<Word>)
    requires tmp.Length == 17 && tmp[16] < 0x1000_0000_0000_0000
    ensures fresh(t) && t.Length == 18
    ensures Fv(t[..]) == Fv(tmp[..]) && Head(t[..], 0)
  {
    hide Fv, W, U32, Or, Low29, Low28, Low32, High32, SpreadLimbs, Chain, Kept, Moved, Radix, Head;
    ghost var x := tmp[..];
    t := new Word[18](i => 0);
    FirstWords(x);
    t[0] := Low29(Low32(tmp[0]));
    t[1] := Or(Low32(tmp[0]) / 0x2000_0000, Low28(U32(High32(tmp[0]) as int * 8)));
    t[1] := U32(t[1] as int + Low28(Low32(tmp[1])));
    var carry := SpreadMiddle(tmp, t);
    ghost var done := t[..17];
    assert tmp[..] == x;
    TopWord(x, carry);
    t[17] := U32(High32(tmp[15]) as int / 0x200_0000 + Low32(tmp[16]) / 0x2000_0000);
    t[17] := U32(t[17] as int + U32(High32(tmp[16]) as int * 8));
    t[17] := U32(t[17] as int + carry);
    assert t[..] == done + [t[17]];
    SpreadDone(done, carry, x, t[17]);
  }

  // The carry chain through the limbs 1 to 16.
  method SpreadMiddle(tmp: array<Dword>, t: array<Word>) returns (carry: Word)
    requires tmp.Length == 17 && t.Length == 18
    requires t[0] as int == SpreadLimbs(tmp[..])[0] && t[0] < Radix(0) && t[1] as int == SpreadLimbs(tmp[..])[1]
    modifies t
    ensures carry < 16 && Chain(t[..17], carry, SpreadLimbs(tmp[..]))
  {
    hide Fv, W, U32, SpreadEven, SpreadOdd, SpreadLimbs, Chain, Kept, Moved, Radix;
    ghost var x, z := tmp[..], SpreadLimbs(tmp[..]);
    SpreadLength(x);
    ChainStart(z);
    ChainNext([], 0, z, t[0], 0);
    ghost var done := [t[0]];
    assert [] + [t[0]] == done;
    ChainWord(done, 0, z, t[1]);
    done := done + [Kept(1, t[1])];
    t[1], carry := Kept(1, t[1]), Moved(1, t[1]);
    var i := 2;
    while i < 17
      invariant 2 <= i <= 17 && carry < 16 && tmp[..] == x
      invariant |done| == i && t[..i] == done && Chain(done, carry, z)
    {
      SpreadWord(x, i, carry);
      var w := if i % 2 == 0 then SpreadEven(tmp[i - 2], tmp[i - 1], tmp[i]) else SpreadOdd(tmp[i - 2], tmp[i - 1], tmp[i]);
      w := U32(w as int + carry);
      ChainWord(done, carry, z, w);
      t[i], carry := Kept(i, w), Moved(i, w);
      done := done + [Kept(i, w)];
      assert t[..i + 1] == done;
      i := i + 1;
    }
  }

  lemma SpreadLength(tmp: seq<int>)
    requires |tmp| == 17
    ensures |SpreadLimbs(tmp)| == 18
  {
  }

  lemma SpreadDone(done: seq<Word>, carry: int, tmp: seq<int>, top: Word)
    requires |tmp| == 17 && |done| == 17 && Chain(done, carry, SpreadLimbs(tmp))
    requires forall k :: 0 <= k < 17 ==> tmp[k] >= 0
    requires top == SpreadLimbs(tmp)[17] + carry && top <= TOP
    ensures Fv(done + [top]) == Fv(tmp) && Head(done + [top], 0)
  {
    hide Fv, W, SpreadLimbs;
    SpreadLength(tmp);
    var z := SpreadLimbs(tmp);
    SpreadValue(tmp);
    FvSnoc(done, top);
    FvPrefix(z, 17);
    assert z[..18] == z;
    MulAddLeft(z[17], carry, W(17));
    var g := done + [top];
    forall k | 0 <= k < 17
      ensures g[k] <= Cap(k - 0)
    {
      assert g[k] == done[k] < Radix(k);
    }
  }

  // ----- elimination -----

  // The multiple of P added so far, when the words below i have been cleared.
  ghost predicate Cleared(g: seq<int>, g0: seq<int>, m: int, i: nat) {
    Fv(g) == Fv(g0) + m * P && 0 <= m < W(i)
  }

  // The nine low limbs are cleared by adding multiples of P, less than 2^257 P in all.
  method Eliminate(t: array<Word>, ghost g0: seq<int>) returns (ghost g: seq<int>, ghost m: int)
    requires t.Length == 18 && Stands(t[..], g0) && Head(g0, 0)
    modifies t
    ensures Stands(t[..], g) && Middle(g, 8)
    ensures Cleared(g, g0, m, 9)
  {
    hide Fv, W, Stands, Head, Middle, AddAt, EvenDelta, OddDelta, Cleared;
    g, m := g0, 0;
    NothingCleared(g0);
    HeadLength(g, 0);
    var i := 0;
    while true
      invariant 0 <= i <= 8 && i % 2 == 0 && |g| == 18
      invariant Stands(t[..], g) && Head(g, i) && Cleared(g, g0, m, i)
      decreases 8 - i
    {
      EvenKeeps(g, i);
      m := EvenAdds(g, i, g0, m);
      EvenStep(t, i, g);
      g := AddAt(g, EvenDelta(g[i]), i);
      if i + 1 == 9 {
        break;
      }
      OddKeeps(g, i);
      m := OddAdds(g, i, g0, m);
      OddStep(t, i, g);
      g := AddAt(g, OddDelta(g[i + 1]), i);
      i := i + 2;
    }
  }

  lemma HeadLength(g: seq<int>, i: nat)
    requires Head(g, i)
    ensures |g| == 18
  {
  }

  lemma NothingCleared(g: seq<int>)
    ensures Cleared(g, g, 0, 0)
  {
    FvBase();
  }

  lemma EvenAdds(g: seq<int>, i: nat, g0: seq<int>, m: int) returns (next: int)
    requires |g| == 18 && i <= 8 && i % 2 == 0 && g[i] >= 0 && Cleared(g, g0, m, i)
    ensures i + |EvenDelta(g[i])| <= 18 && Cleared(AddAt(g, EvenDelta(g[i]), i), g0, next, i + 1)
  {
    hide Fv, W, EvenDelta, AddAt;
    EvenEntries(g[i]);
    EvenDeltaValue(g[i]);
    AddAtValue(g, EvenDelta(g[i]), i);
    next := AddsMultiple(m, W(i), g[i] % 0x2000_0000, 0x2000_0000);
    WSucc(i);
  }

  lemma OddAdds(g: seq<int>, i: nat, g0: seq<int>, m: int) returns (next: int)
    requires |g| == 18 && i < 8 && i % 2 == 0 && g[i + 1] >= 0 && Cleared(g, g0, m, i + 1)
    ensures i + |OddDelta(g[i + 1])| <= 18 && Cleared(AddAt(g, OddDelta(g[i + 1]), i), g0, next, i + 2)
  {
    hide Fv, W, OddDelta, AddAt;
    OddEntries(g[i + 1]);
    OddDeltaValue(g[i + 1]);
    AddAtValue(g, OddDelta(g[i + 1]), i);
    WSucc(i);
    WSucc(i + 1);
    var x := g[i + 1] % 0x1000_0000;
    next := AddsMultiple(m, W(i + 1), x, 0x1000_0000);
    WidthsOut(x, W(i));
  }

  lemma WidthsOut(x: int, w: int)
    ensures w * (x * (P * 0x2000_0000)) == (0x2000_0000 * w) * (x * P)
  {
  }

  lemma AddsMultiple(m: int, w: int, x: int, r: int) returns (next: int)
    requires 0 <= m < w && 0 <= x < r
    ensures next * P == m * P + w * (x * P) && 0 <= next < r * w
  {
    next := m + w * x;
    MulAssoc(w, x, P);
    MulAddLeft(m, w * x, P);
    MulMono(0, x, w);
    MulMono(x, r - 1, w);
    MulSubLeft(r, 1, w);
  }

  // ----- the shift by 257 bits -----

  // The words above 2^257 have widths 28, 29, ...; moved down, their lowest bit goes to
  // the limb below.
  function ShiftLimbs(g: seq<int>): (z: seq<int>)
    requires |g| == 18
  {
    [g[9] + (g[10] * 0x1000_0000) % 0x2000_0000, g[10] / 2,
     g[11] + (g[12] * 0x1000_0000) % 0x2000_0000, g[12] / 2,
     g[13] + (g[14] * 0x1000_0000) % 0x2000_0000, g[14] / 2,
     g[15] + (g[16] * 0x1000_0000) % 0x2000_0000, g[16] / 2,
     g[17]]
  }

  // The weights above 2^257.
  lemma HighWeights()
    ensures W(9) == RR && W(10) == 0x1000_0000 * RR
    ensures W(11) == 0x200_0000_0000_0000 * RR
    ensures W(12) == 0x20_0000_0000_0000_0000_0000 * RR
    ensures W(13) == 0x4_0000_0000_0000_0000_0000_0000_0000 * RR
    ensures W(14) == 0x4000_0000_0000_0000_0000_0000_0000_0000_0000 * RR
    ensures W(15) == 0x800_0000_0000_0000_0000_0000_0000_0000_0000_0000_0000 * RR
    ensures W(16) == 0x80_0000_0000_0000_0000_0000_0000_0000_0000_0000_0000_0000_0000 * RR
    ensures W(17) == 0x10_0000_0000_0000_0000_0000_0000_0000_0000_0000_0000_0000_0000_0000_0000 * RR
  {
    hide W;
    WeightTen();
    WSucc(10);
    WSucc(11);
    WSucc(12);
    WSucc(13);
    WSucc(14);
    WSucc(15);
    WSucc(16);
  }

  // The value of the nine high words, divided by 2^257.
  function HighSum(g: seq<int>): (v: int)
    requires |g| == 18
  {
    g[9] + g[10] * 0x1000_0000 + g[11] * 0x200_0000_0000_0000 + g[12] * 0x20_0000_0000_0000_0000_0000
    + g[13] * 0x4_0000_0000_0000_0000_0000_0000_0000 + g[14] * 0x4000_0000_0000_0000_0000_0000_0000_0000_0000
    + g[15] * 0x800_0000_0000_0000_0000_0000_0000_0000_0000_0000_0000
    + g[16] * 0x80_0000_0000_0000_0000_0000_0000_0000_0000_0000_0000_0000_0000
    + g[17] * 0x10_0000_0000_0000_0000_0000_0000_0000_0000_0000_0000_0000_0000_0000_0000
  }

  lemma FvHigh(g: seq<int>)
    requires |g| == 18 && (forall k :: 0 <= k < 9 ==> g[k] == 0)
    ensures Fv(g) == HighSum(g) * RR
  {
    hide Fv, W;
    FvSum9(g[..9]);
    HighWeights();
    forall i | 9 <= i < 18
      ensures Fv(g[..i + 1]) == Fv(g[..i]) + g[i] * W(i)
    {
      FvPrefix(g, i);
    }
    assert g[..18] == g;
  }

  // Once the low nine words are zero, the moved words are worth 2^257 times less.
  lemma ShiftValue(g: seq<int>)
    requires |g| == 18 && (forall k :: 0 <= k < 9 ==> g[k] == 0)
    requires g[10] >= 0 && g[12] >= 0 && g[14] >= 0 && g[16] >= 0
    ensures Fv(ShiftLimbs(g)) * RR == Fv(g)
  {
    hide Fv, W;
    FvHigh(g);
    FvSum9(ShiftLimbs(g));
    ShiftSum(g);
  }

  lemma ShiftSum(g: seq<int>)
    requires |g| == 18 && g[10] >= 0 && g[12] >= 0 && g[14] >= 0 && g[16] >= 0
    ensures Sum9(ShiftLimbs(g)) == HighSum(g)
  {
    ShiftParts(g[10], 0x1000_0000, 2);
    ShiftParts(g[12], 0x1000_0000, 2);
    ShiftParts(g[14], 0x1000_0000, 2);
    ShiftParts(g[16], 0x1000_0000, 2);
  }

  // The bounds the last loop relies on.
  ghost predicate ShiftReady(g: seq<int>) {
    && |g| == 18
    && (forall k :: 0 <= k < 9 ==> g[k] == 0)
    && g[9] >= 0
    && (forall k :: 9 < k < 18 ==> Floored(g, k))
    && (forall k :: 9 <= k < 17 ==> g[k] <= 0xc020_07f9 && (k % 2 == 1 ==> g[k] <= 0x6020_0400))
    && g[17] <= TOPMID
  }

  lemma MiddleReady(g: seq<int>)
    requires Middle(g, 8)
    ensures ShiftReady(g)
  {
    assert MidCap(1) == 0x6020_0400;
    forall k | 9 <= k < 17
      ensures g[k] <= 0xc020_07f9 && (k % 2 == 1 ==> g[k] <= 0x6020_0400)
    {
      assert g[k] <= MidCap(k - 8);
    }
  }

  // The word of an even limb: a word that stands for -1 is lifted by the carry.
  lemma ShiftEvenWord(t: seq<Word>, g: seq<int>, i: nat, carry: Word)
    requires Stands(t, g) && ShiftReady(g) && i < 8 && i % 2 == 0 && carry < 16
    requires g[i + 9] >= 0 || carry >= 1
    ensures U32(U32(t[i + 9] as int + carry) as int + Low29(U32(t[i + 10] as int * 0x1000_0000))) == ShiftLimbs(g)[i] + carry
  {
    hide U32, Low29, ShiftLimbs;
    assert Floored(g, i + 9) && Floored(g, i + 10);
    SmallU32(g[i + 10]);
    ShiftParts(g[i + 10], 0x1000_0000, 2);
    LowShift29(g[i + 10] * 0x1000_0000);
    var low := (g[i + 10] * 0x1000_0000) % 0x2000_0000;
    WrapAdd(g[i + 9], carry);
    WrapAdd(g[i + 9] + carry, low);
    SmallU32(g[i + 9] + carry + low);
    ShiftLimbsAt(g, i);
  }

  lemma ShiftLimbsAt(g: seq<int>, i: nat)
    requires |g| == 18 && i < 8 && i % 2 == 0
    ensures ShiftLimbs(g)[i] == g[i + 9] + (g[i + 10] * 0x1000_0000) % 0x2000_0000
    ensures ShiftLimbs(g)[i + 1] == g[i + 10] / 2 && ShiftLimbs(g)[8] == g[17]
  {
  }

  // The odd limb above it, whose carry lifts the next word if that stands for -1.
  lemma ShiftOddWord(t: seq<Word>, g: seq<int>, i: nat, carry: Word)
    requires Stands(t, g) && ShiftReady(g) && i < 8 && i % 2 == 0 && carry < 8
    ensures var w := U32(t[i + 10] as int / 2 + carry);
            && w as int == ShiftLimbs(g)[i + 1] + carry
            && (g[i + 11] >= 0 || w / 0x1000_0000 >= 1)
  {
    hide U32, ShiftLimbs;
    assert Floored(g, i + 10) && Floored(g, i + 11);
    SmallU32(g[i + 10]);
    SmallU32(g[i + 10] / 2 + carry);
    ShiftLimbsAt(g, i);
  }

  // Copies the words above 2^257 down, and returns the carry that is left.
  method ShiftDown(out: array<Word>, t: array<Word>, ghost g: seq<int>) returns (carry: Word)
    requires out.Length == 9 && t.Length == 18 && out != t && Stands(t[..], g) && ShiftReady(g)
    modifies out
    ensures |g| == 18 && carry <= 8 && Chain(out[..], carry, ShiftLimbs(g))
  {
    hide U32, Low29, ShiftLimbs, Stands, ShiftReady, Chain, Kept, Moved, Floored;
    ReadyFacts(g);
    ghost var x, z, done: seq<Word> := t[..], ShiftLimbs(g), [];
    ChainStart(z);
    carry := 0;
    var i := 0;
    while i < 8
      invariant 0 <= i <= 8 && i % 2 == 0 && carry < 16
      invariant t[..] == x
      invariant |done| == i && out[..i] == done && Chain(done, carry, z)
      invariant g[i + 9] >= 0 || carry >= 1
    {
      ShiftEvenWord(x, g, i, carry);
      var w := U32(U32(t[i + 9] as int + carry) as int + Low29(U32(t[i + 10] as int * 0x1000_0000)));
      ChainWord(done, carry, z, w);
      out[i], carry := Kept(i, w), Moved(i, w);
      done := done + [Kept(i, w)];
      assert out[..i + 1] == done;
      ShiftOddWord(x, g, i, carry);
      w := U32(t[i + 10] as int / 2 + carry);
      ChainWord(done, carry, z, w);
      OddMoved(i + 1, w);
      out[i + 1], carry := Kept(i + 1, w), Moved(i + 1, w);
      done := done + [Kept(i + 1, w)];
      assert out[..i + 2] == done;
      i := i + 2;
    }
    ShiftLastWord(x, g, carry);
    var w := U32(t[17] as int + carry);
    ChainWord(done, carry, z, w);
    out[8], carry := Kept(8, w), Moved(8, w);
    assert out[..] == done + [Kept(8, w)];
  }

  lemma ReadyFacts(g: seq<int>)
    requires ShiftReady(g)
    ensures |g| == 18 && g[9] >= 0 && |ShiftLimbs(g)| == 9
  {
  }

  lemma OddMoved(i: nat, w: Word)
    requires i % 2 == 1
    ensures Moved(i, w) == w / 0x1000_0000
  {
  }

  lemma ShiftLastWord(t: seq<Word>, g: seq<int>, carry: Word)
    requires Stands(t, g) && ShiftReady(g) && carry < 16 && (g[17] >= 0 || carry >= 1)
    ensures U32(t[17] as int + carry) == ShiftLimbs(g)[8] + carry
  {
    hide U32, ShiftLimbs;
    assert Floored(g, 17);
    WrapAdd(g[17], carry);
    SmallU32(g[17] + carry);
    ShiftLimbsAt(g, 0);
  }

  // out = tmp / R mod P, for every tmp that a product of two elements can give. Small
  // products leave at most one carry, and their result stays below 2^257.
  method ReduceDegree(out: array<Word>, tmp: array<Dword>)
    requires out.Length == 9 && tmp.Length == 17 && tmp[16] < 0x1000_0000_0000_0000
    modifies out
    ensures Ok(out[..])
    ensures Cong(Fv(out[..]) * RR, Fv(tmp[..]), P)
    ensures Fv(tmp[..]) <= (RR + P) * RR ==> Fv(out[..]) < RR
  {
    hide Fv, W, Head, Middle, Stands, ShiftReady, ShiftLimbs, Chain, Ok, Normal, Cong, Cleared;
    ghost var x := tmp[..];
    var t := SpreadWords(tmp);
    assert tmp[..] == x;
    ghost var g0 := t[..];
    WordsStand(t[..]);
    ghost var g, m := Eliminate(t, g0);
    MiddleReady(g);
    ReadyFacts(g);
    var carry := ShiftDown(out, t, g);
    ghost var done := out[..];
    ChainNormal(done, carry, ShiftLimbs(g));
    ReduceCarry(out, carry);
    ReducedValue(done, carry, g, g0, m, Fv(out[..]));
    Reduced(Fv(done) + carry * RR, carry, Fv(out[..]), m, Fv(x));
  }

  lemma WordsStand(t: seq<Word>)
    ensures Stands(t, t)
  {
  }

  // What is left after the shift, times 2^257, is the sum before it.
  lemma ReducedValue(done: seq<Word>, carry: int, g: seq<int>, g0: seq<int>, m: int, out: int)
    requires ShiftReady(g) && Cleared(g, g0, m, 9)
    requires |done| == 9 && Chain(done, carry, ShiftLimbs(g)) && Normal(done)
    requires out == Fv(done) + carry * RR - carry * (2 * P)
    ensures 0 <= Fv(done) < RR && (Fv(done) + carry * RR) * RR == Fv(g0) + m * P && 0 <= m < RR
  {
    hide Fv, W, ShiftLimbs, Normal, Carried;
    NormalBelow(done);
    assert Floored(g, 10) && Floored(g, 12) && Floored(g, 14) && Floored(g, 16);
    ShiftValue(g);
    ReadyFacts(g);
    Weights();
    assert ShiftLimbs(g)[..9] == ShiftLimbs(g);
  }

  lemma Reduced(v: int, carry: Word, out: int, m: int, goal: int)
    requires v * RR == goal + m * P && 0 <= m < RR
    requires out == v - carry * (2 * P) && 0 <= v - carry * RR < RR
    ensures Cong(out * RR, goal, P)
    ensures goal <= (RR + P) * RR ==> out < RR
  {
    hide Cong;
    assert out * RR == goal + (m - 2 * carry * RR) * P;
    CongIntro(out * RR, goal, m - 2 * carry * RR, P);
  }
}
