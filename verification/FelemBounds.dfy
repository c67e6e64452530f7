/** p256_ec.c: the word bounds of the Montgomery elimination.

    The comment in the source argues them in a table. Here Cap(o) bounds the word o
    places above the loop index, and Floored says when a word may stand for -1. */
module FelemBounds {
  import opened Felem
  import opened FelemEliminate

  // At the top of the loop, the bound of the word o places above i.
  function Cap(o: nat): (c: int) {
    match o
    case 0 => 0xc020_0808
    case 1 => 0x6020_03f9
    case 2 => 0xc020_07f9
    case 3 => 0x5020_03fa
    case 4 => 0xa01f_fffb
    case 5 => 0x501f_fffb
    case 6 => 0x801f_fffc
    case 7 => 0x2fff_fffd
    case 8 => 0x2fff_fffe
    case _ => Radix(o) - 1
  }

  // Between the two halves.
  function MidCap(o: nat): (c: int) {
    match o
    case 1 => 0x6020_0400
    case 2 => 0xc020_07f9
    case 3 => 0x6020_03f9
    case 4 => 0xa020_07fa
    case 5 => 0x501f_fffb
    case 6 => 0xa01f_fffb
    case 7 => 0x401f_fffc
    case 8 => 0x5fff_fffd
    case 9 => 0x1fff_fffe
    case _ => Radix(o) - 1
  }

  // The top word is only touched once, by the last half pass.
  const TOP := 0x8000_0200
  const TOPMID := 0x9000_0200

  // A word stands for a number below zero only for a moment: it is then -1, at an odd
  // place, and the word below holds a carry that will lift it again.
  ghost predicate Floored(g: seq<int>, k: nat)
    requires k < |g|
  {
    g[k] >= 0 || (k % 2 == 1 && g[k] == -1 && g[k - 1] >= 0x2000_0000)
  }

  // The loop state before the pass for words i and i + 1.
  ghost predicate Head(g: seq<int>, i: nat) {
    && |g| == 18 && i <= 8 && i % 2 == 0
    && (forall k :: 0 <= k < i ==> g[k] == 0)
    && g[i] >= 0
    && (forall k :: i < k < 18 ==> Floored(g, k))
    && (forall k :: i + 9 <= k < 18 ==> g[k] >= 0)
    && (forall k :: i <= k < 17 ==> g[k] <= Cap(k - i))
    && g[17] <= TOP
  }

  ghost predicate Middle(g: seq<int>, i: nat) {
    && |g| == 18 && i <= 8 && i % 2 == 0
    && (forall k :: 0 <= k <= i ==> g[k] == 0)
    && g[i + 1] >= 0
    && (forall k :: i + 1 < k < 18 ==> Floored(g, k))
    && (forall k :: i + 10 <= k < 18 ==> g[k] >= 0)
    && (forall k :: i + 1 <= k < 17 ==> g[k] <= MidCap(k - i))
    && g[17] <= TOPMID && (i < 8 ==> g[17] <= TOP)
  }

  lemma EvenDeltaBounds(w: int)
    requires 0 <= w < 0x1_0000_0000
    ensures var d := EvenDelta(w);
            && 0 <= d[1] < 8 && 0 <= d[3] < 0x1000_0000 && 0 <= d[4] < 0x800 && 0 <= d[6] < 0x2000_0000
            && 0 <= d[7] < 0x1020_0000 && 0 <= d[8] < 0x3000_0000 && -1 <= d[9] < 0x1000_0000
            && (d[9] == -1 ==> d[8] >= 0x2000_0000)
  {
    hide Shl28, Shl29;
    var x := w % 0x2000_0000;
    EvenShifts(x);
  }

  lemma OddDeltaBounds(w: int)
    requires 0 <= w < 0x1_0000_0000
    ensures var d := OddDelta(w);
            && 0 <= d[2] < 16 && 0 <= d[4] < 0x2000_0000 && 0 <= d[5] < 0x400 && 0 <= d[7] < 0x1000_0000
            && 0 <= d[8] < 0x2020_0000 && 0 <= d[9] < 0x1000_0000 && 0 <= d[10] < 0x1000_0000
  {
    hide Shl28, Shl29;
    var x := w % 0x1000_0000;
    OddShifts(x);
  }

  lemma EvenKeeps(g: seq<int>, i: nat)
    requires Head(g, i)
    ensures 0 <= g[i] < 0x1_0000_0000 && Middle(AddAt(g, EvenDelta(g[i]), i), i)
  {
    hide EvenDelta, AddAt, Floored, Cap, MidCap;
    EvenCaps(g, i);
    EvenFloors(g, i);
  }

  lemma EvenCaps(g: seq<int>, i: nat)
    requires Head(g, i)
    ensures 0 <= g[i] < 0x1_0000_0000 && i + |EvenDelta(g[i])| <= 18
    ensures var h := AddAt(g, EvenDelta(g[i]), i);
            && (forall k :: i + 1 <= k < 17 ==> h[k] <= MidCap(k - i))
            && h[17] <= TOPMID && (i < 8 ==> h[17] <= TOP)
  {
    hide EvenDelta, AddAt, Floored;
    assert g[i] <= Cap(0);
    EvenDeltaBounds(g[i]);
    EvenEntries(g[i]);
    EvenPlaces(g, i);
    var h := AddAt(g, EvenDelta(g[i]), i);
    forall k | i + 1 <= k < 17
      ensures h[k] <= MidCap(k - i)
    {
      assert g[k] <= Cap(k - i);
    }
  }

  lemma EvenFloors(g: seq<int>, i: nat)
    requires Head(g, i) && 0 <= g[i] < 0x1_0000_0000
    ensures i + |EvenDelta(g[i])| <= 18
    ensures var h := AddAt(g, EvenDelta(g[i]), i);
            && (forall k :: 0 <= k <= i ==> h[k] == 0)
            && h[i + 1] >= 0
            && (forall k :: i + 1 < k < 18 ==> Floored(h, k))
            && (forall k :: i + 10 <= k < 18 ==> h[k] >= 0)
  {
    hide EvenDelta, AddAt, Cap, MidCap;
    EvenDeltaBounds(g[i]);
    EvenEntries(g[i]);
    EvenPlaces(g, i);
    var h := AddAt(g, EvenDelta(g[i]), i);
    assert Floored(g, i + 1);
    forall k | i + 1 < k < 18
      ensures Floored(h, k)
    {
      assert Floored(g, k) && Floored(g, k - 1);
    }
  }

  lemma OddKeeps(g: seq<int>, i: nat)
    requires Middle(g, i) && i < 8
    ensures 0 <= g[i + 1] < 0x1_0000_0000 && Head(AddAt(g, OddDelta(g[i + 1]), i), i + 2)
  {
    hide OddDelta, AddAt, Floored, Cap, MidCap;
    OddCaps(g, i);
    OddFloors(g, i);
  }

  lemma OddCaps(g: seq<int>, i: nat)
    requires Middle(g, i) && i < 8
    ensures 0 <= g[i + 1] < 0x1_0000_0000 && i + |OddDelta(g[i + 1])| <= 18
    ensures var h := AddAt(g, OddDelta(g[i + 1]), i);
            && (forall k :: i + 2 <= k < 17 ==> h[k] <= Cap(k - i - 2))
            && h[17] <= TOP
  {
    hide OddDelta, AddAt, Floored;
    assert g[i + 1] <= MidCap(1);
    OddDeltaBounds(g[i + 1]);
    OddEntries(g[i + 1]);
    OddPlaces(g, i);
    var h := AddAt(g, OddDelta(g[i + 1]), i);
    forall k | i + 2 <= k < 17
      ensures h[k] <= Cap(k - i - 2)
    {
      assert g[k] <= MidCap(k - i);
    }
  }

  lemma OddFloors(g: seq<int>, i: nat)
    requires Middle(g, i) && i < 8 && 0 <= g[i + 1] < 0x1_0000_0000
    ensures i + |OddDelta(g[i + 1])| <= 18
    ensures var h := AddAt(g, OddDelta(g[i + 1]), i);
            && (forall k :: 0 <= k < i + 2 ==> h[k] == 0)
            && h[i + 2] >= 0
            && (forall k :: i + 2 < k < 18 ==> Floored(h, k))
            && (forall k :: i + 11 <= k < 18 ==> h[k] >= 0)
  {
    hide OddDelta, AddAt, Cap, MidCap;
    OddDeltaBounds(g[i + 1]);
    OddEntries(g[i + 1]);
    OddPlaces(g, i);
    var h := AddAt(g, OddDelta(g[i + 1]), i);
    assert Floored(g, i + 2);
    forall k | i + 2 < k < 18
      ensures Floored(h, k)
    {
      assert Floored(g, k) && Floored(g, k - 1);
    }
  }
}
