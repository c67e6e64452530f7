/** dhd_msgbuf.c: the submit paths, which fill ring slots with the ids of saved packets. */
module Rings {
  import opened Arith
  import opened PktIds
  import opened PktIdMap

  const DMA_TX: nat := 1
  const DMA_RX: nat := 2
  const RX_BUF_BURST: nat := 16
  const RXBUFPOST_THRESHOLD: nat := 32

  // A ring's write index, its size, and the request ids in its slots.
  class Ring {
    const max: nat
    const slots: array<nat>
    var write: nat

    ghost predicate Valid()
      reads this
    {
      0 < max == slots.Length && write < max
    }

    constructor (size: nat)
      requires size > 0
      ensures Valid() && fresh(slots) && max == size && write == 0
    {
      max, slots, write := size, new nat[size](i => 0), 0;
    }

    // prot_get_ring_space, where space is what CHECK_WRITE_SPACE finds: free slots in one
    // piece up to the end of the ring.
    method GetSpace(nitems: nat, space: nat) returns (start: nat, alloced: nat)
      requires Valid() && write + space <= max
      modifies this`write
      ensures Valid() && start == old(write) && alloced == Min(nitems, space)
      ensures write == (old(write) + alloced) % max
    {
      start, alloced := write, Min(nitems, space);
      if write + alloced == max {
        write := 0;
      } else {
        write := write + alloced;
      }
      WrapOnce(start + alloced, max);
    }

    // Gives back the last n slots of a grant that began at start.
    method GiveBack(n: nat, ghost start: nat, ghost alloced: nat)
      requires Valid() && start < max && start + alloced <= max && n <= alloced && 0 < n
      requires write == (start + alloced) % max
      modifies this`write
      ensures Valid() && write == (start + (alloced - n)) % max
    {
      WrapOnce(start + alloced, max);
      WrapOnce(start + (alloced - n), max);
      if write < n {
        write := max - n;
      } else {
        write := write - n;
      }
    }
  }

  lemma WrapOnce(x: nat, m: nat)
    requires 0 < m && x <= m
    ensures x % m == if x == m then 0 else x
  {
  }

  // ----- buffers to post -----

  // One attempt to get a receive buffer: whether there is one, where it is mapped (0 when
  // that fails), and how long it is.
  datatype Offer = Offer(present: bool, pkt: int, physaddr: int, len: nat)

  predicate Usable(o: Offer) {
    o.present && o.physaddr != 0
  }

  function MappingOf(o: Offer, secdma: int): (m: Mapping) {
    Mapping(o.physaddr, o.len, DMA_RX, secdma)
  }

  // The ids after the first n offers were posted.
  function Posted(s: Ids, supply: seq<Offer>, n: nat, secdma: int): (t: Ids)
    requires n <= |supply| && n <= |s.free|
    ensures |t.free| == |s.free| - n && t.items == s.items
  {
    if n == 0 then s
    else
      var t := Posted(s, supply, n - 1, secdma);
      Saved(Reserved(t, supply[n - 1].pkt), TopId(t), MappingOf(supply[n - 1], secdma))
  }

  // The id that offer k got.
  function PostedId(s: Ids, supply: seq<Offer>, k: nat, secdma: int): (id: nat)
    requires k < |supply| && k < |s.free|
  {
    TopId(Posted(s, supply, k, secdma))
  }

  lemma {:induction false} PostedSound(s: Ids, supply: seq<Offer>, n: nat, secdma: int)
    requires Sound(s) && n <= |supply| && n <= |s.free|
    ensures Sound(Posted(s, supply, n, secdma))
  {
    if n > 0 {
      hide Sound;
      PostedSound(s, supply, n - 1, secdma);
      var t := Posted(s, supply, n - 1, secdma);
      ReservedSound(t, supply[n - 1].pkt);
      SavedSound(Reserved(t, supply[n - 1].pkt), TopId(t), MappingOf(supply[n - 1], secdma));
    }
  }

  // What one more posted offer changes.
  lemma PostedStep(s: Ids, supply: seq<Offer>, n: nat, secdma: int)
    requires Sound(s) && n < |supply| && n < |s.free|
    ensures var t, id := Posted(s, supply, n, secdma), PostedId(s, supply, n, secdma);
            && id != 0 && id !in t.live
            && Posted(s, supply, n + 1, secdma).live
               == t.live[id := Locker(supply[n].pkt, Narrowed(MappingOf(supply[n], secdma)))]
  {
    hide Sound, Narrowed;
    PostedSound(s, supply, n, secdma);
    ReservedSound(Posted(s, supply, n, secdma), supply[n].pkt);
  }

  // Every posted id was free, and is live afterwards with its own packet; ids that were
  // live before stay as they were.
  lemma {:induction false} PostedLive(s: Ids, supply: seq<Offer>, n: nat, secdma: int)
    requires Sound(s) && n <= |supply| && n <= |s.free|
    ensures forall id :: id in s.live ==> id in Posted(s, supply, n, secdma).live && Posted(s, supply, n, secdma).live[id] == s.live[id]
    ensures forall k :: 0 <= k < n ==>
              var id := PostedId(s, supply, k, secdma);
              id != 0 && id !in s.live && id in Posted(s, supply, n, secdma).live
              && Posted(s, supply, n, secdma).live[id] == Locker(supply[k].pkt, Narrowed(MappingOf(supply[k], secdma)))
    decreases n
  {
    hide Sound, Narrowed, PostedId, Posted;
    if n == 0 {
      PostedNone(s, supply, secdma);
    } else {
      PostedLive(s, supply, n - 1, secdma);
      PostedStep(s, supply, n - 1, secdma);
    }
  }

  lemma PostedNone(s: Ids, supply: seq<Offer>, secdma: int)
    ensures Posted(s, supply, 0, secdma) == s
  {
  }

  // No id is posted twice.
  lemma PostedDistinct(s: Ids, supply: seq<Offer>, i: nat, k: nat, secdma: int)
    requires Sound(s) && i < k && k < |supply| && k < |s.free|
    ensures PostedId(s, supply, i, secdma) != PostedId(s, supply, k, secdma)
  {
    hide Sound, Posted, PostedId;
    PostedLive(s, supply, k, secdma);
    PostedStep(s, supply, k, secdma);
  }

  // ----- posting receive buffers -----

  // One slot: a buffer that could be had and mapped gets an id and is written; any other
  // outcome gives back what was got and leaves the ids alone.
  method FillSlot(ring: Ring, ids: Map, at: nat, o: Offer, secdma: int) returns (id: nat, released: seq<int>)
    requires ids.Valid() && at < ring.slots.Length && ring.slots != ids.keys
    modifies ring.slots, ids`avail, ids`failures, ids`saved, ids.lockers
    ensures ids.Valid()
    ensures id != 0 <==> Usable(o) && old(ids.State()).free != []
    ensures id != 0 ==> id == TopId(old(ids.State())) && ring.slots[at] == id && released == []
                        && id in Reserved(old(ids.State()), o.pkt).live
                        && ids.State() == Saved(Reserved(old(ids.State()), o.pkt), id, MappingOf(o, secdma))
    ensures id == 0 ==> ids.State() == old(ids.State()) && released == if o.present then [o.pkt] else []
    ensures forall k :: 0 <= k < ring.slots.Length && k != at ==> ring.slots[k] == old(ring.slots[k])
  {
    hide Sound;
    released := [];
    if !o.present {
      return 0, [];
    }
    if o.physaddr == 0 {
      return 0, [o.pkt];
    }
    id := ids.Alloc(o.pkt, o.physaddr, o.len, DMA_RX, secdma);
    if id == 0 {
      return 0, [o.pkt];
    }
    ghost var s := ids.State();
    ring.slots[at] := id;
    assert ids.State() == s;
  }

  // dhd_prot_rxbufpost: fills granted slots until one fails, and gives the rest back. The
  // slots are counted in eight bits, so no caller may ask for more than 255.
  method RxBufPost(ring: Ring, ids: Map, count: nat, space: nat, supply: seq<Offer>, secdma: int)
    returns (posted: int, released: seq<int>)
    requires ring.Valid() && ids.Valid() && ring.write + space <= ring.max && count <= |supply| && count <= 0xff
    requires ring.slots != ids.keys
    modifies ring`write, ring.slots, ids`avail, ids`failures, ids`saved, ids.lockers
    ensures ring.Valid() && ids.Valid()
    ensures posted == -1 <==> space == 0
    ensures posted == -1 ==> ring.write == old(ring.write) && ids.State() == old(ids.State()) && released == []
    ensures posted != -1 ==> 0 <= posted <= Min(count, space) && posted <= |old(ids.State()).free|
    ensures posted != -1 ==> ring.write == (old(ring.write) + posted) % ring.max
    ensures posted != -1 ==> ids.State() == Posted(old(ids.State()), supply, posted, secdma)
    ensures forall k :: 0 <= k < posted ==> ring.slots[old(ring.write) + k] == PostedId(old(ids.State()), supply, k, secdma)
    ensures 0 <= posted < Min(count, space) ==> !Usable(supply[posted]) || posted == |old(ids.State()).free|
    ensures released == if 0 <= posted < Min(count, space) && supply[posted].present then [supply[posted].pkt] else []
  {
    hide Sound, Saved, Reserved, TopId, Usable, MappingOf, PostedId, Map.Valid, Map.State;
    ghost var s := ids.State();
    released := [];
    var start, alloced := ring.GetSpace(count, space);
    assert ids.State() == s;
    if space == 0 {
      WrapOnce(start, ring.max);
      return -1, [];
    }
    var i, id := 0, 1;
    while i < alloced && id != 0
      invariant 0 <= i <= alloced && i <= |s.free| && ring.Valid() && ids.Valid()
      invariant ring.write == (start + alloced) % ring.max
      invariant ids.State() == Posted(s, supply, i, secdma)
      invariant forall k :: 0 <= k < i ==> ring.slots[start + k] == PostedId(s, supply, k, secdma)
      invariant id != 0 ==> released == []
      invariant id == 0 ==> i < alloced && (!Usable(supply[i]) || i == |s.free|)
                            && released == if supply[i].present then [supply[i].pkt] else []
      decreases alloced - i, id != 0
    {
      PostedNext(s, supply, i, secdma);
      id, released := FillSlot(ring, ids, start + i, supply[i], secdma);
      if id != 0 {
        i := i + 1;
      }
    }
    if i < alloced {
      ring.GiveBack(alloced - i, start, alloced);
      assert ids.State() == Posted(s, supply, i, secdma);
    }
    posted := i;
  }

  lemma PostedNext(s: Ids, supply: seq<Offer>, n: nat, secdma: int)
    requires n < |supply| && n <= |s.free|
    ensures |Posted(s, supply, n, secdma).free| == |s.free| - n
    ensures n < |s.free| ==> PostedId(s, supply, n, secdma) == TopId(Posted(s, supply, n, secdma))
    ensures n < |s.free| ==>
              var t := Posted(s, supply, n, secdma);
              TopId(t) in Reserved(t, supply[n].pkt).live
              && Posted(s, supply, n + 1, secdma) == Saved(Reserved(t, supply[n].pkt), TopId(t), MappingOf(supply[n], secdma))
  {
  }

  // ----- keeping the posted count up -----

  // Truncation to a signed 16-bit count.
  function S16(x: int): (r: int) {
    var u := x % 0x1_0000;
    if u < 0x8000 then u else u - 0x1_0000
  }

  lemma S16Range(x: int)
    requires 0 <= x < 0x1_0000
    ensures S16(x) <= x && (x > 0x7fff <==> S16(x) < 0) && (x <= 0x7fff ==> S16(x) == x)
  {
  }

  // The posted count after n buffers were returned.
  function AfterReturn(count: nat, n: nat): (c: nat)
    ensures c <= count && count - c <= n
  {
    if count >= n then count - n else 0
  }

  // What the driver does with the receive ring, and what ring and allocator offer meanwhile.
  datatype PostStep =
    | Fill(space: (nat, nat) -> nat, supply: nat -> seq<Offer>)
    | Return(rxcnt: nat, space: (nat, nat) -> nat, supply: nat -> seq<Offer>)
  {
    ghost predicate Offers(max: nat) {
      && (forall t, w: nat :: w < max ==> w + space(t, w) <= max)
      && (forall t :: |supply(t)| >= RX_BUF_BURST)
    }
  }

  function TotalReturns(steps: seq<PostStep>): (n: nat) {
    if steps == [] then 0
    else TotalReturns(steps[..|steps| - 1]) + (if steps[|steps| - 1].Return? then steps[|steps| - 1].rxcnt else 0)
  }

  // Offers that can all be used, and room for a burst or up to the end of the ring.
  ghost predicate Plenty(space: (nat, nat) -> nat, supply: nat -> seq<Offer>, max: nat) {
    && (forall t, w: nat :: w < max ==> space(t, w) >= Min(RX_BUF_BURST, max - w))
    && (forall t, k: nat :: k < RX_BUF_BURST && k < |supply(t)| ==> Usable(supply(t)[k]))
  }

  // A gap that 63 bursts can fill, one of them cut short by the end of the ring.
  ghost predicate Enough(gap: int, free: nat, max: nat) {
    gap <= 62 * RX_BUF_BURST && gap <= max && gap <= free
  }

  // What b such bursts have posted: full bursts, but for one at the end of the ring or the last.
  ghost predicate Progress(from: nat, to: nat, p: int, b: nat, gap: int, max: nat) {
    && 0 <= p <= gap && from < max && to < max
    && (p == gap || (p == RX_BUF_BURST * b && to == from + p)
        || (p > RX_BUF_BURST * (b - 1) && p >= max - from && to == from + p - max))
  }

  lemma ProgressNone(w: nat, gap: int, max: nat)
    requires w < max && gap >= 0
    ensures Progress(w, w, 0, 0, gap, max)
  {
  }

  lemma EnoughGap(gap: int, free: nat, max: nat)
    requires Enough(gap, free, max)
    ensures gap <= 0x7fff && gap <= free
  {
  }

  lemma ProgressMore(from: nat, w: nat, to: nat, p: int, q: int, b: nat, gap: int, free: nat, f: int, max: nat)
    requires Progress(from, w, p, b, gap, max) && Enough(gap, free, max) && f == Min(gap - p, RX_BUF_BURST) > 0
    requires q == Min(f, max - w) && to == if w + q == max then 0 else w + q
    ensures Progress(from, to, p + q, b + 1, gap, max)
  {
  }

  // With plenty, a burst is as long as the ring allows.
  lemma PlentyBurst(space: (nat, nat) -> nat, supply: nat -> seq<Offer>, t: nat, w: nat, to: nat, f: nat, retcount: int, free: nat, max: nat)
    requires Plenty(space, supply, max) && w < max && w + space(t, w) <= max && |supply(t)| >= RX_BUF_BURST && 0 < f <= RX_BUF_BURST
    requires -1 <= retcount && (retcount == -1 <==> space(t, w) == 0) && retcount <= Min(f, space(t, w))
    requires 0 <= retcount < Min(f, space(t, w)) ==> !Usable(supply(t)[retcount]) || free == 0
    requires free + (if retcount > 0 then retcount else 0) >= f && Advanced(w, to, if retcount > 0 then retcount else 0, max)
    ensures retcount == Min(f, max - w) > 0 && to == if w + retcount == max then 0 else w + retcount
  {
    hide Usable;
    assert space(t, w) >= Min(RX_BUF_BURST, max - w);
    assert forall k: nat :: k < RX_BUF_BURST ==> Usable(supply(t)[k]);
    WrapOnce(w + retcount, max);
  }

  lemma ProgressEnds(from: nat, to: nat, p: int, b: nat, gap: int, free: nat, max: nat)
    ensures Progress(from, to, p, b, gap, max) && Enough(gap, free, max) && b >= 63 ==> p == gap
  {
  }

  class Protocol {
    const ring: Ring
    const ids: Map
    const max_rxbufpost: nat
    var rxbufpost: nat

    ghost predicate Valid()
      reads this, ring, ids, ids.keys, ids.lockers
    {
      ring.Valid() && ids.Valid() && ring.slots != ids.keys && max_rxbufpost < 0x1_0000 && rxbufpost <= max_rxbufpost
    }

    // How many packets are held under an id.
    ghost function Held(): (n: nat)
      requires Valid()
      reads this, ring, ids, ids.keys, ids.lockers
    {
      |ids.State().live|
    }

    constructor (r: Ring, m: Map, most: nat)
      requires r.Valid() && m.Valid() && r.slots != m.keys && most < 0x1_0000
      ensures Valid() && ring == r && ids == m && max_rxbufpost == most && rxbufpost == 0
    {
      ring, ids, max_rxbufpost, rxbufpost := r, m, most, 0;
    }

    // One burst; its result is the number of buffers posted, or -1.
    method Burst(count: nat, space: nat, supply: seq<Offer>, secdma: int) returns (retcount: int)
      requires Valid() && ring.write + space <= ring.max && count <= |supply| && count <= max_rxbufpost - rxbufpost && count <= RX_BUF_BURST
      modifies this`rxbufpost, ring`write, ring.slots, ids`avail, ids`failures, ids`saved, ids.lockers
      ensures Valid() && -1 <= retcount <= Min(count, space)
      ensures rxbufpost == old(rxbufpost) + if retcount > 0 then retcount else 0
      ensures |ids.State().free| == |old(ids.State()).free| - (rxbufpost - old(rxbufpost))
      ensures retcount == -1 <==> space == 0
      ensures 0 <= retcount < Min(count, space) ==> !Usable(supply[retcount]) || ids.State().free == []
      ensures Held() - old(Held()) == rxbufpost - old(rxbufpost)
      ensures Advanced(old(ring.write), ring.write, rxbufpost - old(rxbufpost), ring.max)
    {
      hide Sound, Posted, PostedId, Usable;
      ghost var s, w := ids.State(), ring.write;
      var released;
      retcount, released := RxBufPost(ring, ids, count, space, supply, secdma);
      if retcount >= 0 {
        PostedCount(s, supply, retcount, secdma);
      } else {
        WrapOnce(w, ring.max);
      }
      if retcount > 0 {
        rxbufpost := rxbufpost + retcount;
      }
    }

    // A burst can bring nothing only if the ring has no room for it, if its first buffer
    // cannot be had or mapped, or if no id is free.
    ghost predicate Barren(space: nat, offers: seq<Offer>)
      requires Valid() && |offers| > 0
      reads this, ring, ids, ids.keys, ids.lockers
    {
      space == 0 || !Usable(offers[0]) || ids.State().free == []
    }

    // dhd_msgbuf_rxbuf_post: posts bursts until the count is full, a burst brings
    // nothing, or 63 bursts were tried. space and supply stand for what the ring and the
    // allocator offer in each burst.
    method RxFill(space: (nat, nat) -> nat, supply: nat -> seq<Offer>, secdma: int) returns (ghost bursts: nat)
      requires Valid() && forall t, w: nat :: w < ring.max ==> w + space(t, w) <= ring.max
      requires forall t :: |supply(t)| >= RX_BUF_BURST
      modifies this`rxbufpost, ring`write, ring.slots, ids`avail, ids`failures, ids`saved, ids.lockers
      ensures Valid() && old(rxbufpost) <= rxbufpost <= max_rxbufpost && bursts <= 63
      ensures Held() - old(Held()) == rxbufpost - old(rxbufpost)
      ensures |ids.State().free| == |old(ids.State()).free| - (rxbufpost - old(rxbufpost))
      ensures Advanced(old(ring.write), ring.write, rxbufpost - old(rxbufpost), ring.max)
      ensures max_rxbufpost - old(rxbufpost) > 0x7fff ==> rxbufpost == old(rxbufpost)
      ensures max_rxbufpost - old(rxbufpost) <= 0x7fff ==>
                rxbufpost == max_rxbufpost || bursts == 63
                || (bursts > 0 && Barren(space(64 - bursts, ring.write), supply(64 - bursts)))
      ensures Plenty(space, supply, ring.max) && Enough(max_rxbufpost - old(rxbufpost), |old(ids.State()).free|, ring.max)
              ==> rxbufpost == max_rxbufpost
    {
      hide Sound, Advanced, S16, Map.Valid, Map.State, Held, Usable, Plenty, Enough, Progress, Barren;
      AdvancedNone(ring.write, ring.max);
      S16Range(max_rxbufpost - rxbufpost);
      ghost var gap, free := max_rxbufpost - rxbufpost, |ids.State().free|;
      ghost var plenty := Plenty(space, supply, ring.max) && Enough(gap, free, ring.max);
      ProgressNone(ring.write, gap, ring.max);
      if plenty {
        EnoughGap(gap, free, ring.max);
      }
      var cnt := 64;
      var fillbufs := S16(max_rxbufpost - rxbufpost);
      bursts := 0;
      while fillbufs > 0
        invariant Valid() && 0 < cnt <= 64 && fillbufs <= max_rxbufpost - rxbufpost && bursts == 64 - cnt
        invariant old(rxbufpost) <= rxbufpost
        invariant Held() - old(Held()) == rxbufpost - old(rxbufpost)
        invariant |ids.State().free| == free - (rxbufpost - old(rxbufpost))
        invariant Advanced(old(ring.write), ring.write, rxbufpost - old(rxbufpost), ring.max)
        invariant gap > 0x7fff ==> fillbufs <= 0 && rxbufpost == old(rxbufpost)
        invariant gap <= 0x7fff ==>
                    fillbufs == max_rxbufpost - rxbufpost
                    || (bursts > 0 && fillbufs == 0 && Barren(space(64 - bursts, ring.write), supply(64 - bursts)))
        invariant plenty ==> fillbufs == max_rxbufpost - rxbufpost
                             && Progress(old(ring.write), ring.write, rxbufpost - old(rxbufpost), bursts, gap, ring.max)
        decreases cnt
      {
        cnt := cnt - 1;
        if cnt == 0 {
          ProgressEnds(old(ring.write), ring.write, rxbufpost - old(rxbufpost), bursts, gap, free, ring.max);
          break;
        }
        bursts := bursts + 1;
        ghost var w, r, f := ring.write, rxbufpost, Min(fillbufs, RX_BUF_BURST);
        fillbufs := FillBurst(fillbufs, cnt, space, supply, secdma);
        AdvancedMore(old(ring.write), w, ring.write, r - old(rxbufpost), rxbufpost - r, ring.max);
        if plenty {
          ProgressMore(old(ring.write), w, ring.write, r - old(rxbufpost), rxbufpost - r, bursts - 1, gap, free, f, ring.max);
        }
      }
    }

    // One burst of that loop, and what is still missing after it; 0 if it brought nothing.
    method FillBurst(fillbufs: nat, cnt: nat, space: (nat, nat) -> nat, supply: nat -> seq<Offer>, secdma: int) returns (missing: int)
      requires Valid() && ring.write + space(cnt, ring.write) <= ring.max && |supply(cnt)| >= RX_BUF_BURST
      requires 0 < fillbufs <= max_rxbufpost - rxbufpost
      modifies this`rxbufpost, ring`write, ring.slots, ids`avail, ids`failures, ids`saved, ids.lockers
      ensures Valid() && old(rxbufpost) <= rxbufpost && missing <= max_rxbufpost - rxbufpost
      ensures Held() - old(Held()) == rxbufpost - old(rxbufpost)
      ensures |ids.State().free| == |old(ids.State()).free| - (rxbufpost - old(rxbufpost))
      ensures Advanced(old(ring.write), ring.write, rxbufpost - old(rxbufpost), ring.max)
      ensures max_rxbufpost - old(rxbufpost) <= 0x7fff && rxbufpost > old(rxbufpost) ==> missing == max_rxbufpost - rxbufpost
      ensures rxbufpost == old(rxbufpost) ==> missing == 0 && Barren(space(cnt, ring.write), supply(cnt))
      ensures Plenty(space, supply, ring.max) && fillbufs <= |old(ids.State()).free| ==>
                var q := rxbufpost - old(rxbufpost);
                q == Min(Min(fillbufs, RX_BUF_BURST), ring.max - old(ring.write)) > 0
                && ring.write == if old(ring.write) + q == ring.max then 0 else old(ring.write) + q
    {
      hide Sound, Advanced, S16, Map.Valid, Map.State, Held, Usable, Plenty, Barren;
      ghost var w, f, free := ring.write, Min(fillbufs, RX_BUF_BURST), |ids.State().free|;
      var retcount := Burst(Min(fillbufs, RX_BUF_BURST), space(cnt, ring.write), supply(cnt), secdma);
      S16Range(max_rxbufpost - rxbufpost);
      BarrenBurst(space(cnt, w), supply(cnt), f, retcount);
      if retcount > 0 {
        missing := S16(max_rxbufpost - rxbufpost);
      } else {
        missing := 0;
        AdvancedStill(w, ring.write, ring.max);
      }
      if Plenty(space, supply, ring.max) && fillbufs <= free {
        PlentyBurst(space, supply, cnt, w, ring.write, f, retcount, |ids.State().free|, ring.max);
      }
    }

    // A burst that brought nothing left the ring and the ids as they are.
    lemma BarrenBurst(space: nat, offers: seq<Offer>, count: nat, retcount: int)
      requires Valid() && |offers| >= RX_BUF_BURST && 0 < count <= RX_BUF_BURST && -1 <= retcount
      requires retcount == -1 <==> space == 0
      requires 0 <= retcount < Min(count, space) ==> !Usable(offers[retcount]) || ids.State().free == []
      ensures retcount <= 0 ==> Barren(space, offers)
    {
    }

    // dhd_prot_return_rxbuf: the dongle used rxcnt buffers, and new ones are posted once
    // enough are missing.
    method ReturnRxBuf(rxcnt: nat, space: (nat, nat) -> nat, supply: nat -> seq<Offer>, secdma: int) returns (ghost bursts: nat)
      requires Valid() && forall t, w: nat :: w < ring.max ==> w + space(t, w) <= ring.max
      requires forall t :: |supply(t)| >= RX_BUF_BURST
      modifies this`rxbufpost, ring`write, ring.slots, ids`avail, ids`failures, ids`saved, ids.lockers
      ensures Valid() && AfterReturn(old(rxbufpost), rxcnt) <= rxbufpost
      ensures Held() - old(Held()) == rxbufpost - AfterReturn(old(rxbufpost), rxcnt)
      ensures Advanced(old(ring.write), ring.write, rxbufpost - AfterReturn(old(rxbufpost), rxcnt), ring.max)
      ensures AfterReturn(old(rxbufpost), rxcnt) > max_rxbufpost - RXBUFPOST_THRESHOLD ==> rxbufpost == AfterReturn(old(rxbufpost), rxcnt)
      ensures bursts <= 63
      ensures RXBUFPOST_THRESHOLD <= max_rxbufpost - AfterReturn(old(rxbufpost), rxcnt) <= 0x7fff ==>
                rxbufpost == max_rxbufpost || bursts == 63
                || (bursts > 0 && Barren(space(64 - bursts, ring.write), supply(64 - bursts)))
      ensures RXBUFPOST_THRESHOLD <= max_rxbufpost - AfterReturn(old(rxbufpost), rxcnt) && Plenty(space, supply, ring.max)
              && Enough(max_rxbufpost - AfterReturn(old(rxbufpost), rxcnt), |old(ids.State()).free|, ring.max)
              ==> rxbufpost == max_rxbufpost
    {
      hide Sound, Advanced, S16, Map.Valid, Map.State, Held;
      AdvancedNone(ring.write, ring.max);
      CountReturned(rxcnt);
      bursts := 0;
      if rxbufpost <= max_rxbufpost - RXBUFPOST_THRESHOLD {
        bursts := RxFill(space, supply, secdma);
      }
    }

    method CountReturned(rxcnt: nat)
      requires Valid()
      modifies this`rxbufpost
      ensures Valid() && rxbufpost == AfterReturn(old(rxbufpost), rxcnt) && Held() == old(Held()) && ids.State() == old(ids.State())
    {
      if rxbufpost >= rxcnt {
        rxbufpost := rxbufpost - rxcnt;
      } else {
        rxbufpost := 0;
      }
    }

    // Any run of fills and returns: the count never passes its limit, and with the buffers
    // that were returned it accounts for every packet that was posted.
    method RunPosts(steps: seq<PostStep>, secdma: int) returns (ghost returned: nat)
      requires Valid() && forall k :: 0 <= k < |steps| ==> steps[k].Offers(ring.max)
      modifies this`rxbufpost, ring`write, ring.slots, ids`avail, ids`failures, ids`saved, ids.lockers
      ensures Valid() && rxbufpost <= max_rxbufpost
      ensures Held() - old(Held()) == rxbufpost - old(rxbufpost) + returned
      ensures returned <= TotalReturns(steps)
      ensures Advanced(old(ring.write), ring.write, rxbufpost - old(rxbufpost) + returned, ring.max)
    {
      hide Sound, Advanced, Map.Valid, Map.State, Held;
      AdvancedNone(ring.write, ring.max);
      returned := 0;
      assert steps[..0] == [];
      var i := 0;
      while i < |steps|
        invariant 0 <= i <= |steps| && Valid() && returned <= TotalReturns(steps[..i])
        invariant Held() - old(Held()) == rxbufpost - old(rxbufpost) + returned
        invariant Advanced(old(ring.write), ring.write, rxbufpost - old(rxbufpost) + returned, ring.max)
      {
        ghost var w, c := ring.write, rxbufpost;
        assert steps[..i + 1][..i] == steps[..i];
        match steps[i] {
          case Fill(space, supply) =>
            var _ := RxFill(space, supply, secdma);
            AdvancedMore(old(ring.write), w, ring.write, c - old(rxbufpost) + returned, rxbufpost - c, ring.max);
          case Return(rxcnt, space, supply) =>
            var _ := ReturnRxBuf(rxcnt, space, supply, secdma);
            AdvancedMore(old(ring.write), w, ring.write, c - old(rxbufpost) + returned, rxbufpost - AfterReturn(c, rxcnt), ring.max);
            returned := returned + (c - AfterReturn(c, rxcnt));
        }
        i := i + 1;
      }
      assert steps[..i] == steps;
    }
  }

  // The write index has moved n slots around the ring.
  ghost predicate Advanced(from: nat, to: nat, n: int, m: nat) {
    m > 0 && to == (from + n) % m
  }

  lemma AdvancedNone(w: nat, m: nat)
    requires w < m
    ensures Advanced(w, w, 0, m)
  {
    DivModUnique(w, 0, w, m);
  }

  lemma AdvancedStill(w: nat, v: nat, m: nat)
    requires w < m && Advanced(w, v, 0, m)
    ensures v == w
  {
    DivModUnique(w, 0, w, m);
  }

  lemma AdvancedMore(u: nat, v: nat, w: nat, a: int, b: int, m: nat)
    requires Advanced(u, v, a, m) && Advanced(v, w, b, m)
    ensures Advanced(u, w, a + b, m)
  {
    var q, r := (u + a) / m, (v + b) / m;
    MulAddLeft(q, r, m);
    DivModUnique(u + (a + b), q + r, w, m);
  }

  lemma LiveCount(s: Ids)
    requires Sound(s)
    ensures |s.live| == s.items - |s.free|
  {
    hide Sound;
    Conserved(s);
  }

  lemma PostedCount(s: Ids, supply: seq<Offer>, n: nat, secdma: int)
    requires Sound(s) && n <= |supply| && n <= |s.free|
    ensures |Posted(s, supply, n, secdma).live| == |s.live| + n
  {
    hide Sound;
    PostedSound(s, supply, n, secdma);
    LiveCount(s);
    LiveCount(Posted(s, supply, n, secdma));
  }

  // ----- single posts -----

  // The allocation part of dhd_prot_txdata: an id is reserved before the slot is, and
  // given back when there is none. A failed post leaves ids and ring as they were.
  method TxPost(ring: Ring, ids: Map, pkt: int, space: nat, physaddr: int, len: nat, secdma: int) returns (id: nat)
    requires ring.Valid() && ids.Valid() && ring.write + space <= ring.max && ring.slots != ids.keys
    modifies ring`write, ring.slots, ids`avail, ids`failures, ids`saved, ids.lockers, ids.keys
    ensures ring.Valid() && ids.Valid()
    ensures id != 0 <==> old(ids.State()).free != [] && space > 0
    ensures id == 0 ==> ids.State() == old(ids.State()) && ring.write == old(ring.write)
    ensures id != 0 ==> id == TopId(old(ids.State())) && ring.slots[old(ring.write)] == id
                        && ring.write == (old(ring.write) + 1) % ring.max
                        && id in Reserved(old(ids.State()), pkt).live
                        && ids.State() == Saved(Reserved(old(ids.State()), pkt), id, Mapping(physaddr, len, DMA_TX, secdma))
  {
    hide Sound;
    ghost var s := ids.State();
    ReservedSound(s, pkt);
    id := ids.Reserve(pkt);
    if id == 0 {
      return;
    }
    var start, alloced := ring.GetSpace(1, space);
    assert ids.State() == Reserved(s, pkt);
    if space == 0 {
      ReserveFree(s, pkt);
      WrapOnce(start, ring.max);
      var unlocked := ids.Free(id);
      return 0;
    }
    ids.Save(pkt, id, physaddr, len, DMA_TX, secdma);
    ghost var t := ids.State();
    ring.slots[start] := id;
    assert ids.State() == t;
  }

  // dhd_prot_rxbufpost_ctrl: the slot comes before the id, and is given back without one.
  method CtrlPost(ring: Ring, ids: Map, o: Offer, space: nat, secdma: int) returns (posted: int, released: seq<int>)
    requires ring.Valid() && ids.Valid() && ring.write + space <= ring.max && ring.slots != ids.keys
    modifies ring`write, ring.slots, ids`avail, ids`failures, ids`saved, ids.lockers
    ensures ring.Valid() && ids.Valid()
    ensures posted == if Usable(o) && space > 0 && old(ids.State()).free != [] then 1 else -1
    ensures posted == -1 ==> ids.State() == old(ids.State()) && ring.write == old(ring.write)
                             && released == if o.present then [o.pkt] else []
    ensures posted == 1 ==> released == [] && ring.write == (old(ring.write) + 1) % ring.max
                            && ring.slots[old(ring.write)] == TopId(old(ids.State()))
                            && TopId(old(ids.State())) in Reserved(old(ids.State()), o.pkt).live
                            && ids.State() == Saved(Reserved(old(ids.State()), o.pkt), TopId(old(ids.State())), MappingOf(o, secdma))
  {
    hide Sound;
    ghost var s := ids.State();
    if !o.present {
      return -1, [];
    }
    if o.physaddr == 0 {
      return -1, [o.pkt];
    }
    var start, alloced := ring.GetSpace(1, space);
    assert ids.State() == s;
    if space == 0 {
      WrapOnce(start, ring.max);
      return -1, [o.pkt];
    }
    var id;
    id, released := FillSlot(ring, ids, start, o, secdma);
    if id == 0 {
      ring.GiveBack(1, start, 1);
      assert ids.State() == s;
      WrapOnce(start, ring.max);
      return -1, released;
    }
    posted := 1;
  }
}
