/** dhd_msgbuf.c: dhd_pktid_map, a stack of free numbered keys over an array of lockers. */
module PktIdMap {
  import opened PktIds

  const MAX_PKTID_ITEMS: nat := 8192

  // One locker of the array; its contents outlive its use.
  datatype Cell = Cell(inuse: bool, pkt: int, physaddr: int, len: nat, dma: nat, secdma: int)

  const EMPTY: Cell := Cell(false, 0, 0, 0, 0, 0)

  // What freeing an id returns: nothing, or the packet and the mapping left in its locker.
  datatype Unlocked = Nothing | Contents(pkt: int, physaddr: int, len: nat, secdma: int)

  class Map {
    const items: nat
    const keys: array<nat>
    const lockers: array<Cell>
    var avail: nat
    var failures: nat
    ghost var saved: set<nat>

    ghost predicate Valid()
      reads this, keys, lockers
    {
      && 1 <= items <= MAX_PKTID_ITEMS && keys.Length == MAX_PKTID_ITEMS + 1 && lockers.Length == items + 1
      && avail <= items && lockers[0].inuse
      && Sound(Raw())
    }

    // The ids from the bottom of the stack to its top.
    ghost function Stack(): (s: seq<nat>)
      requires avail < keys.Length
      reads this, keys
    {
      keys[1..avail + 1]
    }

    ghost function LockerAt(id: nat): (l: Locker)
      requires id < lockers.Length
      reads this, lockers
    {
      var c := lockers[id];
      Locker(c.pkt, if id in saved then Mapping(c.physaddr, c.len, c.dma, c.secdma) else Unmapped)
    }

    ghost function Raw(): (s: Ids)
      requires avail < keys.Length && lockers.Length == items + 1
      reads this, keys, lockers
    {
      Ids(items, Stack(), map id: nat | 1 <= id <= items && lockers[id].inuse :: LockerAt(id))
    }

    // Which ids are free and what is saved under the others.
    ghost function State(): (s: Ids)
      requires Valid()
      reads this, keys, lockers
      ensures Sound(s)
    {
      Raw()
    }

    constructor (num_items: nat)
      requires 1 <= num_items <= MAX_PKTID_ITEMS
      ensures Valid() && fresh(keys) && fresh(lockers)
      ensures items == num_items && State() == Fresh(num_items) && failures == 0
    {
      items, avail, failures, saved := num_items, num_items, 0, {};
      keys := new nat[MAX_PKTID_ITEMS + 1](i => 0);
      lockers := new Cell[num_items + 1](i => EMPTY);
      new;
      lockers[0] := EMPTY.(inuse := true);
      var nkey := 1;
      while nkey <= num_items
        invariant 1 <= nkey <= num_items + 1 && avail == num_items && failures == 0
        invariant lockers[0].inuse
        invariant forall k :: 1 <= k < nkey ==> keys[k] == k && !lockers[k].inuse
      {
        keys[nkey] := nkey;
        lockers[nkey] := lockers[nkey].(inuse := false);
        nkey := nkey + 1;
      }
      AllFree();
    }

    // Hands out a free id for a packet, or 0.
    method Reserve(pkt: int) returns (nkey: nat)
      requires Valid()
      modifies this`avail, this`failures, this`saved, lockers
      ensures Valid() && State() == Reserved(old(State()), pkt)
      ensures nkey == TopId(old(State())) && (nkey == 0 <==> old(avail) == 0)
      ensures nkey != 0 ==> nkey !in old(State()).live
      ensures failures == old(failures) + (if nkey == 0 then 1 else 0)
    {
      hide Sound;
      ghost var s := State();
      ReservedSound(s, pkt);
      if avail <= 0 {
        failures := failures + 1;
        assert Raw().live == s.live;
        return 0;
      }
      nkey := keys[avail];
      assert nkey == s.free[|s.free| - 1];
      avail := avail - 1;
      lockers[nkey] := lockers[nkey].(inuse := true, pkt := pkt);
      saved := saved - {nkey};
      assert Raw().free == Reserved(s, pkt).free;
      assert Raw().live == Reserved(s, pkt).live;
    }

    // Completes the locker of a reserved id.
    method Save(pkt: int, nkey: nat, physaddr: int, len: nat, dma: nat, secdma: int)
      requires Valid() && nkey in State().live && State().live[nkey].pkt == pkt
      modifies this`saved, lockers
      ensures Valid() && State() == Saved(old(State()), nkey, Mapping(physaddr, len, dma, secdma))
    {
      hide Sound;
      ghost var s := State();
      SavedSound(s, nkey, Mapping(physaddr, len, dma, secdma));
      lockers[nkey] := lockers[nkey].(dma := dma, physaddr := physaddr, len := len % 0x1_0000, secdma := secdma);
      saved := saved + {nkey};
      assert Raw().live == Saved(s, nkey, Mapping(physaddr, len, dma, secdma)).live;
      assert Raw().free == s.free;
    }

    method Alloc(pkt: int, physaddr: int, len: nat, dma: nat, secdma: int) returns (nkey: nat)
      requires Valid()
      modifies this`avail, this`failures, this`saved, lockers
      ensures Valid() && nkey == TopId(old(State())) && (nkey == 0 <==> old(avail) == 0)
      ensures nkey != 0 ==> nkey !in old(State()).live
      ensures nkey == 0 ==> State() == old(State())
      ensures nkey != 0 ==> nkey in Reserved(old(State()), pkt).live
                            && State() == Saved(Reserved(old(State()), pkt), nkey, Mapping(physaddr, len, dma, secdma))
      ensures failures == old(failures) + (if nkey == 0 then 1 else 0)
    {
      nkey := Reserve(pkt);
      if nkey != 0 {
        Save(pkt, nkey, physaddr, len, dma, secdma);
      }
    }

    // Opens a locker and makes its id available; nothing happens for an id not in use.
    method Free(nkey: nat) returns (u: Unlocked)
      requires Valid() && 1 <= nkey <= items
      modifies this`avail, keys, lockers
      ensures Valid() && State() == Freed(old(State()), nkey)
      ensures nkey !in old(State()).live ==> u == Nothing
      ensures nkey in old(State()).live ==> u.Contents? && u.pkt == old(State()).live[nkey].pkt
      ensures nkey in old(State()).live && old(State()).live[nkey].mapping.Mapping? ==>
                var m := old(State()).live[nkey].mapping;
                u.physaddr == m.physaddr && u.len == m.len && u.secdma == m.secdma
    {
      hide Sound;
      ghost var s := State();
      FreedSound(s, nkey);
      Conserved(s);
      if !lockers[nkey].inuse {
        return Nothing;
      }
      assert nkey in s.live;
      RoomForOne(s, nkey);
      avail := avail + 1;
      keys[avail] := nkey;
      lockers[nkey] := lockers[nkey].(inuse := false);
      assert Stack() == s.free + [nkey];
      assert Raw().live == s.live - {nkey};
      u := Contents(lockers[nkey].pkt, lockers[nkey].physaddr, lockers[nkey].len, lockers[nkey].secdma);
    }

    // Frees every id at once; the packets still held are given back, each once.
    method Clear() returns (freed: seq<int>)
      requires Valid()
      modifies this`avail, this`failures, keys, lockers
      ensures Valid() && State() == Fresh(items) && failures == 0
      ensures freed == Packets(old(State()).live, items)
      ensures forall p :: multiset(freed)[p] == |HeldUnder(old(State()).live, p)|
    {
      hide Sound, Fresh, HeldUnder;
      ghost var live := State().live;
      assert forall id :: id in live ==> 1 <= id <= items;
      failures := 0;
      freed := [];
      var nkey := 1;
      while nkey <= items
        invariant 1 <= nkey <= items + 1 && lockers[0].inuse && failures == 0
        invariant forall k :: 1 <= k < nkey ==> keys[k] == k && !lockers[k].inuse
        invariant forall k :: nkey <= k <= items ==> lockers[k] == old(lockers[k])
        invariant freed == Packets(live, nkey - 1)
      {
        keys[nkey] := nkey;
        assert nkey in live <==> lockers[nkey].inuse;
        if lockers[nkey].inuse {
          lockers[nkey] := lockers[nkey].(inuse := false);
          freed := freed + [lockers[nkey].pkt];
        }
        nkey := nkey + 1;
      }
      avail := items;
      AllFree();
      PacketsHeld(live, items);
    }

    lemma AllFree()
      requires 1 <= items <= MAX_PKTID_ITEMS && keys.Length == MAX_PKTID_ITEMS + 1 && lockers.Length == items + 1
      requires avail == items && lockers[0].inuse
      requires forall k :: 1 <= k <= items ==> keys[k] == k && !lockers[k].inuse
      ensures Valid() && State() == Fresh(items)
    {
      hide Sound;
      assert Stack() == Range(items);
      assert Raw().live == map[];
      FreshSound(items);
    }
  }

  // A live id leaves room on the stack.
  lemma RoomForOne(s: Ids, id: nat)
    requires Sound(s) && id in s.live
    ensures |s.free| < s.items
  {
    Conserved(s);
    assert id in s.live.Keys;
  }

  // The packets held under the ids up to n, in order.
  function Packets(live: map<nat, Locker>, n: nat): (p: seq<int>) {
    if n == 0 then [] else Packets(live, n - 1) + (if n in live then [live[n].pkt] else [])
  }

  // The live ids that hold a packet.
  ghost function HeldUnder(live: map<nat, Locker>, p: int): (ids: set<nat>) {
    set id | id in live && live[id].pkt == p
  }

  ghost function HeldUpTo(live: map<nat, Locker>, p: int, n: nat): (ids: set<nat>) {
    set id | id in live && live[id].pkt == p && 1 <= id <= n
  }

  // The list has each packet as often as live ids hold it.
  lemma {:induction false} PacketsCount(live: map<nat, Locker>, p: int, n: nat)
    ensures multiset(Packets(live, n))[p] == |HeldUpTo(live, p, n)|
  {
    hide HeldUpTo;
    HeldNext(live, p, n);
    if n > 0 {
      PacketsCount(live, p, n - 1);
      if n in live {
        CountNext(Packets(live, n - 1), live[n].pkt, p);
      } else {
        assert Packets(live, n) == Packets(live, n - 1);
      }
    }
  }

  lemma HeldNext(live: map<nat, Locker>, p: int, n: nat)
    ensures n == 0 ==> |HeldUpTo(live, p, n)| == 0
    ensures n > 0 ==> |HeldUpTo(live, p, n)| == |HeldUpTo(live, p, n - 1)| + if n in live && live[n].pkt == p then 1 else 0
  {
    if n == 0 {
      assert HeldUpTo(live, p, 0) == {};
    } else {
      var a, b := HeldUpTo(live, p, n - 1), HeldUpTo(live, p, n);
      if n in live && live[n].pkt == p {
        assert b == a + {n} && n !in a;
      } else {
        assert b == a;
      }
    }
  }

  lemma CountNext(s: seq<int>, x: int, p: int)
    ensures multiset(s + [x])[p] == multiset(s)[p] + if x == p then 1 else 0
  {
    assert multiset(s + [x]) == multiset(s) + multiset{x};
  }

  lemma PacketsHeld(live: map<nat, Locker>, n: nat)
    requires forall id :: id in live ==> 1 <= id <= n
    ensures forall p :: multiset(Packets(live, n))[p] == |HeldUnder(live, p)|
  {
    forall p
      ensures multiset(Packets(live, n))[p] == |HeldUnder(live, p)|
    {
      PacketsCount(live, p, n);
      assert HeldUpTo(live, p, n) == HeldUnder(live, p);
    }
  }
}
