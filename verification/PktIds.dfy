/** The packet-id map of dhd_msgbuf.c as values: which ids are free, in stack order, and
    what is saved under the others. */
module PktIds {

  // How a packet is mapped. Addresses and pointers are numbers.
  datatype Mapping = Unmapped | Mapping(physaddr: int, len: nat, dma: nat, secdma: int)

  // What a locker keeps: the packet, and its mapping once that is saved.
  datatype Locker = Locker(pkt: int, mapping: Mapping)

  datatype Ids = Ids(items: nat, free: seq<nat>, live: map<nat, Locker>)

  ghost predicate Distinct(s: seq<nat>) {
    forall i, j :: 0 <= i < j < |s| ==> s[i] != s[j]
  }

  // The free stack holds exactly the ids from 1 to items that are not in use, once each.
  ghost predicate Sound(s: Ids) {
    && Distinct(s.free)
    && (forall id :: id in s.live ==> 1 <= id <= s.items)
    && (forall id :: id in s.free <==> 1 <= id <= s.items && id !in s.live)
  }

  function Range(n: nat): (s: seq<nat>) {
    seq(n, i requires 0 <= i < n => i + 1)
  }

  function Fresh(items: nat): (s: Ids) {
    Ids(items, Range(items), map[])
  }

  lemma FreshSound(items: nat)
    ensures Sound(Fresh(items))
  {
    var r := Range(items);
    forall id | 1 <= id <= items
      ensures id in r
    {
      assert r[id - 1] == id;
    }
  }

  // ----- the operations -----

  // A free id, taken from the top of the stack; 0 when there is none.
  function TopId(s: Ids): (id: nat) {
    if s.free == [] then 0 else s.free[|s.free| - 1]
  }

  function Reserved(s: Ids, pkt: int): (t: Ids) {
    if s.free == [] then s
    else s.(free := s.free[..|s.free| - 1], live := s.live[TopId(s) := Locker(pkt, Unmapped)])
  }

  // The length is kept in 16 bits.
  function Narrowed(m: Mapping): (n: Mapping) {
    if m.Mapping? then m.(len := m.len % 0x1_0000) else m
  }

  function Saved(s: Ids, id: nat, m: Mapping): (t: Ids)
    requires id in s.live
  {
    s.(live := s.live[id := Locker(s.live[id].pkt, Narrowed(m))])
  }

  function Freed(s: Ids, id: nat): (t: Ids) {
    if id in s.live then s.(free := s.free + [id], live := s.live - {id}) else s
  }

  lemma ReservedSound(s: Ids, pkt: int)
    requires Sound(s)
    ensures Sound(Reserved(s, pkt))
    ensures s.free != [] ==> 1 <= TopId(s) <= s.items && TopId(s) !in s.live
  {
    if s.free != [] {
      var n := |s.free| - 1;
      var t := Reserved(s, pkt);
      assert s.free[n] in s.free;
      forall id | id in s.free && id != s.free[n]
        ensures id in t.free
      {
        var i :| 0 <= i < |s.free| && s.free[i] == id;
        assert t.free[i] == id;
      }
      forall id | id in t.free
        ensures id in s.free && id != s.free[n]
      {
        var i :| 0 <= i < n && t.free[i] == id;
        assert s.free[i] == id;
      }
    }
  }

  lemma FreedSound(s: Ids, id: nat)
    requires Sound(s)
    ensures Sound(Freed(s, id))
  {
    if id in s.live {
      var t := Freed(s, id);
      forall k | k in s.free || k == id
        ensures k in t.free
      {
        if k == id {
          assert t.free[|s.free|] == k;
        } else {
          var i :| 0 <= i < |s.free| && s.free[i] == k;
          assert t.free[i] == k;
        }
      }
    }
  }

  lemma SavedSound(s: Ids, id: nat, m: Mapping)
    requires Sound(s) && id in s.live
    ensures Sound(Saved(s, id, m))
  {
  }

  // An id that is reserved and given back leaves the stack as it was.
  lemma ReserveFree(s: Ids, pkt: int)
    requires Sound(s) && s.free != []
    ensures Freed(Reserved(s, pkt), TopId(s)) == s
  {
    ReservedSound(s, pkt);
    var t := Freed(Reserved(s, pkt), TopId(s));
    assert t.free == s.free;
    assert t.live == s.live;
  }

  // ----- counting -----

  function Elements(s: seq<nat>): (t: set<nat>) {
    set x | x in s
  }

  lemma {:induction false} DistinctSize(s: seq<nat>)
    requires Distinct(s)
    ensures |Elements(s)| == |s|
  {
    if s == [] {
      assert Elements(s) == {};
    } else {
      var n := |s| - 1;
      DistinctSize(s[..n]);
      assert Elements(s) == Elements(s[..n]) + {s[n]};
      assert s[n] !in s[..n];
    }
  }

  // Free and used ids add up to all of them.
  lemma Conserved(s: Ids)
    requires Sound(s)
    ensures |s.free| + |s.live| == s.items
  {
    DistinctSize(s.free);
    var f, r := Elements(s.free), Range(s.items);
    DistinctSize(r);
    forall id | 1 <= id <= s.items
      ensures id in r
    {
      assert r[id - 1] == id;
    }
    assert f + s.live.Keys == Elements(r);
    assert f !! s.live.Keys;
    assert |f + s.live.Keys| == |f| + |s.live.Keys|;
    assert |s.live.Keys| == |s.live|;
  }

  // ----- runs -----

  datatype Op = Reserve(pkt: int) | Save(id: nat, mapping: Mapping) | Free(id: nat) | Clear

  // What the source asks of its callers: a mapping is saved only under a reserved id.
  predicate Allowed(s: Ids, op: Op) {
    op.Save? ==> op.id in s.live
  }

  function Step(s: Ids, op: Op): (t: Ids)
    requires Allowed(s, op)
  {
    match op
    case Reserve(pkt) => Reserved(s, pkt)
    case Save(id, m) => Saved(s, id, m)
    case Free(id) => Freed(s, id)
    case Clear => Fresh(s.items)
  }

  predicate AllAllowed(s: Ids, ops: seq<Op>)
    decreases |ops|
  {
    ops == [] || (Allowed(s, ops[0]) && AllAllowed(Step(s, ops[0]), ops[1..]))
  }

  function Run(s: Ids, ops: seq<Op>): (t: Ids)
    requires AllAllowed(s, ops)
    decreases |ops|
  {
    if ops == [] then s else Run(Step(s, ops[0]), ops[1..])
  }

  lemma StepSound(s: Ids, op: Op)
    requires Sound(s) && Allowed(s, op)
    ensures Sound(Step(s, op)) && Step(s, op).items == s.items
  {
    match op
    case Reserve(pkt) => ReservedSound(s, pkt);
    case Save(id, m) => SavedSound(s, id, m);
    case Free(id) => FreedSound(s, id);
    case Clear => FreshSound(s.items);
  }

  // Every run keeps the free and the used ids apart and loses none.
  lemma {:induction false} RunSound(s: Ids, ops: seq<Op>)
    requires Sound(s) && AllAllowed(s, ops)
    ensures Sound(Run(s, ops)) && Run(s, ops).items == s.items
    ensures |Run(s, ops).free| + |Run(s, ops).live| == s.items
    decreases |ops|
  {
    if ops == [] {
      Conserved(s);
    } else {
      StepSound(s, ops[0]);
      RunSound(Step(s, ops[0]), ops[1..]);
    }
  }

  // Operations that neither free an id nor save under it again.
  ghost predicate Spares(ops: seq<Op>, id: nat) {
    forall k :: 0 <= k < |ops| ==> ops[k] != Clear && ops[k] != Free(id) && !(ops[k].Save? && ops[k].id == id)
  }

  // While an id is live its locker keeps what was saved, and the id is not handed out.
  lemma {:induction false} HeldUntilFreed(s: Ids, ops: seq<Op>, id: nat)
    requires Sound(s) && AllAllowed(s, ops) && id in s.live && Spares(ops, id)
    ensures var t := Run(s, ops); id in t.live && t.live[id] == s.live[id] && id !in t.free && TopId(t) != id
    decreases |ops|
  {
    if ops == [] {
      if s.free != [] {
        assert s.free[|s.free| - 1] in s.free;
      }
    } else {
      StepSound(s, ops[0]);
      if ops[0].Reserve? {
        ReservedSound(s, ops[0].pkt);
      }
      assert ops[0] != Clear && ops[0] != Free(id);
      assert Step(s, ops[0]).live[id] == s.live[id];
      forall k | 0 <= k < |ops[1..]|
        ensures ops[1..][k] == ops[k + 1]
      {
      }
      HeldUntilFreed(Step(s, ops[0]), ops[1..], id);
    }
  }
}
