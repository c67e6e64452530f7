/** hashmap.c: a chained hash map whose table doubles at three quarters full. */
module HashMap {
  import opened Arith
  import opened BigNum
  import opened Bits
  import opened HashChain
  import opened HashTable
  import opened Wrappers

  // Truncation to a signed 32-bit word.
  function S32(x: int): (s: int)
    ensures -0x8000_0000 <= s < 0x8000_0000
  {
    var u := U32(x);
    if u < 0x8000_0000 then u else u - 0x1_0000_0000
  }

  // The secondary hash: h += ~(h << 9), h ^= h >> 14, h += h << 4, h ^= h >> 10.
  function Spread(h0: int): (r: int)
    ensures -0x8000_0000 <= r < 0x8000_0000
  {
    var h1 := S32(h0 + (-S32(h0 * 0x200) - 1));
    var h2 := S32(Xor(U32(h1), U32(h1) / 0x4000));
    var h3 := S32(h2 + S32(h2 * 0x10));
    S32(Xor(U32(h3), U32(h3) / 0x400))
  }

  // The bucket of a hash: its low bits after sign extension to 64 bits.
  function CalculateIndex(bucketCount: nat, hash: int): (index: nat)
    requires bucketCount > 0
  {
    And(bucketCount - 1, hash % 0x1_0000_0000_0000_0000)
  }

  // For a power of two that is the remainder, also of a negative hash.
  lemma IndexIsMod(bits: nat, hash: int)
    requires bits <= 64
    ensures Pow(2, bits) > 0 && CalculateIndex(Pow(2, bits), hash) == hash % Pow(2, bits)
  {
    hide And, Pow;
    PowPositive(bits);
    var u := hash % 0x1_0000_0000_0000_0000;
    AndMask(u, bits);
    PowAdd(2, bits, 64 - bits);
    SixtyFour();
    var k := hash / 0x1_0000_0000_0000_0000;
    MulSwap(Pow(2, bits), Pow(2, 64 - bits), k);
    CongIntro(u, hash, -(k * Pow(2, 64 - bits)), Pow(2, bits)) by { Factor(hash, u, k, Pow(2, bits), Pow(2, 64 - bits)); }
    SameRest(u, hash, Pow(2, bits));
  }

  lemma Factor(hash: int, u: int, k: int, p: int, q: int)
    requires hash == u + k * 0x1_0000_0000_0000_0000 && p * q == 0x1_0000_0000_0000_0000
    ensures u == hash + -(k * q) * p
  {
    MulAssoc(k, q, p);
  }

  lemma SameRest(a: int, b: int, n: int)
    requires n > 0 && Cong(a, b, n)
    ensures a % n == b % n
  {
  }

  lemma SixtyFour()
    ensures Pow(2, 64) == 0x1_0000_0000_0000_0000
  {
    assert Pow(2, 4) == 16;
    PowAdd(2, 4, 4);
    PowAdd(2, 8, 8);
    PowAdd(2, 16, 16);
    PowAdd(2, 32, 32);
  }

  // The smallest power of two above four thirds of a capacity, in 64-bit arithmetic.
  method BucketCountFor(initialCapacity: nat) returns (n: nat, ghost b: nat)
    requires initialCapacity < 0x1_0000_0000_0000_0000
    ensures n == Pow(2, b) > 0 && b <= 63
    ensures initialCapacity <= n * 3 / 4 <==> initialCapacity < 0x4000_0000_0000_0000
  {
    var minimumBucketCount := initialCapacity * 4 % 0x1_0000_0000_0000_0000 / 3;
    n, b := 1, 0;
    while n <= minimumBucketCount
      invariant n == Pow(2, b) && 0 < n <= 2 * minimumBucketCount + 1
      decreases minimumBucketCount + 1 - n
    {
      n := n * 2;
      b := b + 1;
    }
    BigPower(b);
  }

  class Hashmap<K(==, !new), V(!new)> {
    const hash: K -> int
    const equals: (K, K) -> bool
    var buckets: array<Node?<K, V>>
    var bucketCount: nat
    var size: nat
    ghost var bits: nat
    ghost var chains: seq<seq<Node<K, V>>>
    ghost var table: seq<seq<Entry<K, V>>>
    ghost var nodes: set<Node<K, V>>

    // hashKey, with the caller's hash spread.
    function HashKey(key: K): (h: int) {
      Spread(hash(key))
    }

    ghost function FullHash(): (h: K -> int) {
      (key: K) => Spread(hash(key))
    }

    // The chains carry a sound table, and size counts its entries.
    ghost predicate Valid()
      reads this, buckets, nodes
    {
      && bits <= 63 && bucketCount == buckets.Length == Pow(2, bits)
      && Shape(buckets[..], chains, table, nodes)
      && Sound(table, FullHash(), equals)
      && size == Count(table)
    }

    // The map that the chains stand for.
    ghost function Maps(key: K): (r: Option<V>)
      requires |table| > 0
      reads this
    {
      Find(table, key, FullHash(), equals)
    }

    // hashmapCreate; the caller's functions have to be an equality and a hash that agrees
    // with it. The first initialCapacity entries fit without a larger table, unless four
    // times that number wraps around.
    constructor (initialCapacity: nat, h: K -> int, eq: (K, K) -> bool)
      requires Lawful(h, eq) && initialCapacity < 0x1_0000_0000_0000_0000
      ensures Valid() && fresh(buckets) && nodes == {} && hash == h && equals == eq && size == 0
      ensures forall key :: Maps(key) == None
      ensures initialCapacity <= Capacity() <==> initialCapacity < 0x4000_0000_0000_0000
    {
      hide Pow, Spread, Find, Count, Sound;
      hash, equals, size := h, eq, 0;
      var n, b := BucketCountFor(initialCapacity);
      bucketCount, bits, nodes := n, b, {};
      buckets := new Node?<K, V>[n](i => null);
      chains, table := seq(n, i => []), seq(n, i => []);
      new;
      CountEmpty(table);
      SpreadLawful(h, eq);
      EmptySound(table, FullHash(), eq);
    }

    // Three quarters of the bucket count.
    function Capacity(): (c: nat)
      reads this
    {
      bucketCount * 3 / 4
    }

    // calculateIndex finds the bucket that the table assigns.
    method BucketOf(key: K) returns (h: int, index: nat)
      requires Valid()
      ensures h == FullHash()(key) && index == h % |table| && index < |table| == buckets.Length
    {
      h := HashKey(key);
      IndexIsMod(bits, h);
      index := CalculateIndex(bucketCount, h);
    }

    // The walk along one chain, to the first match or its end; previous is the node whose
    // link leads there, or null when the bucket itself does.
    method Walk(index: nat, key: K, h: int) returns (previous: Node?<K, V>, current: Node?<K, V>, ghost p: nat)
      requires Shape(buckets[..], chains, table, nodes) && index < |table|
      ensures p == Position(table[index], key, h, equals)
      ensures current == At(chains[index], Position(table[index], key, h, equals))
      ensures previous == Before(chains[index], Position(table[index], key, h, equals))
    {
      previous, current, p := null, buckets[index], 0;
      ghost var c, b := chains[index], table[index];
      assert Linked(buckets[index], c) && Carries(c, b);
      assert b[0..] == b;
      while current != null && !EqualKeys(current.key, current.hash, key, h, equals)
        invariant 0 <= p <= |b| && Position(b, key, h, equals) == p + Position(b[p..], key, h, equals)
        invariant current == At(c, p) && previous == Before(c, p)
        decreases |b| - p
      {
        assert b[p..][1..] == b[p + 1..];
        previous, current := current, current.next;
        p := p + 1;
      }
    }

    // The place of a key: the match in its bucket, or the end of the chain.
    method Locate(key: K) returns (h: int, index: nat, previous: Node?<K, V>, current: Node?<K, V>, ghost p: nat)
      requires Valid()
      ensures h == FullHash()(key) && |table| == |chains| == buckets.Length && index == h % |table| && index < |table|
      ensures |chains[index]| == |table[index]| && previous == Before(chains[index], p) && current == At(chains[index], p)
      ensures current == null ==> p == |table[index]| && Maps(key) == None
      ensures current != null ==> p < |table[index]| && equals(table[index][p].key, key) && Maps(key) == Some(current.value)
    {
      hide Sound, Find;
      PositionFinds(table, key, FullHash(), equals);
      h, index := BucketOf(key);
      previous, current, p := Walk(index, key, h);
      assert Carries(chains[index], table[index]);
    }

    method Get(key: K) returns (r: Option<V>)
      requires Valid()
      ensures r == Maps(key)
    {
      var _, _, _, entry, _ := Locate(key);
      r := if entry != null then Some(entry.value) else None;
    }

    method ContainsKey(key: K) returns (r: bool)
      requires Valid()
      ensures r <==> Maps(key).Some?
    {
      var _, _, _, entry, _ := Locate(key);
      r := entry != null;
    }

    // *p = node, where p points to the link of the previous node or to the bucket.
    method SetLink(index: nat, previous: Node?<K, V>, node: Node?<K, V>, ghost p: nat)
      requires Shape(buckets[..], chains, table, nodes) && Apart(chains) && index < |table| && p <= |chains[index]|
      requires previous == Before(chains[index], p)
      modifies buckets, if previous == null then {} else {previous}
      ensures OthersShape(buckets[..], chains, table, nodes, index)
      ensures Spliced(buckets[index], chains[index], p, node)
    {
      assert Linked(buckets[index], chains[index]);
      if previous == null {
        buckets[index] := node;
      } else {
        previous.next := node;
      }
      forall k | 0 <= k < |chains|
        ensures Carries(chains[k], table[k]) && (k != index ==> Linked(buckets[k], chains[k]))
      {
        assert old(Linked(buckets[k], chains[k]) && Carries(chains[k], table[k]));
      }
    }

    // Overwrites the value of one node.
    method SetValue(node: Node<K, V>, value: V, ghost i: nat, ghost p: nat)
      requires Shape(buckets[..], chains, table, nodes) && Apart(chains)
      requires i < |chains| && p < |chains[i]| && node == chains[i][p]
      modifies this`table, node`value
      ensures table == old(table)[i := old(table)[i][p := Entry(old(table)[i][p].key, old(table)[i][p].hash, value)]]
      ensures Shape(buckets[..], chains, table, nodes)
    {
      node.value := value;
      table := table[i := table[i][p := Entry(table[i][p].key, table[i][p].hash, value)]];
      forall k | 0 <= k < |chains|
        ensures Linked(buckets[k], chains[k]) && Carries(chains[k], table[k])
      {
        assert old(Linked(buckets[k], chains[k]) && Carries(chains[k], table[k]));
      }
    }

    // Appends a node to a chain whose last link is the previous node's.
    method Append(index: nat, previous: Node?<K, V>, key: K, h: int, value: V)
      requires Shape(buckets[..], chains, table, nodes) && Apart(chains) && index < |table|
      requires previous == Before(chains[index], |chains[index]|)
      modifies this`chains, this`table, this`nodes, buckets, nodes
      ensures table == old(table)[index := old(table)[index] + [Entry(key, h, value)]]
      ensures Shape(buckets[..], chains, table, nodes) && fresh(nodes - old(nodes))
    {
      hide Linked, Carries, Spliced, Shape, OthersShape;
      Sizes(buckets[..], chains, table, nodes);
      ghost var c, b := chains[index], table[index];
      BeforeIn(buckets[..], chains, table, nodes, index, |c|);
      var node := new Node<K, V>(key, h, value);
      SetLink(index, previous, node, |c|);
      AppendLinks(buckets[..], chains, table, nodes, index, node);
      chains := chains[index := c + [node]];
      table := table[index := b + [Entry(key, h, value)]];
      nodes := nodes + {node};
    }

    // Unlinks the node at one position.
    method Unlink(index: nat, previous: Node?<K, V>, current: Node<K, V>, ghost p: nat)
      requires Shape(buckets[..], chains, table, nodes) && Apart(chains) && index < |table| && p < |chains[index]|
      requires current == chains[index][p] && previous == Before(chains[index], p)
      modifies this`chains, this`table, buckets, nodes
      ensures table == old(table)[index := old(table)[index][..p] + old(table)[index][p + 1..]]
      ensures Shape(buckets[..], chains, table, nodes)
    {
      hide Linked, Carries, Spliced, Shape, OthersShape;
      Sizes(buckets[..], chains, table, nodes);
      ghost var c, b := chains[index], table[index];
      BeforeIn(buckets[..], chains, table, nodes, index, p);
      SetLink(index, previous, current.next, p);
      CutLinks(buckets[..], chains, table, nodes, index, p);
      chains := chains[index := c[..p] + c[p + 1..]];
      table := table[index := b[..p] + b[p + 1..]];
    }

    // The match of a key gets a new value.
    method Replace(key: K, value: V, current: Node<K, V>, ghost index: nat, ghost p: nat)
      requires Valid() && index < |table| == |chains| && index == FullHash()(key) % |table| && p < |table[index]| == |chains[index]|
      requires current == chains[index][p] && equals(table[index][p].key, key)
      modifies this`table, current`value
      ensures Valid()
      ensures forall k :: Maps(k) == if equals(key, k) then Some(value) else old(Maps(k))
    {
      hide Find, Sound, Shape, Apart, Spread;
      ghost var t, f := table, FullHash();
      ShapeApart(buckets[..], chains, t, nodes, f, equals);
      SetEntry(t, key, p, value, f, equals);
      CountSet(t, index, t[index][p := Entry(t[index][p].key, t[index][p].hash, value)]);
      SetValue(current, value, index, p);
    }

    // A key without a match gets an entry at the end of its chain.
    method Insert(key: K, h: int, value: V, index: nat, previous: Node?<K, V>)
      requires Valid() && index < |table| == |chains| && h == FullHash()(key) && index == h % |table| && Maps(key) == None
      requires previous == Before(chains[index], |chains[index]|)
      modifies this`size, this`chains, this`table, this`nodes, buckets, nodes
      ensures Valid() && fresh(nodes - old(nodes)) && size == old(size) + 1
      ensures forall k :: Maps(k) == if equals(key, k) then Some(value) else old(Maps(k))
    {
      hide Find, Sound, Shape, Apart, Spread;
      ghost var t, f := table, FullHash();
      ShapeApart(buckets[..], chains, t, nodes, f, equals);
      AddEntry(t, key, value, f, equals);
      CountSet(t, index, t[index] + [Entry(key, h, value)]);
      Append(index, previous, key, h, value);
      size := size + 1;
    }

    // The match of a key is unlinked.
    method Delete(key: K, current: Node<K, V>, index: nat, previous: Node?<K, V>, ghost p: nat)
      requires Valid() && index < |table| == |chains| && index == FullHash()(key) % |table| && p < |table[index]| == |chains[index]|
      requires current == chains[index][p] && previous == Before(chains[index], p) && equals(table[index][p].key, key)
      modifies this`size, this`chains, this`table, buckets, nodes
      ensures Valid() && size == old(size) - 1
      ensures forall k :: Maps(k) == if equals(key, k) then None else old(Maps(k))
    {
      hide Find, Sound, Shape, Apart, Spread;
      ghost var t, f := table, FullHash();
      ShapeApart(buckets[..], chains, t, nodes, f, equals);
      CutEntry(t, key, p, f, equals);
      CountSet(t, index, t[index][..p] + t[index][p + 1..]);
      Unlink(index, previous, current, p);
      size := size - 1;
    }

    // Maps key to value and returns what it was mapped to. Without memory for an entry
    // nothing changes; without memory for a larger table the map is only fuller.
    method Put(key: K, value: V, entryFits: bool, tableFits: nat -> bool) returns (old_value: Option<V>, done: bool)
      requires Valid() && forall n :: tableFits(n) ==> n < 0x8000_0000_0000_0000
      modifies this`buckets, this`bucketCount, this`size, this`bits, this`chains, this`table, this`nodes, buckets, nodes
      ensures Valid() && (buckets == old(buckets) || fresh(buckets)) && fresh(nodes - old(nodes))
      ensures done <==> old(Maps(key)).Some? || entryFits
      ensures old_value == old(Maps(key))
      ensures forall k :: Maps(k) == if done && equals(key, k) then Some(value) else old(Maps(k))
      ensures size == old(size) + (if done && old(Maps(key)).None? then 1 else 0)
      ensures done && old(size) <= old(Capacity()) && tableFits(2 * old(bucketCount)) ==> size <= Capacity()
      ensures size <= old(Capacity()) ==> buckets == old(buckets)
    {
      hide Hashmap.Valid, Hashmap.Maps, Hashmap.FullHash;
      var h, index, previous, current, p := Locate(key);
      LocatedIn(index, p);
      if current != null {
        old_value, done := Some(current.value), true;
        Replace(key, value, current, index, p);
      } else if entryFits {
        Insert(key, h, value, index, previous);
        ExpandIfNecessary(tableFits);
        old_value, done := None, true;
      } else {
        old_value, done := None, false;
      }
    }

    // Unmaps a key and returns what it was mapped to.
    method Remove(key: K) returns (old_value: Option<V>)
      requires Valid()
      modifies this`size, this`chains, this`table, buckets, nodes
      ensures Valid() && old_value == old(Maps(key))
      ensures forall k :: Maps(k) == if equals(key, k) then None else old(Maps(k))
      ensures size == old(size) - (if old(Maps(key)).Some? then 1 else 0)
    {
      hide Hashmap.Valid, Hashmap.Maps, Hashmap.FullHash;
      var _, index, previous, current, p := Locate(key);
      LocatedIn(index, p);
      if current != null {
        old_value := Some(current.value);
        Delete(key, current, index, previous, p);
      } else {
        old_value := None;
        EqualKeysAlike(key);
      }
    }

    // The nodes at a place belong to the map.
    lemma LocatedIn(index: nat, p: nat)
      requires Valid() && index < |chains| && p <= |chains[index]|
      ensures bucketCount == |table| > 0 && (p < |chains[index]| ==> chains[index][p] in nodes) && (p > 0 ==> chains[index][p - 1] in nodes)
    {
    }

    lemma EqualKeysAlike(key: K)
      requires Valid()
      ensures |table| > 0 && forall k :: equals(key, k) ==> Maps(k) == Maps(key)
    {
      hide Find;
      FindEqual(table, key, FullHash(), equals);
    }

    // Doubles the table when more than three quarters of it are used, and keeps the map.
    method ExpandIfNecessary(tableFits: nat -> bool)
      requires Valid() && forall n :: tableFits(n) ==> n < 0x8000_0000_0000_0000
      modifies this`buckets, this`bucketCount, this`bits, this`chains, this`table, nodes
      ensures Valid() && (buckets == old(buckets) || fresh(buckets))
      ensures forall k :: Maps(k) == old(Maps(k))
      ensures bucketCount == if size > old(Capacity()) && tableFits(2 * old(bucketCount)) then 2 * old(bucketCount) else old(bucketCount)
      ensures size <= old(Capacity()) ==> buckets == old(buckets)
    {
      hide Hashmap.Valid, Hashmap.Maps;
      if size > bucketCount * 3 / 4 {
        var newBucketCount := bucketCount * 2;
        if !tableFits(newBucketCount) {
          return;
        }
        MoveAll(newBucketCount);
      }
    }

    // One node goes to the front of its new chain.
    static method MoveNode(newBuckets: array<Node?<K, V>>, entry: Node<K, V>, index: nat, ghost m: Moves<K, V>)
      requires Moving(m, newBuckets[..]) && Apart(m.chains) && index < newBuckets.Length
      requires m.i < |m.t| && m.j < |m.t[m.i]| && m.chains[m.i][m.j] == entry
      modifies newBuckets, entry`next
      ensures Moving(NextMove(m, index), newBuckets[..])
    {
      entry.next := newBuckets[index];
      newBuckets[index] := entry;
      forall k | 0 <= k < |m.t|
        ensures Carries(m.chains[k], m.t[k])
      {
        assert old(Carries(m.chains[k], m.t[k]));
      }
      forall k | 0 <= k < |m.d|
        ensures Carries(m.d[k], m.u[k]) && Linked(if k == index then entry.next else newBuckets[k], m.d[k])
      {
        assert old(Linked(newBuckets[k], m.d[k]) && Carries(m.d[k], m.u[k]));
      }
      PushLinks(newBuckets[..], m.d, m.u, m.moved, index, entry);
    }

    // Relinks every node into the new buckets.
    method Relink(newBuckets: array<Node?<K, V>>, ghost b: nat) returns (ghost m: Moves<K, V>)
      requires Valid() && newBuckets.Length == Pow(2, b) > 0 && b <= 63 && newBuckets != buckets
      requires forall k :: 0 <= k < newBuckets.Length ==> newBuckets[k] == null
      modifies newBuckets, nodes
      ensures Shape(newBuckets[..], m.d, m.u, nodes)
      ensures Sound(m.u, FullHash(), equals) && Count(m.u) == Count(table)
      ensures forall k :: Find(m.u, k, FullHash(), equals) == Find(table, k, FullHash(), equals)
    {
      hide Find, Sound, Moved, Moving, MovesIn, Spread, Linked, Carries, Apart, Shape, Pow, NextMove, CalculateIndex;
      ghost var t, f := table, FullHash();
      Sizes(buckets[..], chains, t, nodes);
      ShapeApart(buckets[..], chains, t, nodes, f, equals);
      m := Moves(chains, t, nodes, 0, 0, seq(newBuckets.Length, i => []), seq(newBuckets.Length, i => []), {});
      MoveStarts(m, buckets[..], newBuckets[..], f, equals);
      var i := 0;
      while i < bucketCount
        invariant m.i == i <= bucketCount && m.j == 0 && SameMove(m, chains, t, nodes, newBuckets.Length)
        invariant MovesIn(m, f, equals, newBuckets[..])
      {
        var entry := buckets[i];
        while entry != null
          invariant m.i == i && m.j <= |t[i]| && entry == At(chains[i], m.j) && SameMove(m, chains, t, nodes, newBuckets.Length)
          invariant MovesIn(m, f, equals, newBuckets[..])
          decreases |t[i]| - m.j
        {
          MoveOn(m, f, equals, newBuckets[..]);
          var next := entry.next;
          IndexIsMod(b, entry.hash);
          var index := CalculateIndex(newBuckets.Length, entry.hash);
          MoveNode(newBuckets, entry, index, m);
          m := NextMove(m, index);
          MovedOn(m, f, equals, newBuckets[..]);
          entry := next;
        }
        NextChain(m, f, equals, newBuckets[..]);
        m := m.(i := m.i + 1, j := 0);
        i := i + 1;
      }
      MoveDone(m, f, equals, newBuckets[..]);
    }

    // Doubles the table.
    method MoveAll(newBucketCount: nat)
      requires Valid() && newBucketCount == 2 * bucketCount < 0x8000_0000_0000_0000
      modifies this`buckets, this`bucketCount, this`bits, this`chains, this`table, nodes
      ensures Valid() && fresh(buckets) && bucketCount == newBucketCount
      ensures forall k :: Maps(k) == old(Maps(k))
    {
      hide Find, Sound, Spread, Shape, Linked, Carries, Pow;
      BigPower(bits + 1);
      TwicePower(bits);
      var newBuckets := new Node?<K, V>[newBucketCount](i => null);
      ghost var m := Relink(newBuckets, bits + 1);
      Sizes(newBuckets[..], m.d, m.u, nodes);
      buckets, bucketCount, bits, chains, table := newBuckets, newBucketCount, bits + 1, m.d, m.u;
    }
  }

  lemma TwicePower(b: nat)
    ensures Pow(2, b + 1) == 2 * Pow(2, b) && Pow(2, b) > 0
  {
    PowPositive(b);
  }

  lemma BigPower(b: nat)
    ensures b >= 64 ==> Pow(2, b) >= 0x1_0000_0000_0000_0000
  {
    hide Pow;
    if b >= 64 {
      PowAdd(2, 64, b - 64);
      PowPositive(b - 64);
      SixtyFour();
    }
  }

  lemma SpreadLawful<K(!new)>(h: K -> int, eq: (K, K) -> bool)
    requires Lawful(h, eq)
    ensures Lawful((key: K) => Spread(h(key)), eq)
  {
    hide Spread;
  }

  lemma EmptySound<K(!new), V(!new)>(t: seq<seq<Entry<K, V>>>, h: K -> int, eq: (K, K) -> bool)
    requires |t| > 0 && Lawful(h, eq) && forall i :: 0 <= i < |t| ==> t[i] == []
    ensures Sound(t, h, eq) && forall key :: Find(t, key, h, eq) == None
  {
  }
}
