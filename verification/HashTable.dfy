/** The tables of hashmap.c as values: chains of entries, and what they map. */
module HashTable {
  import opened Wrappers

  datatype Entry<K, V> = Entry(key: K, hash: int, value: V)

  // equalKeys: the same pointer, or the same hash and equal by the caller's function.
  predicate EqualKeys<K(==)>(keyA: K, hashA: int, keyB: K, hashB: int, eq: (K, K) -> bool) {
    keyA == keyB || (hashA == hashB && eq(keyA, keyB))
  }

  // What the map asks of its two functions.
  ghost predicate Lawful<K(!new)>(h: K -> int, eq: (K, K) -> bool) {
    && (forall a :: eq(a, a))
    && (forall a, b :: eq(a, b) ==> eq(b, a) && h(a) == h(b))
    && (forall a, b, c :: eq(a, b) && eq(b, c) ==> eq(a, c))
  }

  // Every entry lies in the bucket of its own hash.
  ghost predicate Placed<K, V>(t: seq<seq<Entry<K, V>>>, h: K -> int) {
    forall i, j :: 0 <= i < |t| && 0 <= j < |t[i]| ==> t[i][j].hash == h(t[i][j].key) && t[i][j].hash % |t| == i
  }

  ghost predicate UniqueChain<K, V>(c: seq<Entry<K, V>>, eq: (K, K) -> bool) {
    forall j, k :: 0 <= j < k < |c| ==> !eq(c[j].key, c[k].key)
  }

  ghost predicate Unique<K, V>(t: seq<seq<Entry<K, V>>>, eq: (K, K) -> bool) {
    forall i :: 0 <= i < |t| ==> UniqueChain(t[i], eq)
  }

  ghost predicate Sound<K(!new), V(!new)>(t: seq<seq<Entry<K, V>>>, h: K -> int, eq: (K, K) -> bool) {
    |t| > 0 && Lawful(h, eq) && Placed(t, h) && Unique(t, eq)
  }

  // The first entry of a chain that matches a key, or the end of the chain.
  function Position<K(==), V>(c: seq<Entry<K, V>>, key: K, hash: int, eq: (K, K) -> bool): (p: nat)
    ensures p <= |c|
    ensures p < |c| ==> EqualKeys(c[p].key, c[p].hash, key, hash, eq)
    ensures forall j :: 0 <= j < p ==> !EqualKeys(c[j].key, c[j].hash, key, hash, eq)
  {
    if c == [] then 0
    else if EqualKeys(c[0].key, c[0].hash, key, hash, eq) then 0
    else
      var q := Position(c[1..], key, hash, eq);
      assert forall j :: 0 <= j < q ==> c[1..][j] == c[j + 1];
      1 + q
  }

  // What the table maps a key to.
  ghost function Find<K(!new), V(!new)>(t: seq<seq<Entry<K, V>>>, key: K, h: K -> int, eq: (K, K) -> bool): (r: Option<V>)
    requires |t| > 0
  {
    var c := t[h(key) % |t|];
    if p: nat :| p < |c| && eq(c[p].key, key) then Some(c[p].value) else None
  }

  // The match in the bucket is the one the search finds.
  lemma FindIs<K(!new), V(!new)>(t: seq<seq<Entry<K, V>>>, key: K, h: K -> int, eq: (K, K) -> bool, p: nat)
    requires Sound(t, h, eq) && p < |t[h(key) % |t|]| && eq(t[h(key) % |t|][p].key, key)
    ensures Find(t, key, h, eq) == Some(t[h(key) % |t|][p].value)
  {
    var c := t[h(key) % |t|];
    var q: nat :| q < |c| && eq(c[q].key, key) && Find(t, key, h, eq) == Some(c[q].value);
    assert UniqueChain(c, eq);
    assert eq(key, c[p].key) && eq(key, c[q].key);
    assert eq(c[q].key, c[p].key) && eq(c[p].key, c[q].key);
  }

  lemma FindNone<K(!new), V(!new)>(t: seq<seq<Entry<K, V>>>, key: K, h: K -> int, eq: (K, K) -> bool)
    requires |t| > 0
    requires forall p :: 0 <= p < |t[h(key) % |t|]| ==> !eq(t[h(key) % |t|][p].key, key)
    ensures Find(t, key, h, eq) == None
  {
  }

  // On stored hashes the C comparison is the caller's equality.
  lemma EqualKeysIs<K(!new)>(a: K, b: K, h: K -> int, eq: (K, K) -> bool)
    requires Lawful(h, eq)
    ensures EqualKeys(a, h(a), b, h(b), eq) <==> eq(a, b)
  {
  }

  // The search of a bucket computes Find.
  lemma PositionFinds<K(!new), V(!new)>(t: seq<seq<Entry<K, V>>>, key: K, h: K -> int, eq: (K, K) -> bool)
    requires Sound(t, h, eq)
    ensures var c := t[h(key) % |t|];
            var p := Position(c, key, h(key), eq);
            && Find(t, key, h, eq) == (if p < |c| then Some(c[p].value) else None)
            && (p < |c| ==> eq(c[p].key, key))
            && (p == |c| ==> forall j :: 0 <= j < |c| ==> !eq(c[j].key, key))
  {
    var i := h(key) % |t|;
    var c := t[i];
    var p := Position(c, key, h(key), eq);
    forall j | 0 <= j < |c|
      ensures EqualKeys(c[j].key, c[j].hash, key, h(key), eq) <==> eq(c[j].key, key)
    {
      assert t[i][j].hash == h(t[i][j].key);
      EqualKeysIs(c[j].key, key, h, eq);
    }
    if p < |c| {
      FindIs(t, key, h, eq, p);
    } else {
      FindNone(t, key, h, eq);
    }
  }

  // Keys equal to the same key are equal.
  lemma Joined<K(!new)>(a: K, b: K, c: K, h: K -> int, eq: (K, K) -> bool)
    requires Lawful(h, eq) && eq(a, b) && eq(a, c)
    ensures eq(b, c)
  {
    assert eq(b, a);
  }

  lemma FoundAgain<K(!new), V(!new)>(t: seq<seq<Entry<K, V>>>, u: seq<seq<Entry<K, V>>>, key: K, h: K -> int, eq: (K, K) -> bool)
    requires Sound(t, h, eq) && Sound(u, h, eq)
    requires forall e: Entry<K, V> :: eq(e.key, key) ==> (e in t[h(key) % |t|] <==> e in u[h(key) % |u|])
    ensures Find(t, key, h, eq).Some? ==> Find(u, key, h, eq) == Find(t, key, h, eq)
  {
    hide Sound, Find;
    SizePositive(t, h, eq);
    SizePositive(u, h, eq);
    var c, d := t[h(key) % |t|], u[h(key) % |u|];
    if p: nat :| p < |c| && eq(c[p].key, key) {
      assert c[p] in d;
      var q: nat :| q < |d| && d[q] == c[p];
      FindIs(t, key, h, eq, p);
      FindIs(u, key, h, eq, q);
    } else {
      FindNone(t, key, h, eq);
    }
  }

  // Tables with the same matching entries map a key alike, whatever their sizes.
  lemma FindSame<K(!new), V(!new)>(t: seq<seq<Entry<K, V>>>, u: seq<seq<Entry<K, V>>>, key: K, h: K -> int, eq: (K, K) -> bool)
    requires Sound(t, h, eq) && Sound(u, h, eq)
    requires forall e: Entry<K, V> :: eq(e.key, key) ==> (e in t[h(key) % |t|] <==> e in u[h(key) % |u|])
    ensures Find(t, key, h, eq) == Find(u, key, h, eq)
  {
    hide Find, Lawful, Placed, Unique;
    FoundAgain(t, u, key, h, eq);
    FoundAgain(u, t, key, h, eq);
  }

  lemma SizePositive<K(!new), V(!new)>(t: seq<seq<Entry<K, V>>>, h: K -> int, eq: (K, K) -> bool)
    requires Sound(t, h, eq)
    ensures |t| > 0
  {
  }

  // Equal keys map alike.
  lemma FindEqual<K(!new), V(!new)>(t: seq<seq<Entry<K, V>>>, key: K, h: K -> int, eq: (K, K) -> bool)
    requires Sound(t, h, eq)
    ensures forall k :: eq(key, k) ==> Find(t, k, h, eq) == Find(t, key, h, eq)
  {
    hide Find;
    var c := t[h(key) % |t|];
    forall k | eq(key, k)
      ensures Find(t, k, h, eq) == Find(t, key, h, eq)
    {
      assert h(k) == h(key) && eq(k, key);
      if p: nat :| p < |c| && eq(c[p].key, key) {
        FindIs(t, key, h, eq, p);
        FindIs(t, k, h, eq, p);
      } else {
        FindNone(t, key, h, eq);
        FindNone(t, k, h, eq);
      }
    }
  }

  // ----- changing one bucket -----

  // A chain that may stand in bucket i of a sound table.
  ghost predicate ChainFits<K(!new), V(!new)>(c: seq<Entry<K, V>>, i: nat, n: nat, h: K -> int, eq: (K, K) -> bool)
    requires n > 0
  {
    && UniqueChain(c, eq)
    && forall j :: 0 <= j < |c| ==> c[j].hash == h(c[j].key) && c[j].hash % n == i
  }

  lemma ReplaceChain<K(!new), V(!new)>(t: seq<seq<Entry<K, V>>>, i: nat, c: seq<Entry<K, V>>, h: K -> int, eq: (K, K) -> bool)
    requires Sound(t, h, eq) && i < |t| && ChainFits(c, i, |t|, h, eq)
    ensures Sound(t[i := c], h, eq)
  {
  }

  lemma SoundChain<K(!new), V(!new)>(t: seq<seq<Entry<K, V>>>, i: nat, h: K -> int, eq: (K, K) -> bool)
    requires Sound(t, h, eq) && i < |t|
    ensures ChainFits(t[i], i, |t|, h, eq)
  {
  }

  // What a change of the bucket of one key does: its entries for other keys stay.
  lemma OthersStay<K(!new), V(!new)>(t: seq<seq<Entry<K, V>>>, key: K, c: seq<Entry<K, V>>, k: K, h: K -> int, eq: (K, K) -> bool)
    requires Sound(t, h, eq) && ChainFits(c, h(key) % |t|, |t|, h, eq) && !eq(key, k)
    requires forall e: Entry<K, V> :: !eq(e.key, key) ==> (e in c <==> e in t[h(key) % |t|])
    ensures Sound(t[h(key) % |t| := c], h, eq)
    ensures Find(t[h(key) % |t| := c], k, h, eq) == Find(t, k, h, eq)
  {
    hide Find, Lawful;
    var i := h(key) % |t|;
    ReplaceChain(t, i, c, h, eq);
    var u := t[i := c];
    forall e: Entry<K, V> | eq(e.key, k)
      ensures e in t[h(k) % |t|] <==> e in u[h(k) % |u|]
    {
      if eq(e.key, key) {
        Joined(e.key, key, k, h, eq);
      }
    }
    FindSame(t, u, k, h, eq);
  }

  // Appending an entry for a key that has none.
  lemma AddEntry<K(!new), V(!new)>(t: seq<seq<Entry<K, V>>>, key: K, v: V, h: K -> int, eq: (K, K) -> bool)
    requires Sound(t, h, eq) && Find(t, key, h, eq) == None
    ensures var i := h(key) % |t|;
            var u := t[i := t[i] + [Entry(key, h(key), v)]];
            && Sound(u, h, eq)
            && (forall k :: Find(u, k, h, eq) == if eq(key, k) then Some(v) else Find(t, k, h, eq))
  {
    hide Find;
    var i, e := h(key) % |t|, Entry(key, h(key), v);
    var c := t[i] + [e];
    SoundChain(t, i, h, eq);
    forall j | 0 <= j < |t[i]|
      ensures !eq(t[i][j].key, key)
    {
      if eq(t[i][j].key, key) {
        FindIs(t, key, h, eq, j);
      }
    }
    ChangedBucket(t, key, c, |t[i]|, v, h, eq);
  }

  // After any such change the changed entry is what its key maps to.
  lemma ChangedBucket<K(!new), V(!new)>(t: seq<seq<Entry<K, V>>>, key: K, c: seq<Entry<K, V>>, p: nat, v: V, h: K -> int, eq: (K, K) -> bool)
    requires Sound(t, h, eq) && ChainFits(c, h(key) % |t|, |t|, h, eq)
    requires forall e: Entry<K, V> :: !eq(e.key, key) ==> (e in c <==> e in t[h(key) % |t|])
    requires p < |c| && eq(c[p].key, key) && c[p].value == v
    ensures Sound(t[h(key) % |t| := c], h, eq)
    ensures forall k :: Find(t[h(key) % |t| := c], k, h, eq) == if eq(key, k) then Some(v) else Find(t, k, h, eq)
  {
    hide Find, ChainFits;
    var i := h(key) % |t|;
    var u := t[i := c];
    ReplaceChain(t, i, c, h, eq);
    forall k
      ensures Find(u, k, h, eq) == if eq(key, k) then Some(v) else Find(t, k, h, eq)
    {
      if eq(key, k) {
        assert eq(c[p].key, k);
        FindIs(u, k, h, eq, p);
      } else {
        OthersStay(t, key, c, k, h, eq);
      }
    }
  }

  // Overwriting the value of an entry that is there.
  lemma SetEntry<K(!new), V(!new)>(t: seq<seq<Entry<K, V>>>, key: K, p: nat, v: V, h: K -> int, eq: (K, K) -> bool)
    requires Sound(t, h, eq) && p < |t[h(key) % |t|]| && eq(t[h(key) % |t|][p].key, key)
    ensures var i := h(key) % |t|;
            var u := t[i := t[i][p := Entry(t[i][p].key, t[i][p].hash, v)]];
            && Sound(u, h, eq)
            && (forall k :: Find(u, k, h, eq) == if eq(key, k) then Some(v) else Find(t, k, h, eq))
  {
    hide Find;
    var i := h(key) % |t|;
    var b := t[i];
    var c := b[p := Entry(b[p].key, b[p].hash, v)];
    SoundChain(t, i, h, eq);
    forall e: Entry<K, V> | !eq(e.key, key)
      ensures e in c <==> e in b
    {
      if e in c {
        var j :| 0 <= j < |c| && c[j] == e;
        assert b[j] == e;
      }
      if e in b {
        var j :| 0 <= j < |b| && b[j] == e;
        assert c[j] == e;
      }
    }
    ChangedBucket(t, key, c, p, v, h, eq);
  }

  // Unlinking an entry.
  lemma CutEntry<K(!new), V(!new)>(t: seq<seq<Entry<K, V>>>, key: K, p: nat, h: K -> int, eq: (K, K) -> bool)
    requires Sound(t, h, eq) && p < |t[h(key) % |t|]| && eq(t[h(key) % |t|][p].key, key)
    ensures var i := h(key) % |t|;
            var u := t[i := t[i][..p] + t[i][p + 1..]];
            && Sound(u, h, eq)
            && (forall k :: Find(u, k, h, eq) == if eq(key, k) then None else Find(t, k, h, eq))
  {
    hide Find;
    var i := h(key) % |t|;
    var b := t[i];
    var c := b[..p] + b[p + 1..];
    SoundChain(t, i, h, eq);
    CutChain(b, p, key, i, |t|, h, eq);
    var u := t[i := c];
    ReplaceChain(t, i, c, h, eq);
    forall k
      ensures Find(u, k, h, eq) == if eq(key, k) then None else Find(t, k, h, eq)
    {
      if eq(key, k) {
        forall q | 0 <= q < |c|
          ensures !eq(c[q].key, k)
        {
          assert c[q] in c;
        }
        FindNone(u, k, h, eq);
      } else {
        OthersStay(t, key, c, k, h, eq);
      }
    }
  }

  lemma CutChain<K(!new), V(!new)>(b: seq<Entry<K, V>>, p: nat, key: K, i: nat, n: nat, h: K -> int, eq: (K, K) -> bool)
    requires n > 0 && Lawful(h, eq) && ChainFits(b, i, n, h, eq) && p < |b| && eq(b[p].key, key)
    ensures var c := b[..p] + b[p + 1..];
            && ChainFits(c, i, n, h, eq)
            && (forall e: Entry<K, V> :: !eq(e.key, key) ==> (e in c <==> e in b))
            && (forall e: Entry<K, V> :: e in c ==> forall k :: eq(key, k) ==> !eq(e.key, k))
  {
    hide Lawful;
    var c := b[..p] + b[p + 1..];
    forall e: Entry<K, V> | e in c
      ensures e in b && !eq(e.key, key)
    {
      var j :| 0 <= j < |c| && c[j] == e;
      var j' := if j < p then j else j + 1;
      assert b[j'] == e && j' != p;
      OnlyOne(b, p, j', key, h, eq);
    }
    forall e: Entry<K, V> | e in b && !eq(e.key, key)
      ensures e in c
    {
      var j :| 0 <= j < |b| && b[j] == e;
      assert c[if j < p then j else j - 1] == e;
    }
    forall e: Entry<K, V>, k | e in c && eq(key, k)
      ensures !eq(e.key, k)
    {
      if eq(e.key, k) {
        Symmetric(key, k, h, eq);
        Symmetric(e.key, k, h, eq);
        Joined(k, e.key, key, h, eq);
      }
    }
  }

  lemma Symmetric<K(!new)>(a: K, b: K, h: K -> int, eq: (K, K) -> bool)
    requires Lawful(h, eq) && eq(a, b)
    ensures eq(b, a)
  {
  }

  // A chain holds one entry for a key.
  lemma OnlyOne<K(!new), V(!new)>(b: seq<Entry<K, V>>, p: nat, j: nat, key: K, h: K -> int, eq: (K, K) -> bool)
    requires Lawful(h, eq) && UniqueChain(b, eq) && p < |b| && j < |b| && j != p && eq(b[p].key, key)
    ensures !eq(b[j].key, key)
  {
    hide Lawful;
    if eq(b[j].key, key) {
      Symmetric(b[p].key, key, h, eq);
      Symmetric(b[j].key, key, h, eq);
      Joined(key, b[p].key, b[j].key, h, eq);
      Symmetric(b[p].key, b[j].key, h, eq);
    }
  }

  // ----- the size -----

  function Count<K, V>(t: seq<seq<Entry<K, V>>>): (n: nat) {
    if t == [] then 0 else Count(t[..|t| - 1]) + |t[|t| - 1]|
  }

  lemma {:induction false} CountSet<K, V>(t: seq<seq<Entry<K, V>>>, i: nat, c: seq<Entry<K, V>>)
    requires i < |t|
    ensures Count(t[i := c]) == Count(t) - |t[i]| + |c|
  {
    var n := |t| - 1;
    var u := t[i := c];
    if i == n {
      assert u[..n] == t[..n];
    } else {
      CountSet(t[..n], i, c);
      assert u[..n] == t[..n][i := c];
    }
  }

  lemma {:induction false} CountEmpty<K, V>(t: seq<seq<Entry<K, V>>>)
    requires forall i :: 0 <= i < |t| ==> t[i] == []
    ensures Count(t) == 0
  {
    if t != [] {
      CountEmpty(t[..|t| - 1]);
    }
  }

  // ----- moving to a larger table -----

  // An entry that has been moved when the first i buckets and j entries of the next are done.
  ghost predicate Done<K, V>(t: seq<seq<Entry<K, V>>>, i: nat, j: nat, e: Entry<K, V>)
    requires |t| > 0 && i <= |t| && (i < |t| ==> j <= |t[i]|)
  {
    var b := e.hash % |t|;
    if b < i then e in t[b] else b == i && e in t[i][..j]
  }

  // The new table holds exactly the entries that are done, each in its new bucket.
  ghost predicate Moved<K(!new), V(!new)>(t: seq<seq<Entry<K, V>>>, i: nat, j: nat, u: seq<seq<Entry<K, V>>>, h: K -> int, eq: (K, K) -> bool)
    requires |t| > 0 && i <= |t| && (i < |t| ==> j <= |t[i]|)
  {
    && |u| > 0 && Placed(u, h) && Unique(u, eq)
    && (forall e: Entry<K, V> :: e in u[e.hash % |u|] <==> Done(t, i, j, e))
    && Count(u) == Count(t[..i]) + (if i < |t| then j else 0)
  }

  lemma MoveEntry<K(!new), V(!new)>(t: seq<seq<Entry<K, V>>>, i: nat, j: nat, u: seq<seq<Entry<K, V>>>, h: K -> int, eq: (K, K) -> bool)
    requires Sound(t, h, eq) && i < |t| && j < |t[i]| && Moved(t, i, j, u, h, eq)
    ensures var e := t[i][j];
            var k := e.hash % |u|;
            Moved(t, i, j + 1, u[k := [e] + u[k]], h, eq)
  {
    var e := t[i][j];
    var k := e.hash % |u|;
    var c := [e] + u[k];
    var v := u[k := c];
    CountSet(u, k, c);
    assert e.hash == h(e.key) && e.hash % |t| == i;
    forall q | 0 <= q < |u[k]|
      ensures !eq(e.key, u[k][q].key)
    {
      var f := u[k][q];
      assert f.hash == h(f.key) && f.hash % |u| == k;
      assert f in u[f.hash % |u|];
      if f.hash == e.hash {
        assert f in t[i][..j];
        var r: nat :| r < j && t[i][r] == f;
        assert UniqueChain(t[i], eq);
        assert !eq(f.key, e.key);
      }
    }
    assert UniqueChain(c, eq);
    forall f: Entry<K, V>
      ensures f in v[f.hash % |v|] <==> Done(t, i, j + 1, f)
    {
      assert t[i][..j + 1] == t[i][..j] + [e];
      if f.hash % |v| == k {
        assert f in c <==> f == e || f in u[k];
      }
    }
  }

  lemma NextBucket<K(!new), V(!new)>(t: seq<seq<Entry<K, V>>>, i: nat, u: seq<seq<Entry<K, V>>>, h: K -> int, eq: (K, K) -> bool)
    requires |t| > 0 && i < |t| && Moved(t, i, |t[i]|, u, h, eq)
    ensures Moved(t, i + 1, 0, u, h, eq)
  {
    assert t[..i + 1][..i] == t[..i];
    assert t[i][..|t[i]|] == t[i];
    forall f: Entry<K, V>
      ensures Done(t, i, |t[i]|, f) <==> Done(t, i + 1, 0, f)
    {
    }
  }

  lemma MoveStart<K(!new), V(!new)>(t: seq<seq<Entry<K, V>>>, u: seq<seq<Entry<K, V>>>, h: K -> int, eq: (K, K) -> bool)
    requires |t| > 0 && |u| > 0 && forall i :: 0 <= i < |u| ==> u[i] == []
    ensures Moved(t, 0, 0, u, h, eq)
  {
    CountEmpty(u);
    assert t[..0] == [];
  }

  // The new table maps every key as the old one did.
  lemma MoveEnds<K(!new), V(!new)>(t: seq<seq<Entry<K, V>>>, u: seq<seq<Entry<K, V>>>, h: K -> int, eq: (K, K) -> bool)
    requires Sound(t, h, eq) && Moved(t, |t|, 0, u, h, eq)
    ensures Sound(u, h, eq) && Count(u) == Count(t)
    ensures forall k :: Find(u, k, h, eq) == Find(t, k, h, eq)
  {
    hide Find;
    assert t[..|t|] == t;
    forall k
      ensures Find(u, k, h, eq) == Find(t, k, h, eq)
    {
      forall e: Entry<K, V> | eq(e.key, k)
        ensures e in t[h(k) % |t|] <==> e in u[h(k) % |u|]
      {
        SameBuckets(t, u, e, k, h, eq);
      }
      FindSame(t, u, k, h, eq);
    }
  }

  lemma SameBuckets<K(!new), V(!new)>(t: seq<seq<Entry<K, V>>>, u: seq<seq<Entry<K, V>>>, e: Entry<K, V>, k: K, h: K -> int, eq: (K, K) -> bool)
    requires Sound(t, h, eq) && Moved(t, |t|, 0, u, h, eq) && eq(e.key, k)
    ensures e in t[h(k) % |t|] <==> e in u[h(k) % |u|]
  {
    assert h(e.key) == h(k);
    if e in t[h(k) % |t|] {
      var j: nat :| j < |t[h(k) % |t|]| && t[h(k) % |t|][j] == e;
      assert e.hash == h(e.key);
      assert Done(t, |t|, 0, e);
    }
    if e in u[h(k) % |u|] {
      var j: nat :| j < |u[h(k) % |u|]| && u[h(k) % |u|][j] == e;
      assert e.hash == h(e.key);
      assert Done(t, |t|, 0, e);
    }
  }
}
