/** The linked chains of hashmap.c: nodes, what they carry, and how relinking changes that. */
module HashChain {
  import opened HashTable

  // An entry of a chain; key and hash never change.
  class Node<K, V> {
    const key: K
    const hash: int
    var value: V
    var next: Node?<K, V>

    // createEntry
    constructor (k: K, h: int, v: V)
      ensures key == k && hash == h && value == v && next == null
    {
      key, hash, value, next := k, h, v, null;
    }
  }

  // The node at a position of a chain; the end of the chain is null.
  function At<K, V>(c: seq<Node<K, V>>, j: nat): (n: Node?<K, V>) {
    if j < |c| then c[j] else null
  }

  // Following the links from head visits exactly these nodes.
  ghost predicate Linked<K, V>(head: Node?<K, V>, c: seq<Node<K, V>>)
    reads c
  {
    head == At(c, 0) && forall j :: 0 <= j < |c| ==> c[j].next == At(c, j + 1)
  }

  // The nodes carry these entries.
  ghost predicate Carries<K, V>(c: seq<Node<K, V>>, b: seq<Entry<K, V>>)
    reads c
  {
    |c| == |b| && forall j :: 0 <= j < |c| ==> b[j] == Entry(c[j].key, c[j].hash, c[j].value)
  }

  // Each bucket points to its chain and the chains carry the table.
  ghost predicate Shape<K, V>(heads: seq<Node?<K, V>>, chains: seq<seq<Node<K, V>>>, t: seq<seq<Entry<K, V>>>, nodes: set<Node<K, V>>)
    reads nodes
  {
    && |heads| == |chains| == |t|
    && (forall i, j :: 0 <= i < |chains| && 0 <= j < |chains[i]| ==> chains[i][j] in nodes)
    && (forall i :: 0 <= i < |chains| ==> Linked(heads[i], chains[i]) && Carries(chains[i], t[i]))
  }

  // No node is at two places.
  ghost predicate Apart<K, V>(chains: seq<seq<Node<K, V>>>) {
    forall i, j, k, l :: 0 <= i < |chains| && 0 <= j < |chains[i]| && 0 <= k < |chains| && 0 <= l < |chains[k]| && chains[i][j] == chains[k][l]
      ==> i == k && j == l
  }

  // That follows from the entries: each is in its own bucket, and no key is there twice.
  lemma ShapeApart<K(!new), V(!new)>(heads: seq<Node?<K, V>>, chains: seq<seq<Node<K, V>>>, t: seq<seq<Entry<K, V>>>, nodes: set<Node<K, V>>, h: K -> int, eq: (K, K) -> bool)
    requires Shape(heads, chains, t, nodes) && Sound(t, h, eq)
    ensures Apart(chains)
  {
    forall i, j, k, l | 0 <= i < |chains| && 0 <= j < |chains[i]| && 0 <= k < |chains| && 0 <= l < |chains[k]| && chains[i][j] == chains[k][l]
      ensures i == k && j == l
    {
      assert Carries(chains[i], t[i]) && Carries(chains[k], t[k]);
      assert t[i][j] == t[k][l];
      OnePlace(t, i, j, k, l, h, eq);
    }
  }

  lemma OnePlace<K(!new), V(!new)>(t: seq<seq<Entry<K, V>>>, i: nat, j: nat, k: nat, l: nat, h: K -> int, eq: (K, K) -> bool)
    requires Sound(t, h, eq) && i < |t| && j < |t[i]| && k < |t| && l < |t[k]| && t[i][j] == t[k][l]
    ensures i == k && j == l
  {
    assert t[i][j].hash % |t| == i && t[k][l].hash % |t| == k;
    assert UniqueChain(t[i], eq);
  }

  // The node whose link leads to a position; for the first position that is the bucket.
  function Before<K, V>(c: seq<Node<K, V>>, p: nat): (n: Node?<K, V>) {
    if p == 0 then null else At(c, p - 1)
  }

  // The links of a chain after the one that leads to position p was set to node.
  ghost predicate Spliced<K, V>(head: Node?<K, V>, c: seq<Node<K, V>>, p: nat, node: Node?<K, V>)
    reads c
  {
    && p <= |c| && head == (if p == 0 then node else c[0])
    && (forall j :: 0 <= j < |c| && j != p - 1 ==> c[j].next == At(c, j + 1))
    && (p > 0 ==> c[p - 1].next == node)
  }

  // As Shape, except for the links of one chain.
  ghost predicate OthersShape<K, V>(heads: seq<Node?<K, V>>, chains: seq<seq<Node<K, V>>>, t: seq<seq<Entry<K, V>>>, nodes: set<Node<K, V>>, index: nat)
    reads nodes
  {
    && |heads| == |chains| == |t|
    && (forall i, j :: 0 <= i < |chains| && 0 <= j < |chains[i]| ==> chains[i][j] in nodes)
    && (forall i :: 0 <= i < |chains| ==> Carries(chains[i], t[i]) && (i != index ==> Linked(heads[i], chains[i])))
  }

  lemma Sizes<K, V>(heads: seq<Node?<K, V>>, chains: seq<seq<Node<K, V>>>, t: seq<seq<Entry<K, V>>>, nodes: set<Node<K, V>>)
    requires Shape(heads, chains, t, nodes)
    ensures |heads| == |chains| == |t|
  {
  }

  lemma BeforeIn<K, V>(heads: seq<Node?<K, V>>, chains: seq<seq<Node<K, V>>>, t: seq<seq<Entry<K, V>>>, nodes: set<Node<K, V>>, i: nat, p: nat)
    requires Shape(heads, chains, t, nodes) && i < |t|
    ensures |heads| == |chains| == |t| && |chains[i]| == |t[i]|
    ensures p <= |chains[i]| && Before(chains[i], p) != null ==> Before(chains[i], p) in nodes
    ensures p < |chains[i]| ==> chains[i][p].next == At(chains[i], p + 1)
  {
    assert Linked(heads[i], chains[i]) && Carries(chains[i], t[i]);
  }

  lemma AppendLinks<K, V>(heads: seq<Node?<K, V>>, chains: seq<seq<Node<K, V>>>, t: seq<seq<Entry<K, V>>>, nodes: set<Node<K, V>>, i: nat, node: Node<K, V>)
    requires OthersShape(heads, chains, t, nodes, i) && i < |t| && Spliced(heads[i], chains[i], |chains[i]|, node)
    requires node.next == null
    ensures Shape(heads, chains[i := chains[i] + [node]], t[i := t[i] + [Entry(node.key, node.hash, node.value)]], nodes + {node})
  {
    assert Carries(chains[i], t[i]);
    assert Linked(heads[i], chains[i] + [node]);
    assert Carries(chains[i] + [node], t[i] + [Entry(node.key, node.hash, node.value)]);
  }

  // A chain whose links jump over one node.
  lemma CutLinks<K, V>(heads: seq<Node?<K, V>>, chains: seq<seq<Node<K, V>>>, t: seq<seq<Entry<K, V>>>, nodes: set<Node<K, V>>, i: nat, p: nat)
    requires OthersShape(heads, chains, t, nodes, i) && i < |t| && p < |chains[i]| == |t[i]|
    requires Spliced(heads[i], chains[i], p, At(chains[i], p + 1))
    ensures Shape(heads, chains[i := chains[i][..p] + chains[i][p + 1..]], t[i := t[i][..p] + t[i][p + 1..]], nodes)
  {
    var c, b := chains[i], t[i];
    var d := c[..p] + c[p + 1..];
    assert Carries(c, b);
    forall j | 0 <= j < |d|
      ensures d[j].next == At(d, j + 1)
    {
      assert j < p ==> d[j] == c[j];
      assert j >= p ==> d[j] == c[j + 1];
    }
    assert Linked(heads[i], d);
    assert Carries(d, b[..p] + b[p + 1..]);
  }

  // A chain with one more node in front.
  lemma PushLinks<K, V>(heads: seq<Node?<K, V>>, chains: seq<seq<Node<K, V>>>, t: seq<seq<Entry<K, V>>>, nodes: set<Node<K, V>>, i: nat, node: Node<K, V>)
    requires OthersShape(heads, chains, t, nodes, i) && i < |t| && heads[i] == node && Linked(node.next, chains[i])
    ensures Shape(heads, chains[i := [node] + chains[i]], t[i := [Entry(node.key, node.hash, node.value)] + t[i]], nodes + {node})
  {
    assert Carries(chains[i], t[i]);
    assert Linked(heads[i], [node] + chains[i]);
    assert Carries([node] + chains[i], [Entry(node.key, node.hash, node.value)] + t[i]);
  }

  // A move under way: the old chains and table, the place reached in them, the new chains
  // with what they carry, and the nodes moved so far.
  datatype Moves<!K, !V> = Moves(
    chains: seq<seq<Node<K, V>>>, t: seq<seq<Entry<K, V>>>, nodes: set<Node<K, V>>, i: nat, j: nat,
    d: seq<seq<Node<K, V>>>, u: seq<seq<Entry<K, V>>>, moved: set<Node<K, V>>)

  // The nodes still to be moved keep their old links.
  ghost predicate Moving<K, V>(m: Moves<K, V>, heads: seq<Node?<K, V>>)
    reads m.nodes, m.moved
  {
    && |m.chains| == |m.t| && Shape(heads, m.d, m.u, m.moved) && m.moved <= m.nodes
    && (forall k, l :: 0 <= k < |m.chains| && 0 <= l < |m.chains[k]| ==> m.chains[k][l] in m.nodes)
    && (forall k :: 0 <= k < |m.chains| ==> Carries(m.chains[k], m.t[k]))
    && (forall k, l :: 0 <= k < |m.chains| && 0 <= l < |m.chains[k]| && (k > m.i || (k == m.i && l >= m.j))
          ==> m.chains[k][l] !in m.moved && m.chains[k][l].next == At(m.chains[k], l + 1))
  }

  ghost function NextMove<K, V>(m: Moves<K, V>, index: nat): (n: Moves<K, V>)
    requires m.i < |m.chains| && m.j < |m.chains[m.i]| && m.i < |m.t| && m.j < |m.t[m.i]|
    requires index < |m.d| && index < |m.u|
    ensures n.i == m.i && n.j == m.j + 1 && forall size :: SameMove(m, m.chains, m.t, m.nodes, size) ==> SameMove(n, m.chains, m.t, m.nodes, size)
  {
    var entry := m.chains[m.i][m.j];
    m.(j := m.j + 1, moved := m.moved + {entry}, d := m.d[index := [entry] + m.d[index]], u := m.u[index := [m.t[m.i][m.j]] + m.u[index]])
  }

  // The place is in the old table, and the new table holds what was moved.
  ghost predicate MovesIn<K(!new), V(!new)>(m: Moves<K, V>, h: K -> int, eq: (K, K) -> bool, heads: seq<Node?<K, V>>)
    reads m.nodes, m.moved
  {
    && Sound(m.t, h, eq) && m.i <= |m.t| && (m.i < |m.t| ==> m.j <= |m.t[m.i]|)
    && Moving(m, heads) && Moved(m.t, m.i, m.j, m.u, h, eq)
  }

  // The old state and the new size stay.
  ghost predicate SameMove<K, V>(m: Moves<K, V>, chains: seq<seq<Node<K, V>>>, t: seq<seq<Entry<K, V>>>, nodes: set<Node<K, V>>, n: nat) {
    m.chains == chains && m.t == t && m.nodes == nodes && |m.d| == |m.u| == n
  }

  lemma MoveStarts<K(!new), V(!new)>(m: Moves<K, V>, old_heads: seq<Node?<K, V>>, heads: seq<Node?<K, V>>, h: K -> int, eq: (K, K) -> bool)
    requires Shape(old_heads, m.chains, m.t, m.nodes) && Sound(m.t, h, eq)
    requires m.i == m.j == 0 && m.moved == {} && |heads| == |m.d| == |m.u| > 0
    requires forall k :: 0 <= k < |heads| ==> heads[k] == null && m.d[k] == [] && m.u[k] == []
    ensures MovesIn(m, h, eq, heads)
    ensures |old_heads| == |m.chains| && forall k :: 0 <= k < |old_heads| ==> old_heads[k] == At(m.chains[k], 0)
  {
    MoveStart(m.t, m.u, h, eq);
    forall k | 0 <= k < |m.chains|
      ensures Carries(m.chains[k], m.t[k]) && old_heads[k] == At(m.chains[k], 0)
    {
      assert Linked(old_heads[k], m.chains[k]);
    }
    forall k, l | 0 <= k < |m.chains| && 0 <= l < |m.chains[k]|
      ensures m.chains[k][l].next == At(m.chains[k], l + 1)
    {
      assert Linked(old_heads[k], m.chains[k]);
    }
  }

  // What is known of the next node to be moved.
  lemma MoveOn<K(!new), V(!new)>(m: Moves<K, V>, h: K -> int, eq: (K, K) -> bool, heads: seq<Node?<K, V>>)
    requires MovesIn(m, h, eq, heads) && m.i < |m.chains| && At(m.chains[m.i], m.j) != null
    ensures m.i < |m.t| && m.j < |m.t[m.i]| && m.j < |m.chains[m.i]| && Moving(m, heads)
    ensures var entry := m.chains[m.i][m.j];
            && entry in m.nodes && entry.next == At(m.chains[m.i], m.j + 1) && entry.hash == m.t[m.i][m.j].hash
            && |m.u| == |m.d| > 0
            && Moved(m.t, m.i, m.j + 1, NextMove(m, entry.hash % |m.u|).u, h, eq)
  {
    assert Carries(m.chains[m.i], m.t[m.i]);
    MoveEntry(m.t, m.i, m.j, m.u, h, eq);
  }

  lemma MovedOn<K(!new), V(!new)>(m: Moves<K, V>, h: K -> int, eq: (K, K) -> bool, heads: seq<Node?<K, V>>)
    requires Sound(m.t, h, eq) && Moving(m, heads) && m.i < |m.t| && m.j <= |m.t[m.i]| && Moved(m.t, m.i, m.j, m.u, h, eq)
    ensures MovesIn(m, h, eq, heads)
  {
  }

  lemma NextChain<K(!new), V(!new)>(m: Moves<K, V>, h: K -> int, eq: (K, K) -> bool, heads: seq<Node?<K, V>>)
    requires MovesIn(m, h, eq, heads) && m.i < |m.chains| && At(m.chains[m.i], m.j) == null
    ensures MovesIn(m.(i := m.i + 1, j := 0), h, eq, heads)
  {
    assert Carries(m.chains[m.i], m.t[m.i]);
    NextBucket(m.t, m.i, m.u, h, eq);
  }

  lemma MoveDone<K(!new), V(!new)>(m: Moves<K, V>, h: K -> int, eq: (K, K) -> bool, heads: seq<Node?<K, V>>)
    requires MovesIn(m, h, eq, heads) && m.i == |m.t| && m.j == 0
    ensures Shape(heads, m.d, m.u, m.nodes) && Sound(m.u, h, eq) && Count(m.u) == Count(m.t)
    ensures forall k :: Find(m.u, k, h, eq) == Find(m.t, k, h, eq)
  {
    hide Find, Sound, Moved;
    MoveEnds(m.t, m.u, h, eq);
  }
}
