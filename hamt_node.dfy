/** The nodes of the hash array mapped trie behind Gleam's `Dict`, what they hold, and
    the shape every operation keeps.

    A key's 32-bit hash is cut into 5-bit chunks; the node at depth `d` (shift `5 d`)
    routes a key by the chunk at its shift. An index node keeps one child per set bit
    of its bitmap, in bit order; an array node keeps 32 optional slots and the number
    of occupied ones; a collision node keeps entries whose keys share one hash. `getHash`
    is the parameter `h`; `isEqual` is `==`. */
module HamtNode {
  import opened Prelude
  import opened HamtBits

  const MaxIndexNode: nat := 16
  const MinArrayNode: nat := 8

  datatype Node<K, V> =
    | Entry(k: K, v: V)
    | ArrayNode(size: int, slots: seq<Option<Node<K, V>>>)
    | IndexNode(bitmap: bv32, nodes: seq<Node<K, V>>)
    | CollisionNode(hash: bv32, nodes: seq<Node<K, V>>)

  /** `EMPTY`: the index node with no children. */
  function Empty<K(==), V>(): Node<K, V>
  {
    IndexNode(0, [])
  }

  /** The union of a sequence of maps, later ones winning. */
  function UnionAll<K(==), V>(ms: seq<map<K, V>>): map<K, V>
  {
    if ms == [] then map[] else UnionAll(ms[..|ms| - 1]) + ms[|ms| - 1]
  }

  /** The key-value pairs held under a node. */
  function Elements<K(==), V>(n: Node<K, V>): map<K, V>
  {
    match n
    case Entry(k, v) => map[k := v]
    case ArrayNode(_, slots) =>
      UnionAll(seq(|slots|, i requires 0 <= i < |slots| =>
        if slots[i].Some? then Elements(slots[i].value) else map[]))
    case IndexNode(_, nodes) =>
      UnionAll(seq(|nodes|, i requires 0 <= i < |nodes| => Elements(nodes[i])))
    case CollisionNode(_, nodes) =>
      UnionAll(seq(|nodes|, i requires 0 <= i < |nodes| => Elements(nodes[i])))
  }

  function ChildMaps<K(==), V>(nodes: seq<Node<K, V>>): (ms: seq<map<K, V>>)
    ensures |ms| == |nodes| && forall i :: 0 <= i < |nodes| ==> ms[i] == Elements(nodes[i])
  {
    seq(|nodes|, i requires 0 <= i < |nodes| => Elements(nodes[i]))
  }

  function SlotMaps<K(==), V>(slots: seq<Option<Node<K, V>>>): (ms: seq<map<K, V>>)
    ensures |ms| == |slots|
    ensures forall i :: 0 <= i < |slots| ==> ms[i] == if slots[i].Some? then Elements(slots[i].value) else map[]
  {
    seq(|slots|, i requires 0 <= i < |slots| => if slots[i].Some? then Elements(slots[i].value) else map[])
  }

  lemma ElementsOfArrays<K, V>(n: Node<K, V>)
    ensures n.ArrayNode? ==> Elements(n) == UnionAll(SlotMaps(n.slots))
    ensures n.IndexNode? || n.CollisionNode? ==> Elements(n) == UnionAll(ChildMaps(n.nodes))
  {
  }

  /** The occupied slots of an array node. */
  function Occupied<K(==), V>(slots: seq<Option<Node<K, V>>>): seq<bool>
  {
    seq(|slots|, i requires 0 <= i < |slots| => slots[i].Some?)
  }

  /** Hashes `a` and `b` have the same chunks at the shifts below `shift`. */
  predicate Agree(a: bv32, b: bv32, shift: nat)
  {
    shift < Shift || (Mask(a, shift - Shift) == Mask(b, shift - Shift) && Agree(a, b, shift - Shift))
  }

  /** Every key under `n` has the same chunks as `hash` above `shift`: `n` is where
      a key of hash `hash` is looked for at `shift`. */
  predicate Prefixed<K(==), V>(h: K -> bv32, n: Node<K, V>, shift: nat, hash: bv32)
  {
    forall k :: k in Elements(n) ==> Agree(h(k), hash, shift)
  }

  /** The keys under `child` all route to position `m` at `shift`. */
  predicate RoutedTo<K(==), V>(h: K -> bv32, child: Node<K, V>, shift: nat, m: nat)
  {
    forall k :: k in Elements(child) ==> Mask(h(k), shift) as nat == m
  }

  /** The shape `assoc` and `without` keep (`shift` is the node's depth times 5):
      index and array nodes sit at shift 30 at most, no child is empty, an index node
      holds one child per set bit and each key lies under the child ranked at its
      chunk, an array node's `size` counts its occupied slots and each key lies in the
      slot of its chunk, and a collision node holds distinct keys of one hash. */
  predicate WF<K(==), V>(h: K -> bv32, n: Node<K, V>, shift: nat)
  {
    match n
    case Entry(_, _) => true
    case ArrayNode(size, slots) =>
      && shift <= 30 && ArrayRouted(h, n, shift)
      && size == Count(Occupied(slots)) && size >= MinArrayNode
      && forall i :: 0 <= i < |slots| && slots[i].Some? ==>
           WF(h, slots[i].value, shift + Shift) && Elements(slots[i].value) != map[]
    case IndexNode(bitmap, nodes) =>
      && shift <= 30 && IndexRouted(h, n, shift)
      && forall p :: 0 <= p < |nodes| ==>
           WF(h, nodes[p], shift + Shift) && Elements(nodes[p]) != map[]
    case CollisionNode(hash, nodes) =>
      && |nodes| > 0
      && (forall p :: 0 <= p < |nodes| ==> nodes[p].Entry? && h(nodes[p].k) == hash)
      && forall p, q :: 0 <= p < q < |nodes| ==> nodes[p].k != nodes[q].k
  }

  /** The routing part of `WF` for an index node: one child per set bit, and each key
      under the child ranked at its chunk. */
  predicate IndexRouted<K(==), V>(h: K -> bv32, n: Node<K, V>, shift: nat)
  {
    && n.IndexNode? && |n.nodes| == Popcount(n.bitmap)
    && forall p :: 0 <= p < |n.nodes| ==>
         forall k :: k in Elements(n.nodes[p]) ==>
           var m := Mask(h(k), shift) as nat;
           Bits(n.bitmap)[m] && Rank(n.bitmap, m) == p
  }

  /** The children part of `WF` for an index node: each child well formed one level
      down and non-empty. */
  predicate ChildrenWF<K(==), V>(h: K -> bv32, n: Node<K, V>, shift: nat)
  {
    n.IndexNode? && forall p :: 0 <= p < |n.nodes| ==> WF(h, n.nodes[p], shift + Shift) && Elements(n.nodes[p]) != map[]
  }

  /** The routing part of `WF` for an array node: each key in the slot of its chunk. */
  predicate ArrayRouted<K(==), V>(h: K -> bv32, n: Node<K, V>, shift: nat)
  {
    && n.ArrayNode? && |n.slots| == BucketSize
    && forall i :: 0 <= i < |n.slots| && n.slots[i].Some? ==> RoutedTo(h, n.slots[i].value, shift, i)
  }

  // Unions of maps whose keys are placed at one position each.

  /** If only position `p` may hold `k`, the union holds `k` exactly as `ms[p]` does. */
  lemma {:induction false} Locate<K, V>(ms: seq<map<K, V>>, p: int, k: K)
    requires forall q :: 0 <= q < |ms| && q != p ==> k !in ms[q]
    ensures k in UnionAll(ms) <==> 0 <= p < |ms| && k in ms[p]
    ensures k in UnionAll(ms) ==> UnionAll(ms)[k] == ms[p][k]
  {
    if ms != [] {
      Locate(ms[..|ms| - 1], p, k);
    }
  }

  // Where a key lies under a well-formed node.

  /** Under an index node, `k` can only be in the child ranked at its chunk. */
  lemma IndexLookup<K, V>(h: K -> bv32, n: Node<K, V>, shift: nat, k: K)
    requires IndexRouted(h, n, shift)
    ensures var m := Mask(h(k), shift) as nat;
            if Bits(n.bitmap)[m] then
              var p := Rank(n.bitmap, m);
              && p < |n.nodes|
              && (k in Elements(n) <==> k in Elements(n.nodes[p]))
              && (k in Elements(n) ==> Elements(n)[k] == Elements(n.nodes[p])[k])
            else k !in Elements(n)
  {
    var m := Mask(h(k), shift) as nat;
    var p := if Bits(n.bitmap)[m] then Rank(n.bitmap, m) else -1;
    var ms := ChildMaps(n.nodes);
    forall q | 0 <= q < |ms| && q != p
      ensures k !in ms[q]
    {
    }
    Locate(ms, p, k);
    if Bits(n.bitmap)[m] {
      RankBelow(Bits(n.bitmap), m);
    }
  }

  /** Under an array node, `k` can only be in the slot of its chunk. */
  lemma ArrayLookup<K, V>(h: K -> bv32, n: Node<K, V>, shift: nat, k: K)
    requires ArrayRouted(h, n, shift)
    ensures var m := Mask(h(k), shift) as nat;
            && m < |n.slots|
            && (k in Elements(n) <==> n.slots[m].Some? && k in Elements(n.slots[m].value))
            && (k in Elements(n) ==> Elements(n)[k] == Elements(n.slots[m].value)[k])
  {
    var m := Mask(h(k), shift) as nat;
    var ms := SlotMaps(n.slots);
    forall q | 0 <= q < |ms| && q != m
      ensures k !in ms[q]
    {
    }
    Locate(ms, m, k);
  }

  /** `collisionIndexOf(root, key)`: the position of the entry with key `key`, or -1. */
  function CollisionIndexOf<K(==), V>(nodes: seq<Node<K, V>>, key: K): (idx: int)
    requires forall p :: 0 <= p < |nodes| ==> nodes[p].Entry?
    ensures -1 <= idx < |nodes|
    ensures idx >= 0 ==> nodes[idx].k == key && forall p :: 0 <= p < idx ==> nodes[p].k != key
    ensures idx == -1 ==> forall p :: 0 <= p < |nodes| ==> nodes[p].k != key
  {
    IndexFrom(nodes, key, 0)
  }

  function IndexFrom<K(==), V>(nodes: seq<Node<K, V>>, key: K, i: nat): (idx: int)
    requires i <= |nodes| && forall p :: 0 <= p < |nodes| ==> nodes[p].Entry?
    requires forall p :: 0 <= p < i ==> nodes[p].k != key
    ensures -1 <= idx < |nodes|
    ensures idx >= 0 ==> nodes[idx].k == key && forall p :: 0 <= p < idx ==> nodes[p].k != key
    ensures idx == -1 ==> forall p :: 0 <= p < |nodes| ==> nodes[p].k != key
    decreases |nodes| - i
  {
    if i == |nodes| then -1 else if nodes[i].k == key then i else IndexFrom(nodes, key, i + 1)
  }

  /** `collisionIndexOf`: scan the entries from the front and stop at the first whose
      key equals `key`. */
  method CollisionIndexOfLoop<K(==), V>(nodes: seq<Node<K, V>>, key: K) returns (idx: int)
    requires forall p :: 0 <= p < |nodes| ==> nodes[p].Entry?
    ensures idx == CollisionIndexOf(nodes, key)
  {
    var size := |nodes|;
    for i := 0 to size
      invariant forall p :: 0 <= p < i ==> nodes[p].k != key
      invariant IndexFrom(nodes, key, i) == CollisionIndexOf(nodes, key)
    {
      if key == nodes[i].k {
        return i;
      }
    }
    return -1;
  }

  /** Under a collision node, `k` is exactly where `collisionIndexOf` finds it. */
  lemma CollisionLookup<K, V>(h: K -> bv32, n: Node<K, V>, shift: nat, k: K)
    requires n.CollisionNode? && WF(h, n, shift)
    ensures var idx := CollisionIndexOf(n.nodes, k);
            && (k in Elements(n) <==> idx >= 0)
            && (k in Elements(n) ==> Elements(n)[k] == n.nodes[idx].v)
  {
    var idx := CollisionIndexOf(n.nodes, k);
    var ms := ChildMaps(n.nodes);
    forall q | 0 <= q < |ms| && q != idx
      ensures k !in ms[q]
    {
      if idx >= 0 && q > idx {
        assert n.nodes[idx].k != n.nodes[q].k;
      }
    }
    Locate(ms, idx, k);
  }
}
