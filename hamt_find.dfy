/** `find` on the hash trie: the entry a key is stored in, if any. */
module HamtFind {
  import opened Prelude
  import opened HamtBits
  import opened HamtNode

  /** `find(root, shift, hash, key)`: the entry holding `key` under `root`, if any. */
  function Find<K(==), V>(h: K -> bv32, root: Node<K, V>, shift: nat, hash: bv32, key: K): (r: Option<Node<K, V>>)
    requires !root.Entry? && WF(h, root, shift) && hash == h(key)
    ensures r.Some? <==> key in Elements(root)
    ensures r.Some? ==> r.value == Entry(key, Elements(root)[key])
    decreases root, 2
  {
    match root
    case ArrayNode(_, _) => FindArray(h, root, shift, hash, key)
    case IndexNode(_, _) => FindIndex(h, root, shift, hash, key)
    case CollisionNode(_, _) => FindCollision(h, root, shift, key)
  }

  /** `findArray`: look in the slot of the key's chunk. */
  function FindArray<K(==), V>(h: K -> bv32, root: Node<K, V>, shift: nat, hash: bv32, key: K): (r: Option<Node<K, V>>)
    requires root.ArrayNode? && WF(h, root, shift) && hash == h(key)
    ensures r.Some? <==> key in Elements(root)
    ensures r.Some? ==> r.value == Entry(key, Elements(root)[key])
    decreases root, 1
  {
    ArrayLookup(h, root, shift, key);
    var idx := Mask(hash, shift) as nat;
    var node := root.slots[idx];
    if node.None? then None
    else if !node.value.Entry? then Find(h, node.value, shift + Shift, hash, key)
    else if key == node.value.k then node
    else None
  }

  /** `findIndex`: a clear bit means absent; otherwise look in the child at its index. */
  function FindIndex<K(==), V>(h: K -> bv32, root: Node<K, V>, shift: nat, hash: bv32, key: K): (r: Option<Node<K, V>>)
    requires root.IndexNode? && WF(h, root, shift) && hash == h(key)
    ensures r.Some? <==> key in Elements(root)
    ensures r.Some? ==> r.value == Entry(key, Elements(root)[key])
    decreases root, 1
  {
    var m := Mask(hash, shift);
    var bit := Bit(m);
    if root.bitmap & bit == 0 then
      IndexMiss(h, root, shift, key, m);
      None
    else
      IndexHit(h, root, shift, key, m);
      FindChild(h, root, shift, hash, key, Index(root.bitmap, bit))
  }

  /** The rest of `findIndex`, once the bitmap has named child `idx`. */
  function FindChild<K(==), V>(h: K -> bv32, root: Node<K, V>, shift: nat, hash: bv32, key: K, idx: nat): (r: Option<Node<K, V>>)
    requires root.IndexNode? && WF(h, root, shift) && hash == h(key) && idx < |root.nodes|
    requires key in Elements(root) <==> key in Elements(root.nodes[idx])
    requires key in Elements(root) ==> Elements(root)[key] == Elements(root.nodes[idx])[key]
    ensures r.Some? <==> key in Elements(root)
    ensures r.Some? ==> r.value == Entry(key, Elements(root)[key])
    decreases root, 0
  {
    var node := root.nodes[idx];
    if !node.Entry? then Find(h, node, shift + Shift, hash, key)
    else if key == node.k then Some(node)
    else None
  }

  /** A clear bit at the key's chunk: the key is not under the index node. */
  lemma IndexMiss<K, V>(h: K -> bv32, root: Node<K, V>, shift: nat, key: K, m: bv5)
    requires root.IndexNode? && WF(h, root, shift) && m == Mask(h(key), shift)
    ensures root.bitmap & Bit(m) == 0 ==> key !in Elements(root)
  {
    Probe(root.bitmap, m);
    IndexLookup(h, root, shift, key);
  }

  /** A set bit at the key's chunk: its `index` names the only child that may hold the key. */
  lemma IndexHit<K, V>(h: K -> bv32, root: Node<K, V>, shift: nat, key: K, m: bv5)
    requires root.IndexNode? && WF(h, root, shift) && m == Mask(h(key), shift)
    ensures root.bitmap & Bit(m) != 0 ==>
              var idx := Index(root.bitmap, Bit(m));
              && idx < |root.nodes|
              && (key in Elements(root) <==> key in Elements(root.nodes[idx]))
              && (key in Elements(root) ==> Elements(root)[key] == Elements(root.nodes[idx])[key])
  {
    Probe(root.bitmap, m);
    IndexLookup(h, root, shift, key);
  }

  /** `findCollision`: the entry `collisionIndexOf` finds. */
  function FindCollision<K(==), V>(h: K -> bv32, root: Node<K, V>, shift: nat, key: K): (r: Option<Node<K, V>>)
    requires root.CollisionNode? && WF(h, root, shift)
    ensures r.Some? <==> key in Elements(root)
    ensures r.Some? ==> r.value == Entry(key, Elements(root)[key])
  {
    CollisionLookup(h, root, shift, key);
    var idx := CollisionIndexOf(root.nodes, key);
    if idx < 0 then None else Some(root.nodes[idx])
  }
}
