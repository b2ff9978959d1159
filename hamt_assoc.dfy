/** `assoc` on the hash trie: the node with `key` bound to `val`, and whether a new key
    was added (the source's `addedLeaf` flag, returned here with the node). */
module HamtAssoc {
  import opened Prelude
  import opened HamtBits
  import opened HamtArrays
  import opened HamtNode
  import opened HamtShape

  /** What `assoc` yields: the new node, and whether it set `addedLeaf`. */
  datatype Insertion<K, V> = Insertion(node: Node<K, V>, added: bool)

  /** `r` is a correct outcome of binding `key` to `val` under `root`: a well-formed node
      holding the old contents with the new binding, the very same node exactly when the
      binding was already there, and `addedLeaf` set exactly when `key` was absent. */
  predicate Inserts<K(==), V(==)>(h: K -> bv32, root: Node<K, V>, shift: nat, key: K, val: V, r: Insertion<K, V>)
  {
    && WF(h, r.node, shift) && !r.node.Entry?
    && Elements(r.node) == Elements(root)[key := val]
    && (r.added <==> key !in Elements(root))
    && (r.node == root <==> key in Elements(root) && Elements(root)[key] == val)
  }

  /** `assoc(root, shift, hash, key, val, addedLeaf)`: the node is the old one with `key`
      bound to `val`, is the very same node exactly when `key` was already bound to `val`,
      and `addedLeaf` is set exactly when `key` was absent. */
  function Assoc<K(==), V(==)>(h: K -> bv32, root: Node<K, V>, shift: nat, hash: bv32, key: K, val: V): (r: Insertion<K, V>)
    requires !root.Entry? && WF(h, root, shift) && shift % Shift == 0 && shift <= 35
    requires hash == h(key) && Prefixed(h, root, shift, hash)
    ensures WF(h, r.node, shift) && !r.node.Entry?
    ensures Elements(r.node) == Elements(root)[key := val]
    ensures r.added <==> key !in Elements(root)
    ensures r.node == root <==> key in Elements(root) && Elements(root)[key] == val
    decreases 35 - shift, if root.CollisionNode? then 8 else 5
  {
    match root
    case ArrayNode(_, _) => AssocArray(h, root, shift, hash, key, val)
    case IndexNode(_, _) => AssocIndex(h, root, shift, hash, key, val)
    case CollisionNode(_, _) => AssocCollision(h, root, shift, hash, key, val)
  }

  /** `createNode(shift, key1, val1, key2hash, key2, val2)`: a node holding both keys,
      a collision node when their hashes are equal. */
  function CreateNode<K(==), V(==)>(h: K -> bv32, shift: nat, key1: K, val1: V, key2hash: bv32, key2: K, val2: V): (r: Node<K, V>)
    requires key1 != key2 && h(key2) == key2hash && shift % Shift == 0 && shift <= 35
    requires Agree(h(key1), key2hash, shift)
    ensures WF(h, r, shift) && !r.Entry?
    ensures Elements(r) == map[key1 := val1, key2 := val2]
    decreases if h(key1) == key2hash then 0 else 35 - shift, 9
  {
    var key1hash := h(key1);
    if key1hash == key2hash then
      CollisionPair(h, shift, key1, val1, key2, val2);
      CollisionNode(key1hash, [Entry(key1, val1), Entry(key2, val2)])
    else
      AgreeBound(key1hash, key2hash, shift);
      EmptyWF<K, V>(h, shift);
      var first := AssocIndex(h, Empty(), shift, key1hash, key1, val1);
      Assoc(h, first.node, shift, key2hash, key2, val2).node
  }

  // Array nodes.

  /** `assocArray`: fill, overwrite or split the slot of the key's chunk, or recurse. */
  function AssocArray<K(==), V(==)>(h: K -> bv32, root: Node<K, V>, shift: nat, hash: bv32, key: K, val: V): (r: Insertion<K, V>)
    requires root.ArrayNode? && WF(h, root, shift) && shift % Shift == 0
    requires hash == h(key) && Prefixed(h, root, shift, hash)
    ensures Inserts(h, root, shift, key, val, r)
    decreases 35 - shift, 3
  {
    var idx := Mask(hash, shift) as nat;
    var node := root.slots[idx];
    if node.None? then
      var o := Some(Entry(key, val));
      ArrayPut(h, root, shift, key, val, o, root.size + 1, true);
      Insertion(ArrayNode(root.size + 1, CloneAndSet(root.slots, idx, o)), true)
    else if node.value.Entry? then
      AssocArrayEntry(h, root, shift, hash, key, val)
    else
      AssocArrayChild(h, root, shift, hash, key, val)
  }

  /** The slot of the key's chunk holds an entry: keep it, overwrite it, or split it with
      `createNode`. */
  function AssocArrayEntry<K(==), V(==)>(h: K -> bv32, root: Node<K, V>, shift: nat, hash: bv32, key: K, val: V): (r: Insertion<K, V>)
    requires root.ArrayNode? && WF(h, root, shift) && shift % Shift == 0
    requires hash == h(key) && Prefixed(h, root, shift, hash)
    requires var o := root.slots[Mask(hash, shift) as nat]; o.Some? && o.value.Entry?
    ensures Inserts(h, root, shift, key, val, r)
    decreases 35 - shift, 2
  {
    var idx := Mask(hash, shift) as nat;
    var node := root.slots[idx].value;
    if key == node.k then
      if val == node.v then
        ArrayKept(h, root, shift, key, val, false);
        Insertion(root, false)
      else
        var o := Some(Entry(key, val));
        ArrayPut(h, root, shift, key, val, o, root.size, false);
        Insertion(ArrayNode(root.size, CloneAndSet(root.slots, idx, o)), false)
    else
      ArraySlotAgree(h, root, shift, hash, node.k);
      NextShift(shift);
      var o := Some(CreateNode(h, shift + Shift, node.k, node.v, hash, key, val));
      ArrayPut(h, root, shift, key, val, o, root.size, true);
      Insertion(ArrayNode(root.size, CloneAndSet(root.slots, idx, o)), true)
  }

  /** The slot of the key's chunk holds a node: recurse into it. */
  function AssocArrayChild<K(==), V(==)>(h: K -> bv32, root: Node<K, V>, shift: nat, hash: bv32, key: K, val: V): (r: Insertion<K, V>)
    requires root.ArrayNode? && WF(h, root, shift) && shift % Shift == 0
    requires hash == h(key) && Prefixed(h, root, shift, hash)
    requires var o := root.slots[Mask(hash, shift) as nat]; o.Some? && !o.value.Entry?
    ensures Inserts(h, root, shift, key, val, r)
    decreases 35 - shift, 2
  {
    var idx := Mask(hash, shift) as nat;
    var node := root.slots[idx].value;
    ArraySlotPrefixed(h, root, shift, hash);
    NextShift(shift);
    var n := Assoc(h, node, shift + Shift, hash, key, val);
    if n.node == node then
      ArrayKept(h, root, shift, key, val, n.added);
      Insertion(root, n.added)
    else
      var o := Some(n.node);
      ArrayPut(h, root, shift, key, val, o, root.size, n.added);
      Insertion(ArrayNode(root.size, CloneAndSet(root.slots, idx, o)), n.added)
  }

  /** Setting the slot of `key`'s chunk to a node with the slot's contents plus the new
      binding is a correct outcome of `assoc`, with `size2` counting occupied slots. */
  lemma ArrayPut<K, V>(h: K -> bv32, root: Node<K, V>, shift: nat, key: K, val: V, o: Option<Node<K, V>>, size2: int, added: bool)
    requires root.ArrayNode? && WF(h, root, shift)
    requires o.Some? && WF(h, o.value, shift + Shift)
    requires var before := SlotElements(root.slots[Mask(h(key), shift) as nat]);
             && Elements(o.value) == before[key := val]
             && !(key in before && before[key] == val)
             && (added <==> key !in before)
    requires size2 == root.size + (if root.slots[Mask(h(key), shift) as nat].None? then 1 else 0)
    ensures Inserts(h, root, shift, key, val, Insertion(ArrayNode(size2, CloneAndSet(root.slots, Mask(h(key), shift) as nat, o)), added))
  {
    var next := ArrayNode(size2, CloneAndSet(root.slots, Mask(h(key), shift) as nat, o));
    ArrayEdit(h, root, shift, key, Put(val), o, size2);
    ArrayLookup(h, root, shift, key);
    Differs(next, root);
  }

  /** The slot of `key`'s chunk already binds `key` to `val`: the node is kept. */
  lemma ArrayKept<K, V>(h: K -> bv32, root: Node<K, V>, shift: nat, key: K, val: V, added: bool)
    requires root.ArrayNode? && WF(h, root, shift) && !added
    requires var before := SlotElements(root.slots[Mask(h(key), shift) as nat]);
             key in before && before[key] == val
    ensures Inserts(h, root, shift, key, val, Insertion(root, added))
  {
    ArrayLookup(h, root, shift, key);
  }

  /** The key of an entry in the slot of `hash`'s chunk agrees with `hash` one chunk further. */
  lemma ArraySlotAgree<K, V>(h: K -> bv32, root: Node<K, V>, shift: nat, hash: bv32, k: K)
    requires root.ArrayNode? && WF(h, root, shift) && Prefixed(h, root, shift, hash)
    requires var o := root.slots[Mask(hash, shift) as nat]; o.Some? && k in Elements(o.value)
    ensures Agree(h(k), hash, shift + Shift)
  {
    ArrayLookup(h, root, shift, k);
  }

  /** The node in the slot of `hash`'s chunk is where `hash` is looked for one level down. */
  lemma ArraySlotPrefixed<K, V>(h: K -> bv32, root: Node<K, V>, shift: nat, hash: bv32)
    requires root.ArrayNode? && WF(h, root, shift) && Prefixed(h, root, shift, hash)
    requires root.slots[Mask(hash, shift) as nat].Some?
    ensures shift + Shift <= 35 && WF(h, root.slots[Mask(hash, shift) as nat].value, shift + Shift)
    ensures Prefixed(h, root.slots[Mask(hash, shift) as nat].value, shift + Shift, hash)
  {
    forall k | k in Elements(root.slots[Mask(hash, shift) as nat].value)
      ensures Agree(h(k), hash, shift + Shift)
    {
      ArraySlotAgree(h, root, shift, hash, k);
    }
  }

  // Index nodes.

  /** `assocIndex`: edit the child at the key's bit when it is set; otherwise splice in an
      entry, or turn a full index node into an array node. */
  function AssocIndex<K(==), V(==)>(h: K -> bv32, root: Node<K, V>, shift: nat, hash: bv32, key: K, val: V): (r: Insertion<K, V>)
    requires root.IndexNode? && WF(h, root, shift) && shift % Shift == 0
    requires hash == h(key) && Prefixed(h, root, shift, hash)
    ensures Inserts(h, root, shift, key, val, r)
    decreases 35 - shift, 4
  {
    var m := Mask(hash, shift);
    var bit := Bit(m);
    var idx := Index(root.bitmap, bit);
    if root.bitmap & bit != 0 then
      ProbeSet(root.bitmap, m);
      AssocIndexChild(h, root, shift, hash, key, val, idx)
    else
      ProbeClear(root.bitmap, m);
      AssocIndexMiss(h, root, shift, hash, key, val, idx)
  }

  /** The clear-bit branch of `assocIndex`: a full index node (`MAX_INDEX_NODE` children)
      becomes an array node; a smaller one takes the new entry at its rank. */
  function AssocIndexMiss<K(==), V(==)>(h: K -> bv32, root: Node<K, V>, shift: nat, hash: bv32, key: K, val: V, idx: nat): (r: Insertion<K, V>)
    requires root.IndexNode? && WF(h, root, shift) && shift % Shift == 0
    requires hash == h(key) && Prefixed(h, root, shift, hash)
    requires !Bits(root.bitmap)[Mask(hash, shift) as nat] && idx == Rank(root.bitmap, Mask(hash, shift) as nat)
    ensures Inserts(h, root, shift, key, val, r)
    decreases 35 - shift, 3
  {
    if |root.nodes| >= MaxIndexNode then
      AssocExpand(h, root, shift, hash, key, val)
    else
      AssocIndexInsert(h, root, shift, hash, key, val, idx, WithBit(root.bitmap, Mask(hash, shift)))
  }

  /** The clear-bit branch of `assocIndex` below `MAX_INDEX_NODE` children: splice the
      entry in at its rank, under the bitmap `b2` with the key's bit set. */
  function AssocIndexInsert<K(==), V(==)>(h: K -> bv32, root: Node<K, V>, shift: nat, hash: bv32, key: K, val: V, idx: nat, b2: bv32): (r: Insertion<K, V>)
    requires root.IndexNode? && WF(h, root, shift) && hash == h(key)
    requires !Bits(root.bitmap)[Mask(hash, shift) as nat] && idx == Rank(root.bitmap, Mask(hash, shift) as nat)
    requires Bits(b2) == Bits(root.bitmap)[Mask(hash, shift) as nat := true]
    ensures Inserts(h, root, shift, key, val, r)
  {
    RankAtMost(root.bitmap, Mask(hash, shift) as nat);
    IndexAdd(h, root, shift, key, val, idx, b2);
    Insertion(IndexNode(b2, SpliceIn(root.nodes, idx, Entry(key, val))), true)
  }

  /** The set-bit branch of `assocIndex`: the child at `idx` is recursed into, or it is an
      entry that is kept, overwritten or split. */
  function AssocIndexChild<K(==), V(==)>(h: K -> bv32, root: Node<K, V>, shift: nat, hash: bv32, key: K, val: V, idx: nat): (r: Insertion<K, V>)
    requires root.IndexNode? && WF(h, root, shift) && shift % Shift == 0
    requires hash == h(key) && Prefixed(h, root, shift, hash)
    requires Bits(root.bitmap)[Mask(hash, shift) as nat] && idx == Rank(root.bitmap, Mask(hash, shift) as nat)
    ensures Inserts(h, root, shift, key, val, r)
    decreases 35 - shift, 2
  {
    RankBelow(Bits(root.bitmap), Mask(hash, shift) as nat);
    if !root.nodes[idx].Entry? then
      AssocIndexRecurse(h, root, shift, hash, key, val, idx)
    else
      AssocIndexEntry(h, root, shift, hash, key, val, idx)
  }

  /** The child at the key's bit is a node: recurse into it. */
  function AssocIndexRecurse<K(==), V(==)>(h: K -> bv32, root: Node<K, V>, shift: nat, hash: bv32, key: K, val: V, idx: nat): (r: Insertion<K, V>)
    requires root.IndexNode? && WF(h, root, shift) && shift % Shift == 0
    requires hash == h(key) && Prefixed(h, root, shift, hash)
    requires Bits(root.bitmap)[Mask(hash, shift) as nat] && idx == Rank(root.bitmap, Mask(hash, shift) as nat)
    requires idx < |root.nodes| && !root.nodes[idx].Entry?
    ensures Inserts(h, root, shift, key, val, r)
    decreases 35 - shift, 1
  {
    var node := root.nodes[idx];
    IndexChildPrefixed(h, root, shift, hash, idx);
    NextShift(shift);
    var n := Assoc(h, node, shift + Shift, hash, key, val);
    if n.node == node then
      IndexKept(h, root, shift, key, val, idx, n.added);
      Insertion(root, n.added)
    else
      IndexPut(h, root, shift, key, val, idx, n.node, n.added);
      Insertion(IndexNode(root.bitmap, CloneAndSet(root.nodes, idx, n.node)), n.added)
  }

  /** The child at the key's bit is an entry: keep or overwrite it when it holds `key`,
      otherwise split it with `createNode`. */
  function AssocIndexEntry<K(==), V(==)>(h: K -> bv32, root: Node<K, V>, shift: nat, hash: bv32, key: K, val: V, idx: nat): (r: Insertion<K, V>)
    requires root.IndexNode? && WF(h, root, shift) && shift % Shift == 0
    requires hash == h(key) && Prefixed(h, root, shift, hash)
    requires Bits(root.bitmap)[Mask(hash, shift) as nat] && idx == Rank(root.bitmap, Mask(hash, shift) as nat)
    requires idx < |root.nodes| && root.nodes[idx].Entry?
    ensures Inserts(h, root, shift, key, val, r)
    decreases 35 - shift, 1
  {
    if key == root.nodes[idx].k then
      AssocIndexSame(h, root, shift, key, val, idx)
    else
      AssocIndexSplit(h, root, shift, hash, key, val, idx)
  }

  /** The entry at the key's bit holds `key`: the node is kept when the value is the same,
      otherwise the entry is replaced, and no leaf is added either way. */
  function AssocIndexSame<K(==), V(==)>(h: K -> bv32, root: Node<K, V>, shift: nat, key: K, val: V, idx: nat): (r: Insertion<K, V>)
    requires root.IndexNode? && WF(h, root, shift)
    requires Bits(root.bitmap)[Mask(h(key), shift) as nat] && idx == Rank(root.bitmap, Mask(h(key), shift) as nat)
    requires idx < |root.nodes| && root.nodes[idx].Entry? && root.nodes[idx].k == key
    ensures Inserts(h, root, shift, key, val, r)
  {
    if val == root.nodes[idx].v then
      IndexKept(h, root, shift, key, val, idx, false);
      Insertion(root, false)
    else
      IndexPut(h, root, shift, key, val, idx, Entry(key, val), false);
      Insertion(IndexNode(root.bitmap, CloneAndSet(root.nodes, idx, Entry(key, val))), false)
  }

  /** The entry at the key's bit holds another key: both move into a node one level down. */
  function AssocIndexSplit<K(==), V(==)>(h: K -> bv32, root: Node<K, V>, shift: nat, hash: bv32, key: K, val: V, idx: nat): (r: Insertion<K, V>)
    requires root.IndexNode? && WF(h, root, shift) && shift % Shift == 0
    requires hash == h(key) && Prefixed(h, root, shift, hash)
    requires Bits(root.bitmap)[Mask(hash, shift) as nat] && idx == Rank(root.bitmap, Mask(hash, shift) as nat)
    requires idx < |root.nodes| && root.nodes[idx].Entry? && root.nodes[idx].k != key
    ensures Inserts(h, root, shift, key, val, r)
    decreases 35 - shift, 0
  {
    var node := root.nodes[idx];
    IndexChildAgree(h, root, shift, hash, idx, node.k);
    NextShift(shift);
    var c := CreateNode(h, shift + Shift, node.k, node.v, hash, key, val);
    IndexPut(h, root, shift, key, val, idx, c, true);
    Insertion(IndexNode(root.bitmap, CloneAndSet(root.nodes, idx, c)), true)
  }

  /** Replacing the child at `key`'s bit with a node holding its contents plus the new
      binding is a correct outcome of `assoc`. */
  lemma IndexPut<K, V>(h: K -> bv32, root: Node<K, V>, shift: nat, key: K, val: V, idx: nat, c: Node<K, V>, added: bool)
    requires root.IndexNode? && WF(h, root, shift)
    requires Bits(root.bitmap)[Mask(h(key), shift) as nat] && idx == Rank(root.bitmap, Mask(h(key), shift) as nat)
    requires idx < |root.nodes| && WF(h, c, shift + Shift)
    requires var before := Elements(root.nodes[idx]);
             && Elements(c) == before[key := val]
             && !(key in before && before[key] == val)
             && (added <==> key !in before)
    ensures Inserts(h, root, shift, key, val, Insertion(IndexNode(root.bitmap, CloneAndSet(root.nodes, idx, c)), added))
  {
    var next := IndexNode(root.bitmap, CloneAndSet(root.nodes, idx, c));
    IndexEdit(h, root, shift, key, Put(val), idx, c);
    IndexLookup(h, root, shift, key);
    Differs(next, root);
  }

  /** The child at `key`'s bit already binds `key` to `val`: the node is kept. */
  lemma IndexKept<K, V>(h: K -> bv32, root: Node<K, V>, shift: nat, key: K, val: V, idx: nat, added: bool)
    requires root.IndexNode? && WF(h, root, shift) && !added
    requires Bits(root.bitmap)[Mask(h(key), shift) as nat] && idx == Rank(root.bitmap, Mask(h(key), shift) as nat)
    requires idx < |root.nodes| && key in Elements(root.nodes[idx]) && Elements(root.nodes[idx])[key] == val
    ensures Inserts(h, root, shift, key, val, Insertion(root, added))
  {
    assert IndexRouted(h, root, shift);
    IndexLookup(h, root, shift, key);
    assert key in Elements(root) && Elements(root)[key] == val;
    assert Elements(root)[key := val] == Elements(root);
  }

  /** Splicing in an entry for an absent key and setting its bit is a correct outcome of
      `assoc`. */
  lemma IndexAdd<K, V>(h: K -> bv32, root: Node<K, V>, shift: nat, key: K, val: V, idx: nat, b2: bv32)
    requires root.IndexNode? && WF(h, root, shift)
    requires !Bits(root.bitmap)[Mask(h(key), shift) as nat] && idx == Rank(root.bitmap, Mask(h(key), shift) as nat)
    requires Bits(b2) == Bits(root.bitmap)[Mask(h(key), shift) as nat := true] && idx <= |root.nodes|
    ensures Inserts(h, root, shift, key, val, Insertion(IndexNode(b2, SpliceIn(root.nodes, idx, Entry(key, val))), true))
  {
    var next := IndexNode(b2, SpliceIn(root.nodes, idx, Entry(key, val)));
    IndexInsert(h, root, shift, key, val, idx, b2);
    IndexAbsent(h, root, shift, key);
    Differs(next, root);
  }

  /** A key under the child ranked at `hash`'s chunk agrees with `hash` one chunk further. */
  lemma IndexChildAgree<K, V>(h: K -> bv32, root: Node<K, V>, shift: nat, hash: bv32, idx: nat, k: K)
    requires IndexRouted(h, root, shift) && Prefixed(h, root, shift, hash)
    requires Bits(root.bitmap)[Mask(hash, shift) as nat] && idx == Rank(root.bitmap, Mask(hash, shift) as nat)
    requires idx < |root.nodes| && k in Elements(root.nodes[idx])
    ensures Agree(h(k), hash, shift + Shift)
  {
    var mk := Mask(h(k), shift) as nat;
    assert Bits(root.bitmap)[mk] && Rank(root.bitmap, mk) == idx;
    RankDistinct(Bits(root.bitmap), mk, Mask(hash, shift) as nat);
    IndexLookup(h, root, shift, k);
    assert Agree(h(k), hash, shift);
  }

  /** The child ranked at `hash`'s chunk is where `hash` is looked for one level down. */
  lemma IndexChildPrefixed<K, V>(h: K -> bv32, root: Node<K, V>, shift: nat, hash: bv32, idx: nat)
    requires root.IndexNode? && WF(h, root, shift) && Prefixed(h, root, shift, hash)
    requires Bits(root.bitmap)[Mask(hash, shift) as nat] && idx == Rank(root.bitmap, Mask(hash, shift) as nat)
    requires idx < |root.nodes|
    ensures shift + Shift <= 35 && WF(h, root.nodes[idx], shift + Shift)
    ensures Prefixed(h, root.nodes[idx], shift + Shift, hash)
  {
    forall k | k in Elements(root.nodes[idx])
      ensures Agree(h(k), hash, shift + Shift)
    {
      IndexChildAgree(h, root, shift, hash, idx, k);
    }
  }

  /** The branch of `assocIndex` for a full index node: the new key goes into a fresh index
      node one level down, and the old children spread into the slots of their bits. */
  function AssocExpand<K(==), V(==)>(h: K -> bv32, root: Node<K, V>, shift: nat, hash: bv32, key: K, val: V): (r: Insertion<K, V>)
    requires root.IndexNode? && WF(h, root, shift) && shift % Shift == 0
    requires hash == h(key) && Prefixed(h, root, shift, hash)
    requires !Bits(root.bitmap)[Mask(hash, shift) as nat] && |root.nodes| >= MaxIndexNode
    ensures Inserts(h, root, shift, key, val, r)
    decreases 35 - shift, 2
  {
    ExpandReady<K, V>(h, root, shift, hash);
    var child := AssocIndex(h, Empty(), shift + Shift, hash, key, val);
    ExpandInserts(h, root, shift, key, val, child);
    Insertion(ArrayNode(|root.nodes| + 1, Expand(root.bitmap, root.nodes, Mask(hash, shift) as nat, child.node)), child.added)
  }

  /** A full index node sits above shift 30, so an empty index node fits one level down. */
  lemma ExpandReady<K, V>(h: K -> bv32, root: Node<K, V>, shift: nat, hash: bv32)
    requires root.IndexNode? && WF(h, root, shift) && shift % Shift == 0 && |root.nodes| >= MaxIndexNode
    ensures shift + Shift <= 30 && (shift + Shift) % Shift == 0
    ensures WF(h, Empty<K, V>(), shift + Shift) && Prefixed(h, Empty<K, V>(), shift + Shift, hash)
  {
    IndexDepth(h, root, shift);
    EmptyWF<K, V>(h, shift + Shift);
    NextShift(shift);
  }

  /** The array node a full index node becomes, with the new key's index node in its slot,
      is a correct outcome of `assoc`. */
  lemma ExpandInserts<K, V>(h: K -> bv32, root: Node<K, V>, shift: nat, key: K, val: V, child: Insertion<K, V>)
    requires root.IndexNode? && WF(h, root, shift) && !Bits(root.bitmap)[Mask(h(key), shift) as nat]
    requires |root.nodes| >= MaxIndexNode && shift + Shift <= 30
    requires Inserts(h, Empty(), shift + Shift, key, val, child)
    ensures Inserts(h, root, shift, key, val,
              Insertion(ArrayNode(|root.nodes| + 1, Expand(root.bitmap, root.nodes, Mask(h(key), shift) as nat, child.node)), child.added))
  {
    var next := ArrayNode(|root.nodes| + 1, Expand(root.bitmap, root.nodes, Mask(h(key), shift) as nat, child.node));
    assert Elements(child.node) == map[key := val];
    ExpandWF(h, root, shift, key, val, child.node);
    IndexAbsent(h, root, shift, key);
    Differs(next, root);
  }

  /** The slots of the array node a full index node becomes: each old child in the slot of
      its bit, `child` in the clear slot `jdx`, nothing elsewhere. */
  function Expand<T>(bitmap: bv32, nodes: seq<T>, jdx: nat, child: T): (slots: seq<Option<T>>)
    requires |nodes| == Popcount(bitmap) && jdx < BucketSize && !Bits(bitmap)[jdx]
    ensures |slots| == BucketSize
    ensures forall i :: 0 <= i < BucketSize && Bits(bitmap)[i] ==>
              Rank(bitmap, i) < |nodes| && slots[i] == Some(nodes[Rank(bitmap, i)])
    ensures slots[jdx] == Some(child)
    ensures forall i :: 0 <= i < BucketSize && !Bits(bitmap)[i] && i != jdx ==> slots[i] == None
  {
    seq(BucketSize, i requires 0 <= i < BucketSize => ExpandSlot(bitmap, nodes, jdx, child, i))
  }

  function ExpandSlot<T>(bitmap: bv32, nodes: seq<T>, jdx: nat, child: T, i: nat): (o: Option<T>)
    requires |nodes| == Popcount(bitmap) && i < BucketSize
    ensures Bits(bitmap)[i] ==> Rank(bitmap, i) < |nodes| && o == Some(nodes[Rank(bitmap, i)])
    ensures !Bits(bitmap)[i] ==> o == if i == jdx then Some(child) else None
  {
    if Bits(bitmap)[i] then
      RankBelow(Bits(bitmap), i);
      Some(nodes[Rank(bitmap, i)])
    else if i == jdx then Some(child)
    else None
  }

  /** The expansion loop: walk the bitmap bit by bit, shifting it
      right, and place the next old child at each set bit. */
  method ExpandLoop<T>(bitmap: bv32, nodes: seq<T>, jdx: nat, child: T) returns (slots: seq<Option<T>>)
    requires |nodes| == Popcount(bitmap) && jdx < BucketSize && !Bits(bitmap)[jdx]
    ensures slots == Expand(bitmap, nodes, jdx, child)
  {
    var out := new Option<T>[BucketSize](_ => None);
    out[jdx] := Some(child);
    var j := 0;
    var b := bitmap;
    ghost var s := Bits(bitmap);
    assert s[0..] + seq(0, _ => false) == s;
    assert out[..] == ExpandedUpTo(bitmap, nodes, jdx, child, 0);
    for i := 0 to BucketSize
      invariant j == Count(s[..i])
      invariant Bits(b) == s[i..] + seq(i, _ => false)
      invariant out[..] == ExpandedUpTo(bitmap, nodes, jdx, child, i)
    {
      ShiftStep(b, bitmap, i);
      CountPrefix(s, i);
      ExpandedStep(bitmap, nodes, jdx, child, i);
      if b & 1 != 0 {
        out[i] := Some(nodes[j]);
        j := j + 1;
      }
      b := b >> 1;
    }
    slots := out[..];
    assert slots == Expand(bitmap, nodes, jdx, child);
  }

  /** The slots after the loop has visited buckets `0 .. i - 1`. */
  function ExpandedUpTo<T>(bitmap: bv32, nodes: seq<T>, jdx: nat, child: T, i: nat): seq<Option<T>>
    requires |nodes| == Popcount(bitmap)
  {
    seq(BucketSize, k requires 0 <= k < BucketSize =>
      if k < i then ExpandSlot(bitmap, nodes, jdx, child, k) else if k == jdx then Some(child) else None)
  }

  lemma ExpandedStep<T>(bitmap: bv32, nodes: seq<T>, jdx: nat, child: T, i: nat)
    requires |nodes| == Popcount(bitmap) && i < BucketSize
    ensures ExpandedUpTo(bitmap, nodes, jdx, child, i + 1)
            == ExpandedUpTo(bitmap, nodes, jdx, child, i)[i := ExpandSlot(bitmap, nodes, jdx, child, i)]
  {
    var s, t := ExpandedUpTo(bitmap, nodes, jdx, child, i + 1),
                ExpandedUpTo(bitmap, nodes, jdx, child, i)[i := ExpandSlot(bitmap, nodes, jdx, child, i)];
    assert forall k | 0 <= k < BucketSize :: s[k] == t[k];
  }

  /** The array node built from a full index node and the new key's index node is well
      formed and holds the old contents plus the new binding. */
  lemma ExpandWF<K, V>(h: K -> bv32, root: Node<K, V>, shift: nat, key: K, val: V, child: Node<K, V>)
    requires root.IndexNode? && WF(h, root, shift) && !Bits(root.bitmap)[Mask(h(key), shift) as nat]
    requires |root.nodes| >= MaxIndexNode && shift + Shift <= 30
    requires WF(h, child, shift + Shift) && Elements(child) == map[key := val]
    ensures var r := ArrayNode(|root.nodes| + 1, Expand(root.bitmap, root.nodes, Mask(h(key), shift) as nat, child));
            WF(h, r, shift) && Elements(r) == Elements(root)[key := val]
  {
    var r := ArrayNode(|root.nodes| + 1, Expand(root.bitmap, root.nodes, Mask(h(key), shift) as nat, child));
    ExpandShape(h, root, shift, key, val, child);
    assert ArrayRouted(h, r, shift) && IndexRouted(h, root, shift);
    var a := Elements(root)[key := val];
    forall x
      ensures (x in Elements(r) <==> x in a) && (x in a ==> Elements(r)[x] == a[x])
    {
      ExpandAt(h, root, shift, key, val, child, x);
    }
    MapsEqual(Elements(r), a);
  }

  /** Each key reads the same in the expanded node as in the old node plus the new binding. */
  lemma ExpandAt<K, V>(h: K -> bv32, root: Node<K, V>, shift: nat, key: K, val: V, child: Node<K, V>, x: K)
    requires IndexRouted(h, root, shift) && !Bits(root.bitmap)[Mask(h(key), shift) as nat]
    requires Elements(child) == map[key := val]
    requires ArrayRouted(h, ArrayNode(|root.nodes| + 1, Expand(root.bitmap, root.nodes, Mask(h(key), shift) as nat, child)), shift)
    ensures var r := Elements(ArrayNode(|root.nodes| + 1, Expand(root.bitmap, root.nodes, Mask(h(key), shift) as nat, child)));
            var a := Elements(root)[key := val];
            (x in r <==> x in a) && (x in a ==> r[x] == a[x])
  {
    ArrayLookup(h, ArrayNode(|root.nodes| + 1, Expand(root.bitmap, root.nodes, Mask(h(key), shift) as nat, child)), shift, x);
    if Bits(root.bitmap)[Mask(h(x), shift) as nat] {
      ExpandKept(h, root, shift, key, val, child, x);
    } else {
      IndexAbsent(h, root, shift, x);
    }
  }

  lemma ExpandShape<K, V>(h: K -> bv32, root: Node<K, V>, shift: nat, key: K, val: V, child: Node<K, V>)
    requires root.IndexNode? && WF(h, root, shift) && !Bits(root.bitmap)[Mask(h(key), shift) as nat]
    requires |root.nodes| >= MaxIndexNode && shift + Shift <= 30
    requires WF(h, child, shift + Shift) && Elements(child) == map[key := val]
    ensures WF(h, ArrayNode(|root.nodes| + 1, Expand(root.bitmap, root.nodes, Mask(h(key), shift) as nat, child)), shift)
  {
    var jdx := Mask(h(key), shift) as nat;
    var slots := Expand(root.bitmap, root.nodes, jdx, child);
    assert Occupied(slots) == Bits(root.bitmap)[jdx := true];
    CountSet(Bits(root.bitmap), jdx);
    forall i | 0 <= i < |slots| && slots[i].Some?
      ensures WF(h, slots[i].value, shift + Shift)
      ensures Elements(slots[i].value) != map[]
      ensures RoutedTo(h, slots[i].value, shift, i)
    {
      ExpandSlotShape(h, root, shift, key, val, child, i);
    }
  }

  /** One slot of the expanded node: a well-formed, non-empty child whose keys route to it. */
  lemma ExpandSlotShape<K, V>(h: K -> bv32, root: Node<K, V>, shift: nat, key: K, val: V, child: Node<K, V>, i: nat)
    requires root.IndexNode? && WF(h, root, shift) && !Bits(root.bitmap)[Mask(h(key), shift) as nat]
    requires WF(h, child, shift + Shift) && Elements(child) == map[key := val]
    requires i < BucketSize && Expand(root.bitmap, root.nodes, Mask(h(key), shift) as nat, child)[i].Some?
    ensures var o := Expand(root.bitmap, root.nodes, Mask(h(key), shift) as nat, child)[i].value;
            WF(h, o, shift + Shift) && Elements(o) != map[] && RoutedTo(h, o, shift, i)
  {
    var slots := Expand(root.bitmap, root.nodes, Mask(h(key), shift) as nat, child);
    if Bits(root.bitmap)[i] {
      var p := Rank(root.bitmap, i);
      assert slots[i].value == root.nodes[p];
      forall k | k in Elements(root.nodes[p])
        ensures Mask(h(k), shift) as nat == i
      {
        RankDistinct(Bits(root.bitmap), Mask(h(k), shift) as nat, i);
      }
    } else {
      assert slots[i].value == child;
      assert Elements(child).Keys == {key};
    }
  }

  /** A key whose bit was set sits in the slot of its bit, in the child it sat in before. */
  lemma ExpandKept<K, V>(h: K -> bv32, root: Node<K, V>, shift: nat, key: K, val: V, child: Node<K, V>, x: K)
    requires IndexRouted(h, root, shift) && !Bits(root.bitmap)[Mask(h(key), shift) as nat]
    requires Bits(root.bitmap)[Mask(h(x), shift) as nat]
    ensures var slots := Expand(root.bitmap, root.nodes, Mask(h(key), shift) as nat, child);
            var mx := Mask(h(x), shift) as nat;
            && x != key
            && slots[mx].Some?
            && (x in Elements(slots[mx].value) <==> x in Elements(root))
            && (x in Elements(root) ==> Elements(slots[mx].value)[x] == Elements(root)[x])
  {
    IndexLookup(h, root, shift, x);
  }

  // Collision nodes.

  /** `assocCollision`: overwrite or append within the node when the hash is the node's;
      otherwise wrap the node in an index node and insert there. */
  function AssocCollision<K(==), V(==)>(h: K -> bv32, root: Node<K, V>, shift: nat, hash: bv32, key: K, val: V): (r: Insertion<K, V>)
    requires root.CollisionNode? && WF(h, root, shift) && shift % Shift == 0 && shift <= 35
    requires hash == h(key) && Prefixed(h, root, shift, hash)
    ensures Inserts(h, root, shift, key, val, r)
    decreases 35 - shift, 7
  {
    CollisionLookup(h, root, shift, key);
    if hash == root.hash then
      var idx := CollisionIndexOf(root.nodes, key);
      if idx != -1 then
        if root.nodes[idx].v == val then
          Insertion(root, false)
        else
          CollisionSet(h, root, shift, key, val, idx);
          var next := CollisionNode(hash, CloneAndSet(root.nodes, idx, Entry(key, val)));
          Differs(next, root);
          Insertion(next, false)
      else
        CollisionAppend(h, root, shift, key, val);
        var next := CollisionNode(hash, CloneAndSet(root.nodes, |root.nodes|, Entry(key, val)));
        Differs(next, root);
        Insertion(next, true)
    else
      CollisionWrap(h, root, shift, hash);
      var m := Mask(root.hash, shift);
      BitsOfBit(m);
      AssocWrapped(h, root, shift, hash, key, val, Bit(m))
  }

  /** The rest of `assocCollision` for another hash: `assoc` into the index node with the
      collision node as its only child, under bitmap `b2`, the bit of the node's hash. */
  function AssocWrapped<K(==), V(==)>(h: K -> bv32, root: Node<K, V>, shift: nat, hash: bv32, key: K, val: V, b2: bv32): (r: Insertion<K, V>)
    requires root.CollisionNode? && WF(h, root, shift) && shift % Shift == 0 && shift <= 30
    requires hash == h(key) && Prefixed(h, root, shift, hash) && key !in Elements(root)
    requires forall k :: k in Elements(root) ==> Mask(h(k), shift) as nat == Mask(root.hash, shift) as nat
    requires Bits(b2) == Bits(0)[Mask(root.hash, shift) as nat := true]
    ensures Inserts(h, root, shift, key, val, r)
    decreases 35 - shift, 6
  {
    IndexWrap(h, root, shift, Mask(root.hash, shift), b2);
    var n := Assoc(h, IndexNode(b2, [root]), shift, hash, key, val);
    Differs(n.node, root);
    n
  }

  /** A collision node whose hash differs from `hash` sits at shift 30 at most, all its keys
      route to the chunk of its hash, and the key of `hash` is not under it. */
  lemma CollisionWrap<K, V>(h: K -> bv32, root: Node<K, V>, shift: nat, hash: bv32)
    requires root.CollisionNode? && WF(h, root, shift) && shift % Shift == 0 && shift <= 35
    requires Prefixed(h, root, shift, hash) && hash != root.hash
    ensures shift <= 30
    ensures forall k :: k in Elements(root) ==> h(k) == root.hash && Mask(h(k), shift) as nat == Mask(root.hash, shift) as nat
    ensures forall k :: h(k) == hash ==> k !in Elements(root)
  {
    forall k | k in Elements(root)
      ensures h(k) == root.hash
    {
      CollisionLookup(h, root, shift, k);
    }
    EntryAt(root, 0);
    AgreeBound(root.hash, hash, shift);
  }
}
