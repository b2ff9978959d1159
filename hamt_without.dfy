/** `without`: removing a key from the trie. Each node kind has its branch; a node
    left with no key is reported as `undefined` (here `None`) so that its parent drops
    it, an array node that falls to `MIN_ARRAY_NODE` children is compacted back into an
    index node, and an unchanged subtree is returned as it was. */
module HamtWithout {
  import opened Prelude
  import opened HamtBits
  import opened HamtArrays
  import opened HamtNode
  import opened HamtShape

  /** What `without(root, shift, hash, key)` must return: `undefined` exactly when `key`
      was the only key; otherwise a well-formed node holding the old contents without
      `key`, which is `root` itself exactly when `key` was absent. */
  predicate Removes<K(==), V(==)>(h: K -> bv32, root: Node<K, V>, shift: nat, key: K, r: Option<Node<K, V>>)
  {
    && (r.None? <==> Elements(root).Keys == {key})
    && (r.Some? ==> WF(h, r.value, shift) && !r.value.Entry? && Elements(r.value) == Elements(root) - {key})
    && (r == Some(root) <==> key !in Elements(root))
  }

  /** `without`: dispatch on the node kind. */
  function Without<K(==), V(==)>(h: K -> bv32, root: Node<K, V>, shift: nat, hash: bv32, key: K): (r: Option<Node<K, V>>)
    requires !root.Entry? && WF(h, root, shift) && hash == h(key)
    ensures r.None? <==> Elements(root).Keys == {key}
    ensures r.Some? ==> WF(h, r.value, shift) && !r.value.Entry? && Elements(r.value) == Elements(root) - {key}
    ensures r == Some(root) <==> key !in Elements(root)
    decreases root, 3
  {
    match root
    case ArrayNode(_, _) => WithoutArray(h, root, shift, hash, key)
    case IndexNode(_, _) => WithoutIndex(h, root, shift, hash, key)
    case CollisionNode(_, _) => WithoutCollision(h, root, shift, key)
  }

  /** Returning `root` when `key` is absent is a correct outcome. */
  lemma Kept<K, V>(h: K -> bv32, root: Node<K, V>, shift: nat, key: K)
    requires !root.Entry? && WF(h, root, shift) && key !in Elements(root)
    ensures Removes(h, root, shift, key, Some(root))
  {
    assert Elements(root) - {key} == Elements(root);
  }

  /** A new non-empty node holding the contents without a present `key` is a correct
      outcome. */
  lemma Dropped<K, V>(h: K -> bv32, root: Node<K, V>, shift: nat, key: K, n: Node<K, V>)
    requires !root.Entry? && key in Elements(root)
    requires WF(h, n, shift) && !n.Entry? && Elements(n) == Elements(root) - {key} && Elements(n) != map[]
    ensures Removes(h, root, shift, key, Some(n))
  {
    var k := SomeKey(Elements(n));
    assert k in Elements(root) && k != key;
    Differs(n, root);
  }

  /** A present key that is the only one left means its child is gone. */
  lemma OtherKey<K, V>(m: map<K, V>, key: K) returns (k: K)
    requires key in m && m.Keys != {key}
    ensures k in m && k != key
  {
    var others := m.Keys - {key};
    assert others != {};
    k :| k in others;
  }

  // Array nodes.

  /** `withoutArray`: an empty slot or another key's entry leaves the node as it is;
      otherwise remove from the slot, clearing it when it empties. */
  function WithoutArray<K(==), V(==)>(h: K -> bv32, root: Node<K, V>, shift: nat, hash: bv32, key: K): (r: Option<Node<K, V>>)
    requires root.ArrayNode? && WF(h, root, shift) && hash == h(key)
    ensures Removes(h, root, shift, key, r)
    decreases root, 2
  {
    var idx := Mask(hash, shift) as nat;
    ArrayLookup(h, root, shift, key);
    var node := root.slots[idx];
    if node.None? then
      Kept(h, root, shift, key);
      Some(root)
    else if node.value.Entry? then
      if node.value.k != key then
        Kept(h, root, shift, key);
        Some(root)
      else
        ArrayDrop(h, root, shift, key)
    else
      var n := Without(h, node.value, shift + Shift, hash, key);
      if n == node then
        Kept(h, root, shift, key);
        Some(root)
      else if n.None? then
        ArrayDrop(h, root, shift, key)
      else
        ArrayReplaced(h, root, shift, key, n.value);
        Some(ArrayNode(root.size, CloneAndSet(root.slots, idx, n)))
  }

  /** The slot of `key`'s chunk loses its last key: an array node at `MIN_ARRAY_NODE`
      children is compacted into an index node, a larger one clears the slot. */
  function ArrayDrop<K(==), V(==)>(h: K -> bv32, root: Node<K, V>, shift: nat, key: K): (r: Option<Node<K, V>>)
    requires root.ArrayNode? && WF(h, root, shift)
    requires root.slots[Mask(h(key), shift) as nat].Some?
    requires Elements(root.slots[Mask(h(key), shift) as nat].value).Keys == {key}
    ensures Removes(h, root, shift, key, r)
  {
    var idx := Mask(h(key), shift) as nat;
    if root.size <= MinArrayNode then
      CompactRemoves(h, root, shift, key);
      Some(Compacted(root.slots, idx))
    else
      ArrayCleared(h, root, shift, key);
      Some(ArrayNode(root.size - 1, CloneAndSet(root.slots, idx, None)))
  }

  /** Clearing the slot of `key`'s chunk, when it held only `key`, removes `key`. */
  lemma ArrayCleared<K, V>(h: K -> bv32, root: Node<K, V>, shift: nat, key: K)
    requires root.ArrayNode? && WF(h, root, shift) && root.size > MinArrayNode
    requires root.slots[Mask(h(key), shift) as nat].Some?
    requires Elements(root.slots[Mask(h(key), shift) as nat].value).Keys == {key}
    ensures Removes(h, root, shift, key, Some(ArrayNode(root.size - 1, CloneAndSet(root.slots, Mask(h(key), shift) as nat, None))))
  {
    var idx := Mask(h(key), shift) as nat;
    var r := ArrayNode(root.size - 1, CloneAndSet(root.slots, idx, None));
    assert Elements(root.slots[idx].value) - {key} == map[];
    ArrayEdit(h, root, shift, key, Drop, None, root.size - 1);
    ArrayNonEmpty(h, r, shift);
    ArrayLookup(h, root, shift, key);
    Dropped(h, root, shift, key, r);
  }

  /** Replacing the child in the slot of `key`'s chunk by the child without `key`. */
  lemma ArrayReplaced<K, V>(h: K -> bv32, root: Node<K, V>, shift: nat, key: K, c: Node<K, V>)
    requires root.ArrayNode? && WF(h, root, shift)
    requires root.slots[Mask(h(key), shift) as nat].Some?
    requires Removes(h, root.slots[Mask(h(key), shift) as nat].value, shift + Shift, key, Some(c))
    requires Some(c) != root.slots[Mask(h(key), shift) as nat]
    ensures Removes(h, root, shift, key, Some(ArrayNode(root.size, CloneAndSet(root.slots, Mask(h(key), shift) as nat, Some(c)))))
  {
    var idx := Mask(h(key), shift) as nat;
    var child := root.slots[idx].value;
    var r := ArrayNode(root.size, CloneAndSet(root.slots, idx, Some(c)));
    var k := OtherKey(Elements(child), key);
    assert k in Elements(c);
    ArrayEdit(h, root, shift, key, Drop, Some(c), root.size);
    ArrayNonEmpty(h, r, shift);
    ArrayLookup(h, root, shift, key);
    Dropped(h, root, shift, key, r);
  }

  // Compacting an array node into an index node.

  /** The children of the occupied slots, in slot order. */
  function Present<K(==), V>(slots: seq<Option<Node<K, V>>>): (nodes: seq<Node<K, V>>)
    ensures |nodes| == Count(Occupied(slots))
  {
    if slots == [] then []
    else
      var i := |slots| - 1;
      assert Occupied(slots)[..i] == Occupied(slots[..i]);
      Present(slots[..i]) + (if slots[i].Some? then [slots[i].value] else [])
  }

  /** The bitmap with the bit of each occupied slot set, as `bitmap |= 1 << i` builds it. */
  function PackBits<K(==), V>(slots: seq<Option<Node<K, V>>>): (b: bv32)
    requires |slots| <= BucketSize
    ensures Bits(b) == Occupied(slots) + seq(BucketSize - |slots|, _ => false)
  {
    if slots == [] then
      BitsOfZero();
      0
    else
      PackLast(slots, PackBits(slots[..|slots| - 1]))
  }

  /** The last slot's bit set on the bitmap `b` of the slots before it. */
  function PackLast<K(==), V>(slots: seq<Option<Node<K, V>>>, b: bv32): (b2: bv32)
    requires 0 < |slots| <= BucketSize
    requires Bits(b) == Occupied(slots[..|slots| - 1]) + seq(BucketSize - |slots| + 1, _ => false)
    ensures Bits(b2) == Occupied(slots) + seq(BucketSize - |slots|, _ => false)
  {
    var i := |slots| - 1;
    var b2 := if slots[i].Some? then SetBit(b, i) else b;
    AppendBit(Occupied(slots[..i]), slots[i].Some?, b, b2);
    assert Occupied(slots) == Occupied(slots[..i]) + [slots[i].Some?];
    b2
  }

  /** The index node an array node becomes once slot `idx` is cleared. */
  function Compacted<K(==), V>(slots: seq<Option<Node<K, V>>>, idx: nat): Node<K, V>
    requires |slots| == BucketSize && idx < BucketSize
  {
    var kept := slots[idx := None];
    IndexNode(PackBits(kept), Present(kept))
  }

  /** An occupied slot's child sits in `Present` at the number of occupied slots before it. */
  lemma {:induction false} PresentAt<K, V>(slots: seq<Option<Node<K, V>>>, m: nat)
    requires m < |slots| && slots[m].Some?
    ensures Count(Occupied(slots)[..m]) < |Present(slots)|
    ensures Present(slots)[Count(Occupied(slots)[..m])] == slots[m].value
  {
    var i := |slots| - 1;
    if m < i {
      PresentAt(slots[..i], m);
      assert Occupied(slots)[..m] == Occupied(slots[..i])[..m];
    } else {
      assert Occupied(slots)[..i] == Occupied(slots[..i]);
    }
  }

  /** Each child in `Present` comes from an occupied slot with that many occupied slots
      before it. */
  lemma {:induction false} PresentOrigin<K, V>(slots: seq<Option<Node<K, V>>>, p: nat) returns (m: nat)
    requires p < |Present(slots)|
    ensures m < |slots| && slots[m].Some? && Count(Occupied(slots)[..m]) == p
    ensures Present(slots)[p] == slots[m].value
  {
    var i := |slots| - 1;
    if p < |Present(slots[..i])| {
      m := PresentOrigin(slots[..i], p);
      assert Occupied(slots)[..m] == Occupied(slots[..i])[..m];
    } else {
      m := i;
      assert Occupied(slots)[..i] == Occupied(slots[..i]);
    }
  }

  /** The compacted bitmap has exactly the bits of the slots left occupied. */
  lemma CompactBits<K, V>(slots: seq<Option<Node<K, V>>>, idx: nat)
    requires |slots| == BucketSize && idx < BucketSize
    ensures Bits(Compacted(slots, idx).bitmap) == Occupied(slots[idx := None])
  {
    var kept := slots[idx := None];
    assert Occupied(kept) + seq(0, _ => false) == Occupied(kept);
  }

  /** Compacting an array node of `MIN_ARRAY_NODE` children whose slot at `key`'s chunk
      holds only `key` removes `key`. */
  lemma CompactRemoves<K, V>(h: K -> bv32, root: Node<K, V>, shift: nat, key: K)
    requires root.ArrayNode? && WF(h, root, shift) && root.size <= MinArrayNode
    requires root.slots[Mask(h(key), shift) as nat].Some?
    requires Elements(root.slots[Mask(h(key), shift) as nat].value).Keys == {key}
    ensures Removes(h, root, shift, key, Some(Compacted(root.slots, Mask(h(key), shift) as nat)))
  {
    var idx := Mask(h(key), shift) as nat;
    var c := Compacted(root.slots, idx);
    CompactShape(h, root, shift, idx);
    CompactBits(root.slots, idx);
    var a := Elements(root) - {key};
    forall x
      ensures (x in Elements(c) <==> x in a) && (x in a ==> Elements(c)[x] == a[x])
    {
      CompactAt(h, root, shift, key, c, x);
    }
    MapsEqual(Elements(c), a);
    OccupiedSet(root.slots, idx, None);
    assert CloneAndSet(root.slots, idx, None) == root.slots[idx := None];
    IndexNonEmpty(h, c, shift);
    ArrayLookup(h, root, shift, key);
    Dropped(h, root, shift, key, c);
  }

  /** The compacted node is a well-formed index node. */
  lemma CompactShape<K, V>(h: K -> bv32, root: Node<K, V>, shift: nat, idx: nat)
    requires root.ArrayNode? && WF(h, root, shift) && idx < BucketSize
    ensures WF(h, Compacted(root.slots, idx), shift)
  {
    var c := Compacted(root.slots, idx);
    CompactBits(root.slots, idx);
    forall p | 0 <= p < |c.nodes|
      ensures WF(h, c.nodes[p], shift + Shift) && Elements(c.nodes[p]) != map[]
      ensures forall k :: k in Elements(c.nodes[p]) ==>
                var m := Mask(h(k), shift) as nat;
                Bits(c.bitmap)[m] && Rank(c.bitmap, m) == p
    {
      CompactChild(h, root, shift, idx, p);
    }
  }

  /** One child of the compacted node: an old child, placed by the rank of its slot. */
  lemma CompactChild<K, V>(h: K -> bv32, root: Node<K, V>, shift: nat, idx: nat, p: nat)
    requires root.ArrayNode? && WF(h, root, shift) && idx < BucketSize
    requires Bits(Compacted(root.slots, idx).bitmap) == Occupied(root.slots[idx := None])
    requires p < |Compacted(root.slots, idx).nodes|
    ensures var c := Compacted(root.slots, idx);
            && WF(h, c.nodes[p], shift + Shift) && Elements(c.nodes[p]) != map[]
            && forall k :: k in Elements(c.nodes[p]) ==>
                 var m := Mask(h(k), shift) as nat;
                 Bits(c.bitmap)[m] && Rank(c.bitmap, m) == p
  {
    var c := Compacted(root.slots, idx);
    var kept := root.slots[idx := None];
    var m := PresentOrigin(kept, p);
    assert kept[m] == root.slots[m];
    assert Bits(c.bitmap)[..m] == Occupied(kept)[..m];
  }

  /** Where a key lies under the compacted node `c`: where it lay before, unless it was
      `key`. */
  lemma CompactAt<K, V>(h: K -> bv32, root: Node<K, V>, shift: nat, key: K, c: Node<K, V>, x: K)
    requires root.ArrayNode? && WF(h, root, shift)
    requires root.slots[Mask(h(key), shift) as nat].Some?
    requires Elements(root.slots[Mask(h(key), shift) as nat].value).Keys == {key}
    requires c == Compacted(root.slots, Mask(h(key), shift) as nat) && WF(h, c, shift)
    requires Bits(c.bitmap) == Occupied(root.slots[Mask(h(key), shift) as nat := None])
    ensures x in Elements(c) <==> x in Elements(root) && x != key
    ensures x in Elements(c) ==> Elements(c)[x] == Elements(root)[x]
  {
    var idx := Mask(h(key), shift) as nat;
    var mx := Mask(h(x), shift) as nat;
    if mx == idx {
      CompactAtOwn(h, root, shift, key, c, x);
    } else if root.slots[mx].Some? {
      CompactAtOccupied(h, root, shift, idx, c, x);
    } else {
      CompactAtEmpty(h, root, shift, idx, c, x);
    }
  }

  /** A key of `key`'s chunk is under the compacted node nowhere, and before it was
      `key` or nothing. */
  lemma CompactAtOwn<K, V>(h: K -> bv32, root: Node<K, V>, shift: nat, key: K, c: Node<K, V>, x: K)
    requires root.ArrayNode? && WF(h, root, shift)
    requires root.slots[Mask(h(key), shift) as nat].Some?
    requires Elements(root.slots[Mask(h(key), shift) as nat].value).Keys == {key}
    requires c.IndexNode? && WF(h, c, shift)
    requires Bits(c.bitmap) == Occupied(root.slots[Mask(h(key), shift) as nat := None])
    requires Mask(h(x), shift) as nat == Mask(h(key), shift) as nat
    ensures x !in Elements(c) && (x in Elements(root) ==> x == key)
  {
    ArrayLookup(h, root, shift, x);
    IndexAbsent(h, c, shift, x);
  }

  /** A key of an empty slot's chunk is under neither node. */
  lemma CompactAtEmpty<K, V>(h: K -> bv32, root: Node<K, V>, shift: nat, idx: nat, c: Node<K, V>, x: K)
    requires root.ArrayNode? && WF(h, root, shift) && idx < BucketSize
    requires Mask(h(x), shift) as nat != idx && root.slots[Mask(h(x), shift) as nat].None?
    requires c.IndexNode? && WF(h, c, shift) && Bits(c.bitmap) == Occupied(root.slots[idx := None])
    ensures x !in Elements(c) && x !in Elements(root)
  {
    ArrayLookup(h, root, shift, x);
    IndexAbsent(h, c, shift, x);
  }

  /** A key of another occupied slot's chunk lies in that slot's child, which the
      compacted node holds at the slot's rank. */
  lemma CompactAtOccupied<K, V>(h: K -> bv32, root: Node<K, V>, shift: nat, idx: nat, c: Node<K, V>, x: K)
    requires root.ArrayNode? && WF(h, root, shift) && idx < BucketSize
    requires Mask(h(x), shift) as nat != idx && root.slots[Mask(h(x), shift) as nat].Some?
    requires c == Compacted(root.slots, idx) && WF(h, c, shift)
    requires Bits(c.bitmap) == Occupied(root.slots[idx := None])
    ensures x in Elements(c) <==> x in Elements(root)
    ensures x in Elements(c) ==> Elements(c)[x] == Elements(root)[x]
  {
    var mx := Mask(h(x), shift) as nat;
    PresentRank(root.slots[idx := None], c.bitmap, mx);
    ArrayLookup(h, root, shift, x);
    IndexLookup(h, c, shift, x);
  }

  /** With a bitmap of the occupied slots, an occupied slot's rank is its child's place
      in `Present`. */
  lemma PresentRank<K, V>(slots: seq<Option<Node<K, V>>>, b: bv32, m: nat)
    requires |slots| == BucketSize && Bits(b) == Occupied(slots) && m < BucketSize && slots[m].Some?
    ensures Bits(b)[m] && Rank(b, m) < |Present(slots)| && Present(slots)[Rank(b, m)] == slots[m].value
  {
    PresentAt(slots, m);
  }

  /** The compaction: two loops over the slots before and after
      `idx`, appending each occupied slot's child and setting its bit. */
  method CompactLoop<K(==), V>(slots: seq<Option<Node<K, V>>>, size: int, idx: nat) returns (n: Node<K, V>)
    requires |slots| == BucketSize && idx < BucketSize && slots[idx].Some?
    requires size == Count(Occupied(slots))
    ensures n == Compacted(slots, idx) && |n.nodes| == size - 1
  {
    ghost var kept := slots[idx := None];
    assert kept[..0] == [];
    var out, bitmap := CompactRange(slots, idx, 0, idx, [], 0);
    CompactStep(kept, idx);
    out, bitmap := CompactRange(slots, idx, idx + 1, |slots|, out, bitmap);
    assert kept[..|slots|] == kept;
    n := IndexNode(bitmap, out);
    OccupiedSet(slots, idx, None);
    assert CloneAndSet(slots, idx, None) == kept;
  }

  /** One of the two loops: visit the slots `lo .. hi - 1`, none of them `idx`. */
  method CompactRange<K(==), V>(slots: seq<Option<Node<K, V>>>, idx: nat, lo: nat, hi: nat,
                                out0: seq<Node<K, V>>, bitmap0: bv32) returns (out: seq<Node<K, V>>, bitmap: bv32)
    requires |slots| == BucketSize && idx < BucketSize && lo <= hi <= BucketSize && (idx < lo || hi <= idx)
    requires out0 == Present(slots[idx := None][..lo]) && bitmap0 == PackBits(slots[idx := None][..lo])
    ensures out == Present(slots[idx := None][..hi]) && bitmap == PackBits(slots[idx := None][..hi])
  {
    ghost var kept := slots[idx := None];
    out, bitmap := out0, bitmap0;
    var i := lo;
    while i < hi
      invariant lo <= i <= hi
      invariant out == Present(kept[..i]) && bitmap == PackBits(kept[..i])
    {
      var nv := slots[i];
      CompactStep(kept, i);
      if nv.Some? {
        out := out + [nv.value];
        bitmap := bitmap | Bit(i as bv5);
      }
      i := i + 1;
    }
  }

  /** One step of either compaction loop. */
  lemma CompactStep<K, V>(s: seq<Option<Node<K, V>>>, i: nat)
    requires i < |s| <= BucketSize
    ensures Present(s[..i + 1]) == Present(s[..i]) + (if s[i].Some? then [s[i].value] else [])
    ensures PackBits(s[..i + 1]) == if s[i].Some? then PackBits(s[..i]) | Bit(i as bv5) else PackBits(s[..i])
  {
    assert s[..i + 1][..i] == s[..i];
  }

  // Index nodes.

  /** `withoutIndex`: a clear bit leaves the node as it is; otherwise remove from the
      child at the bit's index. */
  function WithoutIndex<K(==), V(==)>(h: K -> bv32, root: Node<K, V>, shift: nat, hash: bv32, key: K): (r: Option<Node<K, V>>)
    requires root.IndexNode? && WF(h, root, shift) && hash == h(key)
    ensures Removes(h, root, shift, key, r)
    decreases root, 2
  {
    var m := Mask(hash, shift);
    var bit := Bit(m);
    if root.bitmap & bit == 0 then
      ProbeClear(root.bitmap, m);
      IndexAbsent(h, root, shift, key);
      Kept(h, root, shift, key);
      Some(root)
    else
      ProbeSet(root.bitmap, m);
      WithoutIndexChild(h, root, shift, hash, key, Index(root.bitmap, bit))
  }

  /** The rest of `withoutIndex`, once the bitmap has named child `idx`: recurse into a
      subtree, or match an entry; an emptied child is spliced out with its bit. */
  function WithoutIndexChild<K(==), V(==)>(h: K -> bv32, root: Node<K, V>, shift: nat, hash: bv32, key: K, idx: nat): (r: Option<Node<K, V>>)
    requires root.IndexNode? && WF(h, root, shift) && hash == h(key)
    requires Bits(root.bitmap)[Mask(hash, shift) as nat] && idx == Rank(root.bitmap, Mask(hash, shift) as nat)
    ensures Removes(h, root, shift, key, r)
    decreases root, 1
  {
    RankBelow(Bits(root.bitmap), Mask(hash, shift) as nat);
    IndexLookup(h, root, shift, key);
    var node := root.nodes[idx];
    if !node.Entry? then
      WithoutIndexSubtree(h, root, shift, hash, key, idx)
    else if key == node.k then
      IndexDrop(h, root, shift, key, idx)
    else
      Kept(h, root, shift, key);
      Some(root)
  }

  /** Child `idx` is a subtree: remove from it, and keep, replace or drop it. */
  function WithoutIndexSubtree<K(==), V(==)>(h: K -> bv32, root: Node<K, V>, shift: nat, hash: bv32, key: K, idx: nat): (r: Option<Node<K, V>>)
    requires root.IndexNode? && WF(h, root, shift) && hash == h(key)
    requires Bits(root.bitmap)[Mask(hash, shift) as nat] && idx == Rank(root.bitmap, Mask(hash, shift) as nat)
    requires idx < |root.nodes| && !root.nodes[idx].Entry?
    requires key in Elements(root) <==> key in Elements(root.nodes[idx])
    ensures Removes(h, root, shift, key, r)
    decreases root, 0
  {
    var node := root.nodes[idx];
    ChildShape(h, root, shift, idx);
    var n := Without(h, node, shift + Shift, hash, key);
    if n == Some(node) then
      Kept(h, root, shift, key);
      Some(root)
    else if n.Some? then
      IndexReplaced(h, root, shift, key, idx, n.value);
      Some(IndexNode(root.bitmap, CloneAndSet(root.nodes, idx, n.value)))
    else
      IndexDrop(h, root, shift, key, idx)
  }

  lemma ChildShape<K, V>(h: K -> bv32, root: Node<K, V>, shift: nat, idx: nat)
    requires root.IndexNode? && WF(h, root, shift) && idx < |root.nodes|
    ensures WF(h, root.nodes[idx], shift + Shift)
  {
  }

  /** Child `idx` loses its last key: the node is gone if that was its only bit,
      otherwise the child is spliced out and its bit cleared (`bitmap ^ bit`). */
  function IndexDrop<K(==), V(==)>(h: K -> bv32, root: Node<K, V>, shift: nat, key: K, idx: nat): (r: Option<Node<K, V>>)
    requires root.IndexNode? && WF(h, root, shift)
    requires Bits(root.bitmap)[Mask(h(key), shift) as nat] && idx == Rank(root.bitmap, Mask(h(key), shift) as nat)
    requires idx < |root.nodes| && Elements(root.nodes[idx]).Keys == {key}
    ensures Removes(h, root, shift, key, r)
  {
    var m := Mask(h(key), shift);
    if root.bitmap == Bit(m) then
      IndexGone(h, root, shift, key, idx);
      None
    else
      IndexRemoved(h, root, shift, key, idx, WithoutBit(root.bitmap, m));
      Some(IndexNode(WithoutBit(root.bitmap, m), SpliceOut(root.nodes, idx)))
  }

  /** An index node whose only bit is `key`'s, over a child holding only `key`, holds
      only `key`. */
  lemma IndexGone<K, V>(h: K -> bv32, root: Node<K, V>, shift: nat, key: K, idx: nat)
    requires root.IndexNode? && WF(h, root, shift) && root.bitmap == Bit(Mask(h(key), shift))
    requires idx < |root.nodes| && Elements(root.nodes[idx]).Keys == {key}
    ensures Removes(h, root, shift, key, None)
  {
    PopcountBit(Mask(h(key), shift));
    assert IndexRouted(h, root, shift);
    SingleChild(root);
    assert Elements(root).Keys == {key};
  }

  /** Splicing out child `idx`, which held only `key`, and clearing its bit removes
      `key` and leaves a non-empty node. */
  lemma IndexRemoved<K, V>(h: K -> bv32, root: Node<K, V>, shift: nat, key: K, idx: nat, b2: bv32)
    requires root.IndexNode? && WF(h, root, shift) && root.bitmap != Bit(Mask(h(key), shift))
    requires Bits(root.bitmap)[Mask(h(key), shift) as nat] && idx == Rank(root.bitmap, Mask(h(key), shift) as nat)
    requires idx < |root.nodes| && Elements(root.nodes[idx]).Keys == {key}
    requires Bits(b2) == Bits(root.bitmap)[Mask(h(key), shift) as nat := false]
    ensures Removes(h, root, shift, key, Some(IndexNode(b2, SpliceOut(root.nodes, idx))))
  {
    var m := Mask(h(key), shift);
    var r := IndexNode(b2, SpliceOut(root.nodes, idx));
    assert Elements(root.nodes[idx]) - {key} == map[];
    IndexRemove(h, root, shift, key, idx, b2);
    BitsAt(root.bitmap, m);
    PopcountOther(root.bitmap, m);
    IndexNonEmpty(h, r, shift);
    IndexLookup(h, root, shift, key);
    Dropped(h, root, shift, key, r);
  }

  /** Replacing child `idx` by the child without `key`. */
  lemma IndexReplaced<K, V>(h: K -> bv32, root: Node<K, V>, shift: nat, key: K, idx: nat, c: Node<K, V>)
    requires root.IndexNode? && WF(h, root, shift)
    requires Bits(root.bitmap)[Mask(h(key), shift) as nat] && idx == Rank(root.bitmap, Mask(h(key), shift) as nat)
    requires idx < |root.nodes| && !root.nodes[idx].Entry?
    requires Removes(h, root.nodes[idx], shift + Shift, key, Some(c)) && c != root.nodes[idx]
    ensures Removes(h, root, shift, key, Some(IndexNode(root.bitmap, CloneAndSet(root.nodes, idx, c))))
  {
    var k := OtherKey(Elements(root.nodes[idx]), key);
    assert k in Elements(c);
    IndexReplacedNode(h, root, shift, key, idx, c);
    IndexLookup(h, root, shift, key);
    Dropped(h, root, shift, key, IndexNode(root.bitmap, CloneAndSet(root.nodes, idx, c)));
  }

  /** The node with child `idx` replaced is well formed and holds the old contents
      without `key`. */
  lemma IndexReplacedNode<K, V>(h: K -> bv32, root: Node<K, V>, shift: nat, key: K, idx: nat, c: Node<K, V>)
    requires root.IndexNode? && WF(h, root, shift)
    requires Bits(root.bitmap)[Mask(h(key), shift) as nat] && idx == Rank(root.bitmap, Mask(h(key), shift) as nat)
    requires idx < |root.nodes| && WF(h, c, shift + Shift) && Elements(c) != map[]
    requires Elements(c) == Elements(root.nodes[idx]) - {key}
    ensures var r := IndexNode(root.bitmap, CloneAndSet(root.nodes, idx, c));
            WF(h, r, shift) && Elements(r) == Elements(root) - {key} && Elements(r) != map[]
  {
    IndexEdit(h, root, shift, key, Drop, idx, c);
    IndexNonEmpty(h, IndexNode(root.bitmap, CloneAndSet(root.nodes, idx, c)), shift);
  }

  // Collision nodes.

  /** `withoutCollision`: an absent key leaves the node as it is; the last entry leaves
      nothing; otherwise the entry is spliced out. */
  function WithoutCollision<K(==), V(==)>(h: K -> bv32, root: Node<K, V>, shift: nat, key: K): (r: Option<Node<K, V>>)
    requires root.CollisionNode? && WF(h, root, shift)
    ensures Removes(h, root, shift, key, r)
  {
    var idx := CollisionIndexOf(root.nodes, key);
    CollisionLookup(h, root, shift, key);
    if idx < 0 then
      Kept(h, root, shift, key);
      Some(root)
    else if |root.nodes| == 1 then
      CollisionSingle(h, root, shift, key);
      None
    else
      CollisionRemoved(h, root, shift, key, idx);
      Some(CollisionNode(root.hash, SpliceOut(root.nodes, idx)))
  }

  /** Splicing out the entry of `key` from a collision node of two or more entries. */
  lemma CollisionRemoved<K, V>(h: K -> bv32, root: Node<K, V>, shift: nat, key: K, idx: nat)
    requires root.CollisionNode? && WF(h, root, shift) && |root.nodes| > 1
    requires idx < |root.nodes| && root.nodes[idx].k == key
    ensures Removes(h, root, shift, key, Some(CollisionNode(root.hash, SpliceOut(root.nodes, idx))))
  {
    var r := CollisionNode(root.hash, SpliceOut(root.nodes, idx));
    CollisionRemove(h, root, shift, key, idx);
    EntryAt(r, 0);
    EntryAt(root, idx);
    Dropped(h, root, shift, key, r);
  }
}
