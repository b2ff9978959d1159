/** How the trie's shape survives the edits `assoc` and `without` make to one node:
    replacing one child, inserting or removing a child with its bitmap bit, filling or
    clearing an array slot, and editing a collision node's entries. Each lemma states the
    new node's well-formedness and its contents in terms of the old node's. */
module HamtShape {
  import opened Prelude
  import opened HamtBits
  import opened HamtArrays
  import opened HamtNode

  /** The change made to the contents at one key: a new value, or the key removed. */
  datatype Edit<V> = Put(val: V) | Drop

  function Apply<K(==), V>(m: map<K, V>, key: K, e: Edit<V>): map<K, V>
  {
    match e
    case Put(v) => m[key := v]
    case Drop => m - {key}
  }

  /** The contents of an optional slot. */
  function SlotElements<K(==), V>(o: Option<Node<K, V>>): map<K, V>
  {
    if o.Some? then Elements(o.value) else map[]
  }

  /** Nodes with different contents are different nodes. */
  lemma Differs<K, V>(a: Node<K, V>, b: Node<K, V>)
    requires Elements(a) != Elements(b)
    ensures a != b
  {
  }

  // The chunk agreement that `Prefixed` carries.

  /** Hashes that agree on all seven chunks are equal, so two different hashes part at
      shift 30 at the latest. */
  lemma AgreeBound(a: bv32, b: bv32, shift: nat)
    requires shift % Shift == 0 && shift <= 35 && Agree(a, b, shift) && a != b
    ensures shift <= 30
  {
    if shift == 35 {
      assert Agree(a, b, 30) && Agree(a, b, 25) && Agree(a, b, 20) && Agree(a, b, 15);
      assert Agree(a, b, 10) && Agree(a, b, 5);
      MasksDetermine(a, b);
    }
  }

  /** The shift of the next level is again a multiple of `SHIFT`. */
  lemma NextShift(shift: nat)
    requires shift % Shift == 0
    ensures (shift + Shift) % Shift == 0
  {
  }

  /** The empty index node is well formed wherever an index node may sit. */
  lemma EmptyWF<K, V>(h: K -> bv32, shift: nat)
    requires shift <= 30
    ensures WF(h, Empty<K, V>(), shift) && Elements(Empty<K, V>()) == map[]
  {
    BitsOfZero();
    CountNone(32);
  }

  // Non-empty nodes.

  /** Maps that agree at every key are equal. */
  lemma MapsEqual<K, V>(a: map<K, V>, b: map<K, V>)
    requires forall x :: (x in a <==> x in b) && (x in a ==> a[x] == b[x])
    ensures a == b
  {
  }

  lemma SomeKey<K, V>(m: map<K, V>) returns (k: K)
    requires m != map[]
    ensures k in m
  {
    assert m.Keys != {};
    k :| k in m.Keys;
  }

  lemma CountPositive(s: seq<bool>) returns (i: nat)
    requires Count(s) > 0
    ensures i < |s| && s[i]
  {
    if forall j :: 0 <= j < |s| ==> !s[j] {
      assert s == seq(|s|, _ => false);
      CountNone(|s|);
    }
    i :| 0 <= i < |s| && s[i];
  }

  /** An index node with a child holds something. */
  lemma IndexNonEmpty<K, V>(h: K -> bv32, n: Node<K, V>, shift: nat)
    requires n.IndexNode? && WF(h, n, shift) && |n.nodes| > 0
    ensures Elements(n) != map[]
  {
    var k := SomeKey(Elements(n.nodes[0]));
    IndexLookup(h, n, shift, k);
  }

  /** An array node always holds something. */
  lemma ArrayNonEmpty<K, V>(h: K -> bv32, n: Node<K, V>, shift: nat)
    requires n.ArrayNode? && WF(h, n, shift)
    ensures Elements(n) != map[]
  {
    var i := CountPositive(Occupied(n.slots));
    var k := SomeKey(Elements(n.slots[i].value));
    ArrayLookup(h, n, shift, k);
  }

  /** At shift 30 only four chunks are left, so an index node there has at most four
      children and never reaches `MAX_INDEX_NODE`. */
  lemma IndexTop<K, V>(h: K -> bv32, n: Node<K, V>)
    requires n.IndexNode? && WF(h, n, 30)
    ensures |n.nodes| <= 4
  {
    var s := Bits(n.bitmap);
    forall i | 0 <= i < 32 && s[i]
      ensures i < 4
    {
      RankBelow(s, i);
      var p := Rank(n.bitmap, i);
      var k := SomeKey(Elements(n.nodes[p]));
      var m := Mask(h(k), 30) as nat;
      TopMask(h(k));
      RankDistinct(s, i, m);
    }
    PopcountLow(n.bitmap);
  }

  /** So an index node with more than four children sits at shift 25 at most. */
  lemma IndexDepth<K, V>(h: K -> bv32, n: Node<K, V>, shift: nat)
    requires n.IndexNode? && WF(h, n, shift) && shift % Shift == 0
    ensures |n.nodes| > 4 ==> shift <= 25
  {
    if shift == 30 {
      IndexTop(h, n);
    }
  }

  // Index nodes.

  /** An index node is well formed once it is routed and its children are well formed and
      non-empty one level down. */
  lemma IndexWFIntro<K, V>(h: K -> bv32, n: Node<K, V>, shift: nat)
    requires shift <= 30 && IndexRouted(h, n, shift) && ChildrenWF(h, n, shift)
    ensures WF(h, n, shift)
  {
  }

  /** Replacing the child that holds `key`'s chunk with a non-empty `c` whose contents are
      the old child's with `key` edited edits the index node's contents the same way. */
  lemma IndexEdit<K, V>(h: K -> bv32, n: Node<K, V>, shift: nat, key: K, e: Edit<V>, p: nat, c: Node<K, V>)
    requires n.IndexNode? && WF(h, n, shift)
    requires Bits(n.bitmap)[Mask(h(key), shift) as nat] && p == Rank(n.bitmap, Mask(h(key), shift) as nat)
    requires p < |n.nodes| && WF(h, c, shift + Shift) && Elements(c) != map[]
    requires Elements(c) == Apply(Elements(n.nodes[p]), key, e)
    ensures WF(h, IndexNode(n.bitmap, CloneAndSet(n.nodes, p, c)), shift)
    ensures Elements(IndexNode(n.bitmap, CloneAndSet(n.nodes, p, c))) == Apply(Elements(n), key, e)
  {
    var r := IndexNode(n.bitmap, CloneAndSet(n.nodes, p, c));
    IndexEditShape(h, n, shift, key, e, p, c);
    var a := Apply(Elements(n), key, e);
    forall x
      ensures (x in Elements(r) <==> x in a) && (x in a ==> Elements(r)[x] == a[x])
    {
      IndexEditAt(h, n, shift, key, e, p, c, x);
    }
    MapsEqual(Elements(r), a);
  }

  lemma IndexEditShape<K, V>(h: K -> bv32, n: Node<K, V>, shift: nat, key: K, e: Edit<V>, p: nat, c: Node<K, V>)
    requires n.IndexNode? && WF(h, n, shift)
    requires Bits(n.bitmap)[Mask(h(key), shift) as nat] && p == Rank(n.bitmap, Mask(h(key), shift) as nat)
    requires p < |n.nodes| && WF(h, c, shift + Shift) && Elements(c) != map[]
    requires Elements(c) == Apply(Elements(n.nodes[p]), key, e)
    ensures WF(h, IndexNode(n.bitmap, CloneAndSet(n.nodes, p, c)), shift)
  {
    var nodes := CloneAndSet(n.nodes, p, c);
    forall q | 0 <= q < |nodes|
      ensures WF(h, nodes[q], shift + Shift) && Elements(nodes[q]) != map[]
      ensures forall k :: k in Elements(nodes[q]) ==>
                var mk := Mask(h(k), shift) as nat;
                Bits(n.bitmap)[mk] && Rank(n.bitmap, mk) == q
    {
      if q == p {
        IndexEditChild(h, n, shift, key, e, p, c);
      }
    }
    IndexWFIntro(h, IndexNode(n.bitmap, nodes), shift);
  }

  /** The new child keeps its keys at their chunk's rank. */
  lemma IndexEditChild<K, V>(h: K -> bv32, n: Node<K, V>, shift: nat, key: K, e: Edit<V>, p: nat, c: Node<K, V>)
    requires n.IndexNode? && WF(h, n, shift)
    requires Bits(n.bitmap)[Mask(h(key), shift) as nat] && p == Rank(n.bitmap, Mask(h(key), shift) as nat)
    requires p < |n.nodes| && Elements(c) == Apply(Elements(n.nodes[p]), key, e)
    ensures forall k :: k in Elements(c) ==>
              var mk := Mask(h(k), shift) as nat;
              Bits(n.bitmap)[mk] && Rank(n.bitmap, mk) == p
  {
    forall k | k in Elements(c)
      ensures var mk := Mask(h(k), shift) as nat;
              Bits(n.bitmap)[mk] && Rank(n.bitmap, mk) == p
    {
      assert k == key || k in Elements(n.nodes[p]);
    }
  }

  lemma IndexEditAt<K, V>(h: K -> bv32, n: Node<K, V>, shift: nat, key: K, e: Edit<V>, p: nat, c: Node<K, V>, x: K)
    requires IndexRouted(h, n, shift)
    requires Bits(n.bitmap)[Mask(h(key), shift) as nat] && p == Rank(n.bitmap, Mask(h(key), shift) as nat)
    requires p < |n.nodes| && IndexRouted(h, IndexNode(n.bitmap, CloneAndSet(n.nodes, p, c)), shift)
    requires Elements(c) == Apply(Elements(n.nodes[p]), key, e)
    ensures var r := Elements(IndexNode(n.bitmap, CloneAndSet(n.nodes, p, c)));
            var a := Apply(Elements(n), key, e);
            (x in r <==> x in a) && (x in a ==> r[x] == a[x])
  {
    if Mask(h(x), shift) as nat == Mask(h(key), shift) as nat {
      IndexEditOwn(h, n, shift, key, e, p, c, x);
    } else {
      IndexEditOther(h, n, shift, key, p, c, x);
    }
  }

  /** A key of the edited child's chunk is held as that child holds it. */
  lemma IndexEditOwn<K, V>(h: K -> bv32, n: Node<K, V>, shift: nat, key: K, e: Edit<V>, p: nat, c: Node<K, V>, x: K)
    requires IndexRouted(h, n, shift) && Mask(h(x), shift) as nat == Mask(h(key), shift) as nat
    requires Bits(n.bitmap)[Mask(h(key), shift) as nat] && p == Rank(n.bitmap, Mask(h(key), shift) as nat)
    requires p < |n.nodes| && IndexRouted(h, IndexNode(n.bitmap, CloneAndSet(n.nodes, p, c)), shift)
    requires Elements(c) == Apply(Elements(n.nodes[p]), key, e)
    ensures var r := Elements(IndexNode(n.bitmap, CloneAndSet(n.nodes, p, c)));
            var a := Apply(Elements(n), key, e);
            (x in r <==> x in a) && (x in a ==> r[x] == a[x])
  {
    var r := IndexNode(n.bitmap, CloneAndSet(n.nodes, p, c));
    IndexLookup(h, n, shift, x);
    IndexLookup(h, r, shift, x);
    assert r.nodes[p] == c;
  }

  /** A key of another chunk is held as before, in an untouched child or nowhere. */
  lemma IndexEditOther<K, V>(h: K -> bv32, n: Node<K, V>, shift: nat, key: K, p: nat, c: Node<K, V>, x: K)
    requires IndexRouted(h, n, shift) && Mask(h(x), shift) as nat != Mask(h(key), shift) as nat
    requires Bits(n.bitmap)[Mask(h(key), shift) as nat] && p == Rank(n.bitmap, Mask(h(key), shift) as nat)
    requires p < |n.nodes| && IndexRouted(h, IndexNode(n.bitmap, CloneAndSet(n.nodes, p, c)), shift)
    ensures x != key
    ensures var r := Elements(IndexNode(n.bitmap, CloneAndSet(n.nodes, p, c)));
            (x in r <==> x in Elements(n)) && (x in r ==> r[x] == Elements(n)[x])
  {
    if Bits(n.bitmap)[Mask(h(x), shift) as nat] {
      IndexEditUntouched(h, n, shift, key, p, c, x);
    } else {
      IndexAbsent(h, n, shift, x);
      IndexAbsent(h, IndexNode(n.bitmap, CloneAndSet(n.nodes, p, c)), shift, x);
    }
  }

  /** A key of another set chunk lies in an untouched child and is held as before. */
  lemma IndexEditUntouched<K, V>(h: K -> bv32, n: Node<K, V>, shift: nat, key: K, p: nat, c: Node<K, V>, x: K)
    requires IndexRouted(h, n, shift) && p < |n.nodes| && Mask(h(x), shift) as nat != Mask(h(key), shift) as nat
    requires Bits(n.bitmap)[Mask(h(key), shift) as nat] && p == Rank(n.bitmap, Mask(h(key), shift) as nat)
    requires Bits(n.bitmap)[Mask(h(x), shift) as nat]
    requires IndexRouted(h, IndexNode(n.bitmap, CloneAndSet(n.nodes, p, c)), shift)
    ensures var r := Elements(IndexNode(n.bitmap, CloneAndSet(n.nodes, p, c)));
            (x in r <==> x in Elements(n)) && (x in r ==> r[x] == Elements(n)[x])
  {
    var mx := Mask(h(x), shift) as nat;
    var r := IndexNode(n.bitmap, CloneAndSet(n.nodes, p, c));
    RankApart(Bits(n.bitmap), mx, Mask(h(key), shift) as nat);
    RankInside(n.bitmap, mx);
    assert r.nodes[Rank(n.bitmap, mx)] == n.nodes[Rank(n.bitmap, mx)];
    IndexSameChild(h, n, r, shift, x);
  }

  /** Two index nodes whose children at `x`'s chunk are the same node hold `x` alike. */
  lemma IndexSameChild<K, V>(h: K -> bv32, n: Node<K, V>, r: Node<K, V>, shift: nat, x: K)
    requires IndexRouted(h, n, shift) && IndexRouted(h, r, shift)
    requires Bits(n.bitmap)[Mask(h(x), shift) as nat] && Bits(r.bitmap)[Mask(h(x), shift) as nat]
    requires Rank(n.bitmap, Mask(h(x), shift) as nat) < |n.nodes| && Rank(r.bitmap, Mask(h(x), shift) as nat) < |r.nodes|
    requires r.nodes[Rank(r.bitmap, Mask(h(x), shift) as nat)] == n.nodes[Rank(n.bitmap, Mask(h(x), shift) as nat)]
    ensures (x in Elements(r) <==> x in Elements(n)) && (x in Elements(r) ==> Elements(r)[x] == Elements(n)[x])
  {
    IndexLookup(h, n, shift, x);
    IndexLookup(h, r, shift, x);
  }

  /** A set bit's rank is below the number of set bits. */
  lemma RankInside(b: bv32, m: nat)
    requires m < BucketSize && Bits(b)[m]
    ensures Rank(b, m) < Popcount(b)
  {
    RankBelow(Bits(b), m);
  }

  /** A key whose bit is clear is not under the index node. */
  lemma IndexAbsent<K, V>(h: K -> bv32, n: Node<K, V>, shift: nat, x: K)
    requires IndexRouted(h, n, shift) && !Bits(n.bitmap)[Mask(h(x), shift) as nat]
    ensures x !in Elements(n)
  {
    IndexLookup(h, n, shift, x);
  }

  /** Where an old child's key lands once a clear position `m` is set: one place further
      up exactly when its chunk lies above `m`. */
  lemma ShiftedRank(s: seq<bool>, m: nat, mk: nat)
    requires m < |s| && mk < |s| && !s[m] && s[mk]
    ensures s[m := true][mk]
    ensures mk < m ==> Count(s[..mk]) < Count(s[..m]) && Count(s[m := true][..mk]) == Count(s[..mk])
    ensures mk > m ==> Count(s[..mk]) >= Count(s[..m]) && Count(s[m := true][..mk]) == Count(s[..mk]) + 1
  {
    CountPrefixSet(s, m, mk);
    if mk < m {
      RankInjective(s, mk, m);
    } else {
      RankMono(s, m, mk);
    }
  }

  /** Setting a clear bit (the new bitmap is `b2`) and splicing in `key`'s entry at its
      rank adds `key` to the index node. */
  lemma IndexInsert<K, V>(h: K -> bv32, n: Node<K, V>, shift: nat, key: K, val: V, p: nat, b2: bv32)
    requires n.IndexNode? && WF(h, n, shift)
    requires !Bits(n.bitmap)[Mask(h(key), shift) as nat] && p == Rank(n.bitmap, Mask(h(key), shift) as nat)
    requires Bits(b2) == Bits(n.bitmap)[Mask(h(key), shift) as nat := true]
    ensures p <= |n.nodes|
    ensures WF(h, IndexNode(b2, SpliceIn(n.nodes, p, Entry(key, val))), shift)
    ensures Elements(IndexNode(b2, SpliceIn(n.nodes, p, Entry(key, val)))) == Elements(n)[key := val]
  {
    RankAtMost(n.bitmap, Mask(h(key), shift) as nat);
    var r := IndexNode(b2, SpliceIn(n.nodes, p, Entry(key, val)));
    IndexInsertShape(h, n, shift, key, val, p, b2);
    var a := Elements(n)[key := val];
    forall x
      ensures (x in Elements(r) <==> x in a) && (x in a ==> Elements(r)[x] == a[x])
    {
      if Mask(h(x), shift) as nat == Mask(h(key), shift) as nat {
        IndexInsertOwn(h, n, shift, key, val, p, b2, x);
      } else {
        IndexInsertOther(h, n, shift, key, val, p, b2, x);
      }
    }
    MapsEqual(Elements(r), a);
  }

  lemma IndexInsertShape<K, V>(h: K -> bv32, n: Node<K, V>, shift: nat, key: K, val: V, p: nat, b2: bv32)
    requires n.IndexNode? && WF(h, n, shift)
    requires !Bits(n.bitmap)[Mask(h(key), shift) as nat] && p == Rank(n.bitmap, Mask(h(key), shift) as nat)
    requires Bits(b2) == Bits(n.bitmap)[Mask(h(key), shift) as nat := true]
    requires p <= |n.nodes|
    ensures WF(h, IndexNode(b2, SpliceIn(n.nodes, p, Entry(key, val))), shift)
  {
    assert IndexRouted(h, n, shift) && ChildrenWF(h, n, shift);
    IndexInsertRoutedAll(h, n, shift, key, val, p, b2);
    SpliceInChildren(h, n, shift, p, Entry(key, val), b2);
    IndexWFIntro(h, IndexNode(b2, SpliceIn(n.nodes, p, Entry(key, val))), shift);
  }

  /** Adding an entry keeps the children well formed. */
  lemma SpliceInChildren<K, V>(h: K -> bv32, n: Node<K, V>, shift: nat, p: nat, e: Node<K, V>, b2: bv32)
    requires ChildrenWF(h, n, shift) && p <= |n.nodes| && e.Entry?
    ensures ChildrenWF(h, IndexNode(b2, SpliceIn(n.nodes, p, e)), shift)
  {
    var nodes := SpliceIn(n.nodes, p, e);
    forall q | 0 <= q < |nodes|
      ensures WF(h, nodes[q], shift + Shift) && Elements(nodes[q]) != map[]
    {
      if q == p {
        assert e.k in Elements(e);
      } else {
        SpliceInAt(n.nodes, p, e, if q < p then q else q - 1);
      }
    }
  }

  /** Setting the new key's bit keeps every old key routed to its child and routes the
      new key to the entry spliced in at its rank. */
  lemma IndexInsertRoutedAll<K, V>(h: K -> bv32, n: Node<K, V>, shift: nat, key: K, val: V, p: nat, b2: bv32)
    requires IndexRouted(h, n, shift)
    requires !Bits(n.bitmap)[Mask(h(key), shift) as nat] && p == Rank(n.bitmap, Mask(h(key), shift) as nat)
    requires Bits(b2) == Bits(n.bitmap)[Mask(h(key), shift) as nat := true]
    requires p <= |n.nodes|
    ensures IndexRouted(h, IndexNode(b2, SpliceIn(n.nodes, p, Entry(key, val))), shift)
  {
    InsertCount(n.bitmap, Mask(h(key), shift) as nat, b2);
    var nodes := SpliceIn(n.nodes, p, Entry(key, val));
    forall q | 0 <= q < |nodes|
      ensures forall k :: k in Elements(nodes[q]) ==>
                var mk := Mask(h(k), shift) as nat;
                Bits(b2)[mk] && Rank(b2, mk) == q
    {
      if q == p {
        assert Elements(nodes[q]) == map[key := val];
      } else {
        var o := if q < p then q else q - 1;
        SpliceInAt(n.nodes, p, Entry(key, val), o);
        IndexInsertRouted(h, n, shift, key, p, b2, o, q);
      }
    }
  }

  /** Setting a clear bit raises the population count by one and leaves the bit's own
      rank as it was. */
  lemma InsertCount(b: bv32, m: nat, b2: bv32)
    requires m < 32 && !Bits(b)[m] && Bits(b2) == Bits(b)[m := true]
    ensures Popcount(b2) == Popcount(b) + 1 && Bits(b2)[m] && Rank(b2, m) == Rank(b, m)
  {
    CountSet(Bits(b), m);
    CountPrefixSet(Bits(b), m, m);
  }

  /** An old child at `o` keeps its keys routed under the new bitmap at its new place `q`:
      `o` below the new entry and `o + 1` at or above it. */
  lemma IndexInsertRouted<K, V>(h: K -> bv32, n: Node<K, V>, shift: nat, key: K, p: nat, b2: bv32, o: nat, q: nat)
    requires IndexRouted(h, n, shift)
    requires !Bits(n.bitmap)[Mask(h(key), shift) as nat] && p == Rank(n.bitmap, Mask(h(key), shift) as nat)
    requires Bits(b2) == Bits(n.bitmap)[Mask(h(key), shift) as nat := true]
    requires o < |n.nodes| && q == if o < p then o else o + 1
    ensures forall k :: k in Elements(n.nodes[o]) ==>
              var mk := Mask(h(k), shift) as nat;
              Bits(b2)[mk] && Rank(b2, mk) == q
  {
    forall k | k in Elements(n.nodes[o])
      ensures var mk := Mask(h(k), shift) as nat;
              Bits(b2)[mk] && Rank(b2, mk) == q
    {
      InsertPosition(n.bitmap, Mask(h(key), shift) as nat, b2, Mask(h(k), shift) as nat);
    }
  }

  /** Rank `o` of a set position `mk` becomes `o` or `o + 1` once clear position `m` of rank
      `p` is set, as the old child at `o` stays below the new entry or moves above it. */
  lemma InsertPosition(b: bv32, m: nat, b2: bv32, mk: nat)
    requires m < 32 && mk < 32 && !Bits(b)[m] && Bits(b)[mk]
    requires Bits(b2) == Bits(b)[m := true]
    ensures Bits(b2)[mk]
    ensures Rank(b2, mk) == if Rank(b, mk) < Rank(b, m) then Rank(b, mk) else Rank(b, mk) + 1
  {
    ShiftedRank(Bits(b), m, mk);
  }

  lemma IndexInsertOwn<K, V>(h: K -> bv32, n: Node<K, V>, shift: nat, key: K, val: V, p: nat, b2: bv32, x: K)
    requires IndexRouted(h, n, shift)
    requires !Bits(n.bitmap)[Mask(h(key), shift) as nat] && p == Rank(n.bitmap, Mask(h(key), shift) as nat)
    requires Bits(b2) == Bits(n.bitmap)[Mask(h(key), shift) as nat := true]
    requires p <= |n.nodes| && Mask(h(x), shift) as nat == Mask(h(key), shift) as nat
    requires IndexRouted(h, IndexNode(b2, SpliceIn(n.nodes, p, Entry(key, val))), shift)
    ensures var r := Elements(IndexNode(b2, SpliceIn(n.nodes, p, Entry(key, val))));
            var a := Elements(n)[key := val];
            (x in r <==> x in a) && (x in a ==> r[x] == a[x])
  {
    var m := Mask(h(key), shift) as nat;
    var nodes := SpliceIn(n.nodes, p, Entry(key, val));
    IndexLookup(h, n, shift, x);
    IndexLookup(h, IndexNode(b2, nodes), shift, x);
    CountPrefixSet(Bits(n.bitmap), m, m);
    assert nodes[p] == Entry(key, val);
  }

  lemma IndexInsertOther<K, V>(h: K -> bv32, n: Node<K, V>, shift: nat, key: K, val: V, p: nat, b2: bv32, x: K)
    requires IndexRouted(h, n, shift)
    requires !Bits(n.bitmap)[Mask(h(key), shift) as nat] && p == Rank(n.bitmap, Mask(h(key), shift) as nat)
    requires Bits(b2) == Bits(n.bitmap)[Mask(h(key), shift) as nat := true]
    requires p <= |n.nodes| && Mask(h(x), shift) as nat != Mask(h(key), shift) as nat
    requires IndexRouted(h, IndexNode(b2, SpliceIn(n.nodes, p, Entry(key, val))), shift)
    ensures var r := Elements(IndexNode(b2, SpliceIn(n.nodes, p, Entry(key, val))));
            (x in r <==> x in Elements(n)) && (x in r ==> r[x] == Elements(n)[x])
  {
    if Bits(n.bitmap)[Mask(h(x), shift) as nat] {
      IndexInsertMovedKey(h, n, shift, key, val, p, b2, x);
    } else {
      IndexInsertAbsent(h, n, shift, key, val, p, b2, x);
    }
  }

  lemma IndexInsertMovedKey<K, V>(h: K -> bv32, n: Node<K, V>, shift: nat, key: K, val: V, p: nat, b2: bv32, x: K)
    requires IndexRouted(h, n, shift)
    requires !Bits(n.bitmap)[Mask(h(key), shift) as nat] && p == Rank(n.bitmap, Mask(h(key), shift) as nat)
    requires Bits(b2) == Bits(n.bitmap)[Mask(h(key), shift) as nat := true]
    requires p <= |n.nodes| && Bits(n.bitmap)[Mask(h(x), shift) as nat]
    requires IndexRouted(h, IndexNode(b2, SpliceIn(n.nodes, p, Entry(key, val))), shift)
    ensures var r := Elements(IndexNode(b2, SpliceIn(n.nodes, p, Entry(key, val))));
            (x in r <==> x in Elements(n)) && (x in r ==> r[x] == Elements(n)[x])
  {
    InsertPosition(n.bitmap, Mask(h(key), shift) as nat, b2, Mask(h(x), shift) as nat);
    IndexInsertKept(h, n, shift, key, val, p, b2, x);
  }

  lemma IndexInsertAbsent<K, V>(h: K -> bv32, n: Node<K, V>, shift: nat, key: K, val: V, p: nat, b2: bv32, x: K)
    requires IndexRouted(h, n, shift)
    requires Bits(b2) == Bits(n.bitmap)[Mask(h(key), shift) as nat := true]
    requires p <= |n.nodes| && Mask(h(x), shift) as nat != Mask(h(key), shift) as nat
    requires !Bits(n.bitmap)[Mask(h(x), shift) as nat]
    requires IndexRouted(h, IndexNode(b2, SpliceIn(n.nodes, p, Entry(key, val))), shift)
    ensures x !in Elements(IndexNode(b2, SpliceIn(n.nodes, p, Entry(key, val)))) && x !in Elements(n)
  {
    IndexAbsent(h, n, shift, x);
    IndexAbsent(h, IndexNode(b2, SpliceIn(n.nodes, p, Entry(key, val))), shift, x);
  }

  lemma IndexInsertKept<K, V>(h: K -> bv32, n: Node<K, V>, shift: nat, key: K, val: V, p: nat, b2: bv32, x: K)
    requires IndexRouted(h, n, shift) && p <= |n.nodes|
    requires Bits(n.bitmap)[Mask(h(x), shift) as nat] && Bits(b2)[Mask(h(x), shift) as nat]
    requires var o := Rank(n.bitmap, Mask(h(x), shift) as nat);
             Rank(b2, Mask(h(x), shift) as nat) == if o < p then o else o + 1
    requires IndexRouted(h, IndexNode(b2, SpliceIn(n.nodes, p, Entry(key, val))), shift)
    ensures var r := Elements(IndexNode(b2, SpliceIn(n.nodes, p, Entry(key, val))));
            (x in r <==> x in Elements(n)) && (x in r ==> r[x] == Elements(n)[x])
  {
    var mx := Mask(h(x), shift) as nat;
    var r := IndexNode(b2, SpliceIn(n.nodes, p, Entry(key, val)));
    RankInside(n.bitmap, mx);
    RankInside(b2, mx);
    SpliceInAt(n.nodes, p, Entry(key, val), Rank(n.bitmap, mx));
    IndexSameChild(h, n, r, shift, x);
  }

  /** Rank `o` of a set position `mk` becomes `o` or `o - 1` once set position `m` of rank
      `p` is cleared, as the old child at `o` stays below the removed one or moves down. */
  lemma RemovePosition(b: bv32, m: nat, b2: bv32, mk: nat)
    requires m < 32 && mk < 32 && mk != m && Bits(b)[m] && Bits(b)[mk]
    requires Bits(b2) == Bits(b)[m := false]
    ensures Bits(b2)[mk]
    ensures Rank(b2, mk) == if Rank(b, mk) < Rank(b, m) then Rank(b, mk) else Rank(b, mk) - 1
    ensures Rank(b, mk) != Rank(b, m)
  {
    var t := Bits(b)[m := false];
    assert t[m := true] == Bits(b);
    ShiftedRank(t, m, mk);
    CountPrefixSet(t, m, m);
    if mk < m {
      RankInjective(Bits(b), mk, m);
    } else {
      RankInjective(Bits(b), m, mk);
    }
  }

  /** Clearing a set bit (the new bitmap is `b2`) and splicing out its child, which held
      nothing but `key`, removes `key` from the index node. */
  lemma IndexRemove<K, V>(h: K -> bv32, n: Node<K, V>, shift: nat, key: K, p: nat, b2: bv32)
    requires n.IndexNode? && WF(h, n, shift)
    requires Bits(n.bitmap)[Mask(h(key), shift) as nat] && p == Rank(n.bitmap, Mask(h(key), shift) as nat)
    requires p < |n.nodes| && Elements(n.nodes[p]) - {key} == map[]
    requires Bits(b2) == Bits(n.bitmap)[Mask(h(key), shift) as nat := false]
    ensures WF(h, IndexNode(b2, SpliceOut(n.nodes, p)), shift)
    ensures Elements(IndexNode(b2, SpliceOut(n.nodes, p))) == Elements(n) - {key}
  {
    var r := IndexNode(b2, SpliceOut(n.nodes, p));
    IndexRemoveShape(h, n, shift, key, p, b2);
    var a := Elements(n) - {key};
    forall x
      ensures (x in Elements(r) <==> x in a) && (x in a ==> Elements(r)[x] == a[x])
    {
      if Mask(h(x), shift) as nat == Mask(h(key), shift) as nat {
        IndexRemoveOwn(h, n, shift, key, p, b2, x);
      } else {
        IndexRemoveOther(h, n, shift, key, p, b2, x);
      }
    }
    MapsEqual(Elements(r), a);
  }

  lemma IndexRemoveShape<K, V>(h: K -> bv32, n: Node<K, V>, shift: nat, key: K, p: nat, b2: bv32)
    requires n.IndexNode? && WF(h, n, shift)
    requires Bits(n.bitmap)[Mask(h(key), shift) as nat] && p == Rank(n.bitmap, Mask(h(key), shift) as nat)
    requires p < |n.nodes|
    requires Bits(b2) == Bits(n.bitmap)[Mask(h(key), shift) as nat := false]
    ensures WF(h, IndexNode(b2, SpliceOut(n.nodes, p)), shift)
  {
    assert IndexRouted(h, n, shift) && ChildrenWF(h, n, shift);
    IndexRemoveRoutedAll(h, n, shift, key, p, b2);
    SpliceOutChildren(h, n, shift, p, b2);
    IndexWFIntro(h, IndexNode(b2, SpliceOut(n.nodes, p)), shift);
  }

  /** Removing a child keeps the remaining children well formed. */
  lemma SpliceOutChildren<K, V>(h: K -> bv32, n: Node<K, V>, shift: nat, p: nat, b2: bv32)
    requires ChildrenWF(h, n, shift) && p < |n.nodes|
    ensures ChildrenWF(h, IndexNode(b2, SpliceOut(n.nodes, p)), shift)
  {
    var nodes := SpliceOut(n.nodes, p);
    forall q | 0 <= q < |nodes|
      ensures WF(h, nodes[q], shift + Shift) && Elements(nodes[q]) != map[]
    {
      assert nodes[q] == n.nodes[if q < p then q else q + 1];
    }
  }

  /** Clearing the removed child's bit keeps every remaining key routed to its child. */
  lemma IndexRemoveRoutedAll<K, V>(h: K -> bv32, n: Node<K, V>, shift: nat, key: K, p: nat, b2: bv32)
    requires IndexRouted(h, n, shift)
    requires Bits(n.bitmap)[Mask(h(key), shift) as nat] && p == Rank(n.bitmap, Mask(h(key), shift) as nat)
    requires p < |n.nodes|
    requires Bits(b2) == Bits(n.bitmap)[Mask(h(key), shift) as nat := false]
    ensures IndexRouted(h, IndexNode(b2, SpliceOut(n.nodes, p)), shift)
  {
    RemoveCount(n.bitmap, Mask(h(key), shift) as nat, b2);
    var nodes := SpliceOut(n.nodes, p);
    forall q | 0 <= q < |nodes|
      ensures forall k :: k in Elements(nodes[q]) ==>
                var mk := Mask(h(k), shift) as nat;
                Bits(b2)[mk] && Rank(b2, mk) == q
    {
      var o := if q < p then q else q + 1;
      SpliceOutAt(n.nodes, p, o);
      IndexRemoveRouted(h, n, shift, key, p, b2, o, q);
    }
  }

  /** An old child other than the removed one, at `o`, keeps its keys routed under the
      new bitmap at its new place `q`: `o` below the removed child and `o - 1` above it. */
  lemma IndexRemoveRouted<K, V>(h: K -> bv32, n: Node<K, V>, shift: nat, key: K, p: nat, b2: bv32, o: nat, q: nat)
    requires IndexRouted(h, n, shift)
    requires Bits(n.bitmap)[Mask(h(key), shift) as nat] && p == Rank(n.bitmap, Mask(h(key), shift) as nat)
    requires Bits(b2) == Bits(n.bitmap)[Mask(h(key), shift) as nat := false]
    requires o < |n.nodes| && o != p && q == if o < p then o else o - 1
    ensures forall k :: k in Elements(n.nodes[o]) ==>
              var mk := Mask(h(k), shift) as nat;
              Bits(b2)[mk] && Rank(b2, mk) == q
  {
    forall k | k in Elements(n.nodes[o])
      ensures var mk := Mask(h(k), shift) as nat;
              Bits(b2)[mk] && Rank(b2, mk) == q
    {
      RemoveRank(n.bitmap, Mask(h(key), shift) as nat, b2, Mask(h(k), shift) as nat, o);
    }
  }

  /** Clearing a set bit lowers the population count by one. */
  lemma RemoveCount(b: bv32, m: nat, b2: bv32)
    requires m < 32 && Bits(b)[m] && Bits(b2) == Bits(b)[m := false]
    ensures Popcount(b2) == Popcount(b) - 1
  {
    var t := Bits(b)[m := false];
    assert t[m := true] == Bits(b);
    CountSet(t, m);
  }

  /** A set bit ranked `o`, other than the cleared bit's rank, keeps its rank below the
      cleared bit and moves one down above it. */
  lemma RemoveRank(b: bv32, m: nat, b2: bv32, mk: nat, o: nat)
    requires m < 32 && mk < 32 && Bits(b)[m] && Bits(b)[mk]
    requires Rank(b, mk) == o && o != Rank(b, m)
    requires Bits(b2) == Bits(b)[m := false]
    ensures Bits(b2)[mk] && Rank(b2, mk) == if o < Rank(b, m) then o else o - 1
  {
    RemovePosition(b, m, b2, mk);
  }

  lemma IndexRemoveOther<K, V>(h: K -> bv32, n: Node<K, V>, shift: nat, key: K, p: nat, b2: bv32, x: K)
    requires IndexRouted(h, n, shift)
    requires Bits(n.bitmap)[Mask(h(key), shift) as nat] && p == Rank(n.bitmap, Mask(h(key), shift) as nat)
    requires p < |n.nodes|
    requires Bits(b2) == Bits(n.bitmap)[Mask(h(key), shift) as nat := false]
    requires Mask(h(x), shift) as nat != Mask(h(key), shift) as nat
    requires IndexRouted(h, IndexNode(b2, SpliceOut(n.nodes, p)), shift)
    ensures var r := Elements(IndexNode(b2, SpliceOut(n.nodes, p)));
            x != key && (x in r <==> x in Elements(n)) && (x in r ==> r[x] == Elements(n)[x])
  {
    if Bits(n.bitmap)[Mask(h(x), shift) as nat] {
      IndexRemoveSet(h, n, shift, key, p, b2, x);
    } else {
      IndexRemoveClear(h, n, shift, key, p, b2, x);
    }
  }

  lemma IndexRemoveSet<K, V>(h: K -> bv32, n: Node<K, V>, shift: nat, key: K, p: nat, b2: bv32, x: K)
    requires IndexRouted(h, n, shift)
    requires Bits(n.bitmap)[Mask(h(key), shift) as nat] && p == Rank(n.bitmap, Mask(h(key), shift) as nat)
    requires p < |n.nodes|
    requires Bits(b2) == Bits(n.bitmap)[Mask(h(key), shift) as nat := false]
    requires Mask(h(x), shift) as nat != Mask(h(key), shift) as nat
    requires IndexRouted(h, IndexNode(b2, SpliceOut(n.nodes, p)), shift)
    requires Bits(n.bitmap)[Mask(h(x), shift) as nat]
    ensures var r := Elements(IndexNode(b2, SpliceOut(n.nodes, p)));
            (x in r <==> x in Elements(n)) && (x in r ==> r[x] == Elements(n)[x])
  {
    RemovePosition(n.bitmap, Mask(h(key), shift) as nat, b2, Mask(h(x), shift) as nat);
    IndexRemoveKept(h, n, shift, p, b2, x);
  }

  lemma IndexRemoveClear<K, V>(h: K -> bv32, n: Node<K, V>, shift: nat, key: K, p: nat, b2: bv32, x: K)
    requires IndexRouted(h, n, shift)
    requires Bits(n.bitmap)[Mask(h(key), shift) as nat] && p == Rank(n.bitmap, Mask(h(key), shift) as nat)
    requires p < |n.nodes|
    requires Bits(b2) == Bits(n.bitmap)[Mask(h(key), shift) as nat := false]
    requires Mask(h(x), shift) as nat != Mask(h(key), shift) as nat
    requires IndexRouted(h, IndexNode(b2, SpliceOut(n.nodes, p)), shift)
    requires !Bits(n.bitmap)[Mask(h(x), shift) as nat]
    ensures x !in Elements(IndexNode(b2, SpliceOut(n.nodes, p))) && x !in Elements(n)
  {
    IndexAbsent(h, n, shift, x);
    IndexAbsent(h, IndexNode(b2, SpliceOut(n.nodes, p)), shift, x);
  }

  lemma IndexRemoveOwn<K, V>(h: K -> bv32, n: Node<K, V>, shift: nat, key: K, p: nat, b2: bv32, x: K)
    requires IndexRouted(h, n, shift)
    requires Bits(n.bitmap)[Mask(h(key), shift) as nat] && p == Rank(n.bitmap, Mask(h(key), shift) as nat)
    requires p < |n.nodes| && Elements(n.nodes[p]) - {key} == map[]
    requires Bits(b2) == Bits(n.bitmap)[Mask(h(key), shift) as nat := false]
    requires Mask(h(x), shift) as nat == Mask(h(key), shift) as nat
    requires IndexRouted(h, IndexNode(b2, SpliceOut(n.nodes, p)), shift)
    ensures x !in Elements(IndexNode(b2, SpliceOut(n.nodes, p))) && x !in Elements(n) - {key}
  {
    IndexLookup(h, n, shift, x);
    IndexAbsent(h, IndexNode(b2, SpliceOut(n.nodes, p)), shift, x);
    assert x in Elements(n.nodes[p]) ==> x == key;
  }

  lemma IndexRemoveKept<K, V>(h: K -> bv32, n: Node<K, V>, shift: nat, p: nat, b2: bv32, x: K)
    requires IndexRouted(h, n, shift) && p < |n.nodes|
    requires Bits(n.bitmap)[Mask(h(x), shift) as nat] && Bits(b2)[Mask(h(x), shift) as nat]
    requires var o := Rank(n.bitmap, Mask(h(x), shift) as nat);
             o != p && Rank(b2, Mask(h(x), shift) as nat) == if o < p then o else o - 1
    requires IndexRouted(h, IndexNode(b2, SpliceOut(n.nodes, p)), shift)
    ensures var r := Elements(IndexNode(b2, SpliceOut(n.nodes, p)));
            (x in r <==> x in Elements(n)) && (x in r ==> r[x] == Elements(n)[x])
  {
    var mx := Mask(h(x), shift) as nat;
    var r := IndexNode(b2, SpliceOut(n.nodes, p));
    RankInside(n.bitmap, mx);
    RankInside(b2, mx);
    SpliceOutAt(n.nodes, p, Rank(n.bitmap, mx));
    IndexSameChild(h, n, r, shift, x);
  }

  /** A node with one child holds what the child holds. */
  lemma SingleChild<K, V>(n: Node<K, V>)
    requires n.IndexNode? && |n.nodes| == 1
    ensures Elements(n) == Elements(n.nodes[0])
  {
    var ms := ChildMaps(n.nodes);
    assert ms[..0] == [];
    assert UnionAll(ms) == map[] + ms[0];
    assert map[] + ms[0] == ms[0];
  }

  /** A node whose keys all route to `m` at `shift`, wrapped as the only child of an index
      node with bit `m` (bitmap `b2`): the wrapper is well formed and holds the same. */
  lemma IndexWrap<K, V>(h: K -> bv32, c: Node<K, V>, shift: nat, m: bv5, b2: bv32)
    requires shift <= 30 && WF(h, c, shift + Shift) && Elements(c) != map[]
    requires forall k :: k in Elements(c) ==> Mask(h(k), shift) as nat == m as nat
    requires Bits(b2) == Bits(0)[m as nat := true]
    ensures WF(h, IndexNode(b2, [c]), shift) && Elements(IndexNode(b2, [c])) == Elements(c)
  {
    SingleBit(b2, m as nat);
    SingleChild(IndexNode(b2, [c]));
  }

  /** The bitmap with the one bit `m`: one bit set, at rank 0. */
  lemma SingleBit(b2: bv32, m: nat)
    requires m < BucketSize && Bits(b2) == Bits(0)[m := true]
    ensures Popcount(b2) == 1 && Bits(b2)[m] && Rank(b2, m) == 0
  {
    BitsOfZero();
    CountNone(32);
    CountSet(Bits(0), m);
    CountPrefixSet(Bits(0), m, m);
    assert Bits(0)[..m] == seq(m, _ => false);
    CountNone(m);
  }

  // Array nodes.

  /** The number of occupied slots after one slot is set to `o`. */
  lemma OccupiedSet<K, V>(slots: seq<Option<Node<K, V>>>, m: nat, o: Option<Node<K, V>>)
    requires m < |slots|
    ensures Count(Occupied(CloneAndSet(slots, m, o))) ==
              Count(Occupied(slots)) + (if o.Some? then 1 else 0) - (if slots[m].Some? then 1 else 0)
  {
    var t := Occupied(CloneAndSet(slots, m, o));
    var s := Occupied(slots);
    if o.Some? == slots[m].Some? {
      assert t == s;
    } else if o.Some? {
      assert t == s[m := true];
      CountSet(s, m);
    } else {
      assert s == t[m := true];
      CountSet(t, m);
    }
  }

  /** Setting the slot of `key`'s chunk to `o`, whose contents are the old slot's with
      `key` edited, edits the array node's contents the same way; `size2` counts the
      occupied slots afterwards. */
  lemma ArrayEdit<K, V>(h: K -> bv32, n: Node<K, V>, shift: nat, key: K, e: Edit<V>, o: Option<Node<K, V>>, size2: int)
    requires n.ArrayNode? && WF(h, n, shift)
    requires o.Some? ==> WF(h, o.value, shift + Shift) && Elements(o.value) != map[]
    requires SlotElements(o) == Apply(SlotElements(n.slots[Mask(h(key), shift) as nat]), key, e)
    requires size2 == n.size + (if o.Some? then 1 else 0) - (if n.slots[Mask(h(key), shift) as nat].Some? then 1 else 0)
    requires size2 >= MinArrayNode
    ensures WF(h, ArrayNode(size2, CloneAndSet(n.slots, Mask(h(key), shift) as nat, o)), shift)
    ensures Elements(ArrayNode(size2, CloneAndSet(n.slots, Mask(h(key), shift) as nat, o))) == Apply(Elements(n), key, e)
  {
    var m := Mask(h(key), shift) as nat;
    var r := ArrayNode(size2, CloneAndSet(n.slots, m, o));
    OccupiedSet(n.slots, m, o);
    ArrayEditShape(h, n, shift, key, e, o, size2);
    var a := Apply(Elements(n), key, e);
    forall x
      ensures (x in Elements(r) <==> x in a) && (x in a ==> Elements(r)[x] == a[x])
    {
      ArrayEditAt(h, n, shift, key, e, o, size2, x);
    }
    MapsEqual(Elements(r), a);
  }

  lemma ArrayEditShape<K, V>(h: K -> bv32, n: Node<K, V>, shift: nat, key: K, e: Edit<V>, o: Option<Node<K, V>>, size2: int)
    requires n.ArrayNode? && WF(h, n, shift)
    requires o.Some? ==> WF(h, o.value, shift + Shift) && Elements(o.value) != map[]
    requires SlotElements(o) == Apply(SlotElements(n.slots[Mask(h(key), shift) as nat]), key, e)
    requires size2 == Count(Occupied(CloneAndSet(n.slots, Mask(h(key), shift) as nat, o))) && size2 >= MinArrayNode
    ensures WF(h, ArrayNode(size2, CloneAndSet(n.slots, Mask(h(key), shift) as nat, o)), shift)
  {
    var m := Mask(h(key), shift) as nat;
    if o.Some? {
      forall k | k in Elements(o.value)
        ensures Mask(h(k), shift) as nat == m
      {
        assert k == key || k in SlotElements(n.slots[m]);
      }
    }
  }

  lemma ArrayEditAt<K, V>(h: K -> bv32, n: Node<K, V>, shift: nat, key: K, e: Edit<V>, o: Option<Node<K, V>>, size2: int, x: K)
    requires ArrayRouted(h, n, shift)
    requires ArrayRouted(h, ArrayNode(size2, CloneAndSet(n.slots, Mask(h(key), shift) as nat, o)), shift)
    requires SlotElements(o) == Apply(SlotElements(n.slots[Mask(h(key), shift) as nat]), key, e)
    ensures var r := Elements(ArrayNode(size2, CloneAndSet(n.slots, Mask(h(key), shift) as nat, o)));
            var a := Apply(Elements(n), key, e);
            (x in r <==> x in a) && (x in a ==> r[x] == a[x])
  {
    ArrayLookup(h, n, shift, x);
    ArrayLookup(h, ArrayNode(size2, CloneAndSet(n.slots, Mask(h(key), shift) as nat, o)), shift, x);
  }

  // Collision nodes.

  /** Entries with distinct keys: the one at `p` gives the value of its key. */
  lemma EntryAt<K, V>(n: Node<K, V>, p: nat)
    requires n.CollisionNode? && p < |n.nodes|
    requires forall q :: 0 <= q < |n.nodes| ==> n.nodes[q].Entry?
    requires forall q, r :: 0 <= q < r < |n.nodes| ==> n.nodes[q].k != n.nodes[r].k
    ensures n.nodes[p].k in Elements(n) && Elements(n)[n.nodes[p].k] == n.nodes[p].v
  {
    var ms := ChildMaps(n.nodes);
    var x := n.nodes[p].k;
    forall q | 0 <= q < |ms| && q != p
      ensures x !in ms[q]
    {
      if q < p {
        assert n.nodes[q].k != n.nodes[p].k;
      } else {
        assert n.nodes[p].k != n.nodes[q].k;
      }
    }
    Locate(ms, p, x);
  }

  /** A key no entry carries is not under the collision node. */
  lemma EntryNone<K, V>(n: Node<K, V>, x: K)
    requires n.CollisionNode?
    requires forall q :: 0 <= q < |n.nodes| ==> n.nodes[q].Entry? && n.nodes[q].k != x
    ensures x !in Elements(n)
  {
    var ms := ChildMaps(n.nodes);
    forall q | 0 <= q < |ms|
      ensures x !in ms[q]
    {
    }
    Locate(ms, -1, x);
  }

  /** A key is under a well-formed collision node exactly as `collisionIndexOf` finds it;
      the same search on the entries `e` (those of node `c`) says how `c` holds it. */
  lemma EntryLookup<K, V>(c: Node<K, V>, x: K)
    requires c.CollisionNode?
    requires forall q :: 0 <= q < |c.nodes| ==> c.nodes[q].Entry?
    requires forall q, r :: 0 <= q < r < |c.nodes| ==> c.nodes[q].k != c.nodes[r].k
    ensures var idx := CollisionIndexOf(c.nodes, x);
            && (x in Elements(c) <==> idx >= 0)
            && (x in Elements(c) ==> Elements(c)[x] == c.nodes[idx].v)
  {
    var idx := CollisionIndexOf(c.nodes, x);
    if idx >= 0 {
      EntryAt(c, idx);
    } else {
      EntryNone(c, x);
    }
  }

  /** The two-entry collision node `createNode` builds for distinct keys of one hash. */
  lemma CollisionPair<K, V>(h: K -> bv32, shift: nat, k1: K, v1: V, k2: K, v2: V)
    requires k1 != k2 && h(k1) == h(k2)
    ensures WF(h, CollisionNode(h(k1), [Entry(k1, v1), Entry(k2, v2)]), shift)
    ensures Elements(CollisionNode(h(k1), [Entry(k1, v1), Entry(k2, v2)])) == map[k1 := v1, k2 := v2]
  {
    var c := CollisionNode(h(k1), [Entry(k1, v1), Entry(k2, v2)]);
    assert ChildMaps(c.nodes) == [map[k1 := v1], map[k2 := v2]];
    assert [map[k1 := v1], map[k2 := v2]][..1] == [map[k1 := v1]];
    assert UnionAll([map[k1 := v1]]) == map[k1 := v1] by {
      assert [map[k1 := v1]][..0] == [];
    }
  }

  /** Replacing the entry of `key` (found at `idx`) with a new value. */
  lemma CollisionSet<K, V>(h: K -> bv32, n: Node<K, V>, shift: nat, key: K, val: V, idx: nat)
    requires n.CollisionNode? && WF(h, n, shift) && idx < |n.nodes| && n.nodes[idx].k == key
    ensures WF(h, CollisionNode(n.hash, CloneAndSet(n.nodes, idx, Entry(key, val))), shift)
    ensures Elements(CollisionNode(n.hash, CloneAndSet(n.nodes, idx, Entry(key, val)))) == Elements(n)[key := val]
  {
    var r := CollisionNode(n.hash, CloneAndSet(n.nodes, idx, Entry(key, val)));
    assert WF(h, r, shift);
    var a := Elements(n)[key := val];
    forall x
      ensures (x in Elements(r) <==> x in a) && (x in a ==> Elements(r)[x] == a[x])
    {
      if x == key {
        EntryAt(r, idx);
      } else {
        EntryLookup(n, x);
        EntryLookup(r, x);
        CollisionSame(n.nodes, r.nodes, idx, x);
      }
    }
    MapsEqual(Elements(r), a);
  }

  /** Two entry sequences that differ only at `idx`, where both carry a key other than
      `x`, find `x` at the same place. */
  lemma CollisionSame<K, V>(s: seq<Node<K, V>>, t: seq<Node<K, V>>, idx: nat, x: K)
    requires |s| == |t| && idx < |s|
    requires forall q :: 0 <= q < |s| ==> s[q].Entry? && t[q].Entry?
    requires s[idx].k != x && t[idx].k != x
    requires forall q :: 0 <= q < |s| && q != idx ==> s[q] == t[q]
    ensures CollisionIndexOf(s, x) == CollisionIndexOf(t, x)
  {
    var i, j := CollisionIndexOf(s, x), CollisionIndexOf(t, x);
    if i >= 0 {
      assert t[i].k == x;
    }
    if j >= 0 {
      assert s[j].k == x;
    }
  }

  /** Appending an entry for a new key of the node's hash. */
  lemma CollisionAppend<K, V>(h: K -> bv32, n: Node<K, V>, shift: nat, key: K, val: V)
    requires n.CollisionNode? && WF(h, n, shift) && h(key) == n.hash
    requires CollisionIndexOf(n.nodes, key) == -1
    ensures WF(h, CollisionNode(n.hash, CloneAndSet(n.nodes, |n.nodes|, Entry(key, val))), shift)
    ensures Elements(CollisionNode(n.hash, CloneAndSet(n.nodes, |n.nodes|, Entry(key, val)))) == Elements(n)[key := val]
  {
    var r := CollisionNode(n.hash, CloneAndSet(n.nodes, |n.nodes|, Entry(key, val)));
    assert r.nodes == n.nodes + [Entry(key, val)];
    assert WF(h, r, shift);
    var a := Elements(n)[key := val];
    forall x
      ensures (x in Elements(r) <==> x in a) && (x in a ==> Elements(r)[x] == a[x])
    {
      if x == key {
        EntryAt(r, |n.nodes|);
        EntryLookup(n, x);
      } else {
        EntryLookup(n, x);
        EntryLookup(r, x);
        var i, j := CollisionIndexOf(n.nodes, x), CollisionIndexOf(r.nodes, x);
        if i >= 0 {
          assert r.nodes[i].k == x;
        }
        if j >= 0 {
          assert j < |n.nodes| && n.nodes[j].k == x;
        }
      }
    }
    MapsEqual(Elements(r), a);
  }

  /** Splicing out the entry of `key` (found at `idx`) from a node that keeps others. */
  lemma CollisionRemove<K, V>(h: K -> bv32, n: Node<K, V>, shift: nat, key: K, idx: nat)
    requires n.CollisionNode? && WF(h, n, shift) && idx < |n.nodes| && n.nodes[idx].k == key
    requires |n.nodes| > 1
    ensures WF(h, CollisionNode(n.hash, SpliceOut(n.nodes, idx)), shift)
    ensures Elements(CollisionNode(n.hash, SpliceOut(n.nodes, idx))) == Elements(n) - {key}
  {
    var r := CollisionNode(n.hash, SpliceOut(n.nodes, idx));
    forall p, q | 0 <= p < q < |r.nodes|
      ensures r.nodes[p].k != r.nodes[q].k
    {
      var p', q' := if p < idx then p else p + 1, if q < idx then q else q + 1;
      assert r.nodes[p] == n.nodes[p'] && r.nodes[q] == n.nodes[q'] && p' < q';
    }
    assert WF(h, r, shift);
    var a := Elements(n) - {key};
    forall x
      ensures (x in Elements(r) <==> x in a) && (x in a ==> Elements(r)[x] == a[x])
    {
      if x == key {
        CollisionRemoveOwn(h, n, shift, key, idx);
      } else {
        CollisionRemoveOther(h, n, shift, key, idx, x);
      }
    }
    MapsEqual(Elements(r), a);
  }

  lemma CollisionRemoveOwn<K, V>(h: K -> bv32, n: Node<K, V>, shift: nat, key: K, idx: nat)
    requires n.CollisionNode? && WF(h, n, shift) && idx < |n.nodes| && n.nodes[idx].k == key
    ensures key !in Elements(CollisionNode(n.hash, SpliceOut(n.nodes, idx)))
  {
    var r := CollisionNode(n.hash, SpliceOut(n.nodes, idx));
    forall q | 0 <= q < |r.nodes|
      ensures r.nodes[q].Entry? && r.nodes[q].k != key
    {
      if q < idx {
        assert r.nodes[q] == n.nodes[q];
      } else {
        assert r.nodes[q] == n.nodes[q + 1];
      }
    }
    EntryNone(r, key);
  }

  lemma CollisionRemoveOther<K, V>(h: K -> bv32, n: Node<K, V>, shift: nat, key: K, idx: nat, x: K)
    requires n.CollisionNode? && WF(h, n, shift) && idx < |n.nodes| && n.nodes[idx].k == key
    requires WF(h, CollisionNode(n.hash, SpliceOut(n.nodes, idx)), shift) && x != key
    ensures var r := Elements(CollisionNode(n.hash, SpliceOut(n.nodes, idx)));
            (x in r <==> x in Elements(n)) && (x in r ==> r[x] == Elements(n)[x])
  {
    var r := CollisionNode(n.hash, SpliceOut(n.nodes, idx));
    EntryLookup(n, x);
    EntryLookup(r, x);
    var i := CollisionIndexOf(n.nodes, x);
    if i >= 0 {
      var i' := if i < idx then i else i - 1;
      assert r.nodes[i'] == n.nodes[i];
      EntryAt(r, i');
    }
  }

  /** A collision node with one entry, for `key`, holds nothing else. */
  lemma CollisionSingle<K, V>(h: K -> bv32, n: Node<K, V>, shift: nat, key: K)
    requires n.CollisionNode? && WF(h, n, shift) && |n.nodes| == 1 && n.nodes[0].k == key
    ensures Elements(n).Keys == {key}
  {
    forall x | x in Elements(n)
      ensures x == key
    {
      EntryLookup(n, x);
    }
    EntryAt(n, 0);
  }
}
