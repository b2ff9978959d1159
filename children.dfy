/** The child phase of `createElementNode` and `diffKeyedChild`: a cursor walks the
    element's previous children while each incoming child (a fragment counting as its
    elements) is paired with a previous node and queued on the work list; whatever the
    cursor has not reached at the end is removed. With keys, previous children whose key
    is not coming back are dropped first and matching children are moved into place.
    It is a fold over the incoming children; `Render.DiffChildren` performs it on the
    page and is proved to match. */
module Children {
  import opened Prelude
  import opened Vdom
  import opened Dom

  /** The attribute under which a keyed element keeps its key on the page. */
  const KeyAttribute: string := "data-lustre-key"

  /** An entry of `morph`'s work list: reconcile `next` against `prev` (none: create a
      node) inside `parent`. */
  datatype WorkItem = WorkItem(prev: Option<NodeId>, next: VNode, parent: NodeId)

  ghost predicate ItemOk(nodes: map<NodeId, Node>, it: WorkItem)
  {
    && it.parent in nodes && nodes[it.parent].ElementNode?
    && (it.prev.Some? ==> it.prev.value in nodes && it.prev.value != it.parent)
  }

  ghost predicate QueueOk(nodes: map<NodeId, Node>, q: seq<WorkItem>)
  {
    forall i | 0 <= i < |q| :: ItemOk(nodes, q[i])
  }

  lemma QueueOkGrew(before: map<NodeId, Node>, after: map<NodeId, Node>, q: seq<WorkItem>)
    requires QueueOk(before, q) && Grew(before, after)
    ensures QueueOk(after, q)
  {
    forall i | 0 <= i < |q|
      ensures ItemOk(after, q[i])
    {
      assert ItemOk(before, q[i]);
    }
  }

  /** The listener sets of the nodes already there are untouched; a node added since
      has none. */
  ghost predicate ListenersKept(before: map<NodeId, set<string>>, after: map<NodeId, set<string>>)
  {
    && before.Keys <= after.Keys
    && forall id | id in after :: after[id] == (if id in before then before[id] else {})
  }

  lemma ListenersKeptTransitive(a: map<NodeId, set<string>>, b: map<NodeId, set<string>>,
                                c: map<NodeId, set<string>>)
    requires ListenersKept(a, b) && ListenersKept(b, c)
    ensures ListenersKept(a, c)
  {
  }

  lemma ListenersKeptAdd(l: map<NodeId, set<string>>, id: NodeId)
    requires id !in l
    ensures ListenersKept(l, l[id := {}])
  {
  }

  /** The vnodes still to be reconciled; it bounds the rest of `morph`'s work. */
  function QueueSize(q: seq<WorkItem>): nat
  {
    if q == [] then 0 else Size(q[0].next) + QueueSize(q[1..])
  }

  lemma {:induction false} QueueSizeAppend(a: seq<WorkItem>, b: seq<WorkItem>)
    ensures QueueSize(a + b) == QueueSize(a) + QueueSize(b)
  {
    if a == [] {
      assert a + b == b;
    } else {
      assert (a + b)[1..] == a[1..] + b;
      QueueSizeAppend(a[1..], b);
    }
  }

  /** What the phase changes on the page (the node heap, the next fresh id, the
      listener sets, the DOM calls made and the warnings), the cursor `prevChild`, the
      keys seen so far, the work list and whether a `TypeError` was thrown. */
  datatype ChildPass = ChildPass(
    nodes: map<NodeId, Node>,
    nextId: NodeId,
    listeners: map<NodeId, set<string>>,
    writes: multiset<Mutation>,
    warnings: seq<string>,
    cursor: Option<NodeId>,
    seen: set<string>,
    queue: seq<WorkItem>,
    fault: bool)

  /** The heap is well formed, `el` is an element, the cursor is one of its children and
      the work list refers to nodes of the heap. */
  ghost predicate Ok(el: NodeId, s: ChildPass)
  {
    && HeapOk(s.nodes, s.nextId) && s.listeners.Keys == s.nodes.Keys
    && el in s.nodes && s.nodes[el].ElementNode?
    && (s.cursor.Some? ==> s.cursor.value in s.nodes[el].childNodes)
    && QueueOk(s.nodes, s.queue)
  }

  /** The next fresh id is not in use: not the element, not the cursor. */
  lemma FreshId(el: NodeId, s: ChildPass)
    requires Ok(el, s)
    ensures s.nextId !in s.nodes && el != s.nextId
    ensures s.cursor.Some? ==> s.cursor.value != s.nextId
  {
  }

  /** A work item for nodes of the heap can be pushed on a valid work list. */
  lemma QueueOkCons(nodes: map<NodeId, Node>, it: WorkItem, q: seq<WorkItem>)
    requires QueueOk(nodes, q) && ItemOk(nodes, it)
    ensures QueueOk(nodes, [it] + q)
  {
    forall i | 0 <= i < |[it] + q|
      ensures ItemOk(nodes, ([it] + q)[i])
    {
      if i > 0 {
        assert ([it] + q)[i] == q[i - 1];
      }
    }
  }

  /** The previous children `getKeyedChildren(prev)` indexes are nodes of the heap,
      other than the element itself. */
  ghost predicate KeyedOk(keyed: map<string, NodeId>, nodes: map<NodeId, Node>, el: NodeId)
  {
    forall k | k in keyed :: keyed[k] in nodes && keyed[k] != el
  }

  function Head(s: seq<NodeId>): Option<NodeId>
  {
    if s == [] then None else Some(s[0])
  }

  /** A previous child that `diffKeyedChild` keeps: an element whose key is among the
      incoming keys. */
  predicate Kept(n: Node, incoming: set<string>)
  {
    n.ElementNode? && KeyAttribute in n.attributes && n.attributes[KeyAttribute] in incoming
  }

  /** The next sibling of a child stays a child once that child is removed. */
  lemma NextSiblingSurvives(nodes: map<NodeId, Node>, nextId: NodeId, el: NodeId, c: NodeId)
    requires HeapOk(nodes, nextId) && el in nodes && nodes[el].ElementNode?
    requires c in nodes[el].childNodes
    ensures var n := NextSibling(nodes, el, Some(c));
            n.Some? ==> n.value in Removed(nodes, el, c)[el].childNodes
  {
    var cs := nodes[el].childNodes;
    var i := IndexOf(cs, c);
    if i + 1 < |cs| {
      assert NoDuplicates(cs);
      assert cs[i] != cs[i + 1];
    }
  }

  /** The stale-removal loop at the head of `diffKeyedChild`: from the cursor on, remove
      previous children that are not kept; reading the key of a text node throws. */
  function DropStale(el: NodeId, incoming: set<string>, s: ChildPass): (r: ChildPass)
    requires Ok(el, s)
    ensures Ok(el, r) && Grew(s.nodes, r.nodes)
    ensures r.nextId == s.nextId && r.listeners == s.listeners && r.warnings == s.warnings
    ensures r.seen == s.seen && r.queue == s.queue && (s.fault ==> r.fault)
    ensures !r.fault ==> r.cursor.None? || Kept(r.nodes[r.cursor.value], incoming)
    decreases |s.nodes[el].childNodes|
  {
    if s.cursor.None? then s
    else
      var c := s.cursor.value;
      if s.nodes[c].TextNode? then s.(fault := true)
      else if Kept(s.nodes[c], incoming) then s
      else
        var next := NextSibling(s.nodes, el, s.cursor);
        var nodes := Removed(s.nodes, el, c);
        RemovedKeepsHeap(s.nodes, s.nextId, el, c);
        NextSiblingSurvives(s.nodes, s.nextId, el, c);
        QueueOkGrew(s.nodes, nodes, s.queue);
        var r := DropStale(el, incoming, s.(nodes := nodes, cursor := next,
                                            writes := s.writes + multiset{ChildRemoved(el, c)}));
        GrewTransitive(s.nodes, nodes, r.nodes);
        r
  }

  /** Pair `v` with the node at the cursor and advance the cursor (`stack.unshift`,
      then `prevChild?.nextSibling`). */
  function Positional(el: NodeId, s: ChildPass, v: VNode): (r: ChildPass)
    requires Ok(el, s)
    ensures Ok(el, r) && r.nodes == s.nodes
    ensures r.queue == [WorkItem(s.cursor, v, el)] + s.queue
    ensures r.cursor == NextSibling(s.nodes, el, s.cursor)
    ensures r == s.(queue := r.queue, cursor := r.cursor)
  {
    s.(queue := [WorkItem(s.cursor, v, el)] + s.queue, cursor := NextSibling(s.nodes, el, s.cursor))
  }

  const DuplicateKeyWarning: string := "Duplicate key found in Lustre vnode: "

  /** A key with no previous node, the cursor on a node: an empty text node is put
      before the cursor and `v` is reconciled against it. */
  function Placeholder(el: NodeId, s: ChildPass, v: VNode): (r: ChildPass)
    requires Ok(el, s) && s.cursor.Some?
    ensures Ok(el, r) && Grew(s.nodes, r.nodes) && r.nextId == s.nextId + 1
    ensures r.nodes == Inserted(s.nodes[s.nextId := TextNode("")], el, s.nextId, s.cursor)
    ensures r.queue == [WorkItem(Some(s.nextId), v, el)] + s.queue
    ensures r.writes == s.writes + multiset{NodeCreated(s.nextId)}
                                 + multiset{ChildInserted(el, s.nextId, s.cursor)}
    ensures r == s.(nodes := r.nodes, nextId := r.nextId, listeners := s.listeners[s.nextId := {}],
                    writes := r.writes, queue := r.queue)
  {
    var ph := s.nextId;
    FreshId(el, s);
    var created := s.nodes[ph := TextNode("")];
    CreatedKeepsHeap(s.nodes, s.nextId, TextNode(""));
    InsertedKeepsHeap(created, ph + 1, el, ph, s.cursor);
    var nodes := Inserted(created, el, ph, s.cursor);
    InsertedKeepsRef(created, el, ph, s.cursor);
    InsertedKeys(created, el, ph, s.cursor);
    GrewTransitive(s.nodes, created, nodes);
    QueueOkGrew(s.nodes, nodes, s.queue);
    QueueOkCons(nodes, WorkItem(Some(ph), v, el), s.queue);
    s.(nodes := nodes, nextId := ph + 1, listeners := s.listeners[ph := {}],
       writes := s.writes + multiset{NodeCreated(ph)} + multiset{ChildInserted(el, ph, s.cursor)},
       queue := [WorkItem(Some(ph), v, el)] + s.queue)
  }

  /** A key whose previous node `k` is not at the cursor: `k` is moved before the
      cursor and `v` is reconciled against it. */
  function Move(el: NodeId, s: ChildPass, k: NodeId, v: VNode): (r: ChildPass)
    requires Ok(el, s) && k in s.nodes && k != el && s.cursor != Some(k)
    ensures Ok(el, r) && Grew(s.nodes, r.nodes)
    ensures r.nodes == Inserted(s.nodes, el, k, s.cursor)
    ensures r.queue == [WorkItem(Some(k), v, el)] + s.queue
    ensures r.writes == s.writes + multiset{ChildInserted(el, k, s.cursor)}
    ensures r == s.(nodes := r.nodes, writes := r.writes, queue := r.queue)
  {
    InsertedKeepsHeap(s.nodes, s.nextId, el, k, s.cursor);
    var nodes := Inserted(s.nodes, el, k, s.cursor);
    QueueOkGrew(s.nodes, nodes, s.queue);
    s.(nodes := nodes, writes := s.writes + multiset{ChildInserted(el, k, s.cursor)},
       queue := [WorkItem(Some(k), v, el)] + s.queue)
  }

  /** `diffKeyedChild` for a keyed element `v`. */
  function KeyedStep(el: NodeId, incoming: set<string>, keyed: map<string, NodeId>,
                     s: ChildPass, v: VNode): (r: ChildPass)
    requires Ok(el, s) && KeyedOk(keyed, s.nodes, el) && v.Element?
    ensures Ok(el, r) && Grew(s.nodes, r.nodes) && r.nextId >= s.nextId
    ensures ListenersKept(s.listeners, r.listeners)
    ensures s.fault ==> r.fault
    ensures !r.fault ==> |r.queue| == |s.queue| + 1 && r.queue[1..] == s.queue && r.queue[0].next == v
    ensures r.fault ==> r.queue == s.queue
  {
    var d := DropStale(el, incoming, s);
    if d.fault then d
    else if |keyed| == 0 then Positional(el, d, v)
    else if v.key in d.seen then
      d.(warnings := d.warnings + [DuplicateKeyWarning + v.key],
         queue := [WorkItem(None, v, el)] + d.queue)
    else
      var d := d.(seen := d.seen + {v.key});
      if v.key !in keyed && d.cursor.None? then
        d.(queue := [WorkItem(None, v, el)] + d.queue)
      else if v.key !in keyed then
        var r := Placeholder(el, d, v);
        GrewTransitive(s.nodes, d.nodes, r.nodes);
        assert d.nextId !in d.listeners;
        ListenersKeptAdd(d.listeners, d.nextId);
        r
      else if d.cursor == Some(keyed[v.key]) then
        Positional(el, d, v)
      else
        var r := Move(el, d, keyed[v.key], v);
        GrewTransitive(s.nodes, d.nodes, r.nodes);
        r
  }

  /** One incoming vnode: once a `TypeError` was thrown nothing more happens; in keyed
      mode an element (a vnode with a `key`) goes through `diffKeyedChild`; anything
      else is paired by position. */
  function ChildStep(el: NodeId, keyedMode: bool, incoming: set<string>, keyed: map<string, NodeId>,
                     s: ChildPass, v: VNode): (r: ChildPass)
    requires Ok(el, s) && KeyedOk(keyed, s.nodes, el)
    ensures Ok(el, r) && Grew(s.nodes, r.nodes) && r.nextId >= s.nextId
    ensures ListenersKept(s.listeners, r.listeners)
    ensures KeyedOk(keyed, r.nodes, el)
    ensures s.fault ==> r == s
    ensures !r.fault ==> |r.queue| == |s.queue| + 1 && r.queue[1..] == s.queue && r.queue[0].next == v
    ensures r.fault ==> r.queue == s.queue
  {
    if s.fault then s
    else if keyedMode && v.Element? then KeyedStep(el, incoming, keyed, s, v)
    else Positional(el, s, v)
  }

  /** The incoming children as the child loop sees them: each fragment replaced by its
      elements (`iterateElement`). */
  function Flatten(children: seq<VNode>): seq<VNode>
  {
    if children == [] then []
    else Flatten(children[..|children| - 1]) + Expand(children[|children| - 1])
  }

  lemma {:induction false} FlattenSize(children: seq<VNode>)
    ensures SizeOfAll(Flatten(children)) <= SizeOfAll(children)
  {
    if children != [] {
      var init := children[..|children| - 1];
      var last := children[|children| - 1];
      FlattenSize(init);
      SizeOfAllAppend(Flatten(init), Expand(last));
      assert children == init + [last];
      SizeOfAllAppend(init, [last]);
      assert SizeOfAll([last]) == Size(last) by {
        assert [last][1..] == [];
      }
    }
  }

  /** The child loop over the flattened incoming vnodes, in order. */
  function Loop(el: NodeId, keyedMode: bool, incoming: set<string>, keyed: map<string, NodeId>,
                s: ChildPass, vs: seq<VNode>): (r: ChildPass)
    requires Ok(el, s) && KeyedOk(keyed, s.nodes, el)
    ensures Ok(el, r) && Grew(s.nodes, r.nodes) && r.nextId >= s.nextId
    ensures ListenersKept(s.listeners, r.listeners)
    ensures KeyedOk(keyed, r.nodes, el)
    ensures s.fault ==> r == s
    ensures QueueSize(r.queue) <= QueueSize(s.queue) + SizeOfAll(vs)
  {
    if vs == [] then s
    else
      var init := vs[..|vs| - 1];
      var last := vs[|vs| - 1];
      var p := Loop(el, keyedMode, incoming, keyed, s, init);
      var r := ChildStep(el, keyedMode, incoming, keyed, p, last);
      GrewTransitive(s.nodes, p.nodes, r.nodes);
      ListenersKeptTransitive(s.listeners, p.listeners, r.listeners);
      QueueSizeStep(p.queue, r.queue, last);
      SnocParts(vs);
      SizeOfAllAppend(init, [last]);
      r
  }

  /** A non-empty sequence is its front and its last element. */
  lemma SnocParts<T>(vs: seq<T>)
    requires vs != []
    ensures vs == vs[..|vs| - 1] + [vs[|vs| - 1]] && [vs[|vs| - 1]][1..] == []
  {
  }

  /** The front of `a + b` for a non-empty `b` is `a` and the front of `b`. */
  lemma FrontOfConcat<T>(a: seq<T>, b: seq<T>)
    requires b != []
    ensures (a + b)[..|a + b| - 1] == a + b[..|b| - 1] && (a + b)[|a + b| - 1] == b[|b| - 1]
  {
    assert (a + b)[..|a + b| - 1] == a + b[..|b| - 1];
  }

  /** One unfolding of the loop: the last child's step after the loop over the rest. */
  lemma LoopLast(el: NodeId, keyedMode: bool, incoming: set<string>, keyed: map<string, NodeId>,
                 s: ChildPass, vs: seq<VNode>)
    requires Ok(el, s) && KeyedOk(keyed, s.nodes, el) && vs != []
    ensures Loop(el, keyedMode, incoming, keyed, s, vs)
            == ChildStep(el, keyedMode, incoming, keyed, Loop(el, keyedMode, incoming, keyed, s, vs[..|vs| - 1]), vs[|vs| - 1])
  {
  }

  lemma QueueSizeStep(before: seq<WorkItem>, after: seq<WorkItem>, v: VNode)
    requires after == before || (|after| == |before| + 1 && after[1..] == before && after[0].next == v)
    ensures QueueSize(after) <= QueueSize(before) + Size(v)
  {
  }

  /** The closing loop of `createElementNode`: every node from the cursor on is removed. */
  function Truncate(el: NodeId, s: ChildPass): (r: ChildPass)
    requires Ok(el, s)
    ensures Ok(el, r) && Grew(s.nodes, r.nodes) && r.cursor.None?
    ensures r == s.(nodes := r.nodes, writes := r.writes, cursor := None)
    decreases |s.nodes[el].childNodes|
  {
    if s.cursor.None? then s
    else
      var c := s.cursor.value;
      var next := NextSibling(s.nodes, el, s.cursor);
      var nodes := Removed(s.nodes, el, c);
      RemovedKeepsHeap(s.nodes, s.nextId, el, c);
      NextSiblingSurvives(s.nodes, s.nextId, el, c);
      QueueOkGrew(s.nodes, nodes, s.queue);
      var r := Truncate(el, s.(nodes := nodes, cursor := next,
                               writes := s.writes + multiset{ChildRemoved(el, c)}));
      GrewTransitive(s.nodes, nodes, r.nodes);
      r
  }

  /** The whole child phase: the loop, then (unless it threw) the removal of the rest. */
  function Phase(el: NodeId, keyedMode: bool, incoming: set<string>, keyed: map<string, NodeId>,
                 s: ChildPass, children: seq<VNode>): (r: ChildPass)
    requires Ok(el, s) && KeyedOk(keyed, s.nodes, el)
    ensures Ok(el, r) && Grew(s.nodes, r.nodes) && r.nextId >= s.nextId
    ensures ListenersKept(s.listeners, r.listeners)
    ensures QueueSize(r.queue) < QueueSize(s.queue) + 1 + SizeOfAll(children)
  {
    FlattenSize(children);
    var r := Loop(el, keyedMode, incoming, keyed, s, Flatten(children));
    if r.fault then r
    else
      var t := Truncate(el, r);
      GrewTransitive(s.nodes, r.nodes, t.nodes);
      t
  }

  /** Keyed matching is used on a morph whose first incoming child has a non-empty key. */
  predicate KeyedMode(canMorph: bool, children: seq<VNode>)
  {
    canMorph && |children| > 0 && children[0].Element? && children[0].key != ""
  }

  /** The key a node carries on the page, if it is an element with a non-empty one. */
  function KeyOf(n: Node): Option<string>
  {
    if n.ElementNode? && KeyAttribute in n.attributes && n.attributes[KeyAttribute] != ""
    then Some(n.attributes[KeyAttribute]) else None
  }

  /** `getKeyedChildren(prev)`: the previous children by key; a later child wins. */
  function KeyedChildren(nodes: map<NodeId, Node>, cs: seq<NodeId>): (m: map<string, NodeId>)
    requires forall c | c in cs :: c in nodes
    ensures forall k | k in m :: m[k] in cs && KeyOf(nodes[m[k]]) == Some(k)
  {
    if cs == [] then map[]
    else
      var m := KeyedChildren(nodes, cs[..|cs| - 1]);
      var c := cs[|cs| - 1];
      match KeyOf(nodes[c])
      case None => m
      case Some(k) => m[k := c]
  }

  /** `getKeyedChildren(next)`, of which only the keys are used: the non-empty keys of
      the incoming elements. */
  function IncomingKeys(vs: seq<VNode>): (keys: set<string>)
    ensures "" !in keys
  {
    if vs == [] then {}
    else
      var keys := IncomingKeys(vs[..|vs| - 1]);
      var v := vs[|vs| - 1];
      if v.Element? && v.key != "" then keys + {v.key} else keys
  }

  /** Every previous child with a key is indexed under it: `getKeyedChildren` misses none. */
  lemma {:induction false} KeyedChildrenComplete(nodes: map<NodeId, Node>, cs: seq<NodeId>)
    requires forall c | c in cs :: c in nodes
    ensures forall c | c in cs && KeyOf(nodes[c]).Some? :: KeyOf(nodes[c]).value in KeyedChildren(nodes, cs)
  {
    if cs != [] {
      var init := cs[..|cs| - 1];
      assert cs == init + [cs[|cs| - 1]];
      KeyedChildrenComplete(nodes, init);
    }
  }

  /** `keyedChildren.set` overwrites: a key is indexed to the last previous child that
      carries it. */
  lemma {:induction false} KeyedChildrenLast(nodes: map<NodeId, Node>, cs: seq<NodeId>, j: nat)
    requires forall c | c in cs :: c in nodes
    requires j < |cs| && KeyOf(nodes[cs[j]]).Some?
    requires forall i | j < i < |cs| :: KeyOf(nodes[cs[i]]) != KeyOf(nodes[cs[j]])
    ensures var m := KeyedChildren(nodes, cs);
            KeyOf(nodes[cs[j]]).value in m && m[KeyOf(nodes[cs[j]]).value] == cs[j]
  {
    if j < |cs| - 1 {
      var init := cs[..|cs| - 1];
      assert init[j] == cs[j];
      forall i | j < i < |init|
        ensures KeyOf(nodes[init[i]]) != KeyOf(nodes[init[j]])
      {
        assert init[i] == cs[i];
      }
      KeyedChildrenLast(nodes, init, j);
      assert KeyOf(nodes[cs[|cs| - 1]]) != KeyOf(nodes[cs[j]]);
    }
  }

  /** The incoming keys are exactly the non-empty keys of the incoming elements. */
  lemma {:induction false} IncomingKeysAre(vs: seq<VNode>)
    ensures IncomingKeys(vs) == set v | v in vs && v.Element? && v.key != "" :: v.key
  {
    if vs != [] {
      var init := vs[..|vs| - 1];
      IncomingKeysAre(init);
      assert vs == init + [vs[|vs| - 1]];
    }
  }

  // ---------------------------------------------------------------------------------
  // What the phase guarantees

  /** One `removeChild` of `el` per node of `cs`. */
  function Removals(el: NodeId, cs: seq<NodeId>): (m: multiset<Mutation>)
    ensures |m| == |cs|
  {
    if cs == [] then multiset{} else multiset{ChildRemoved(el, cs[0])} + Removals(el, cs[1..])
  }

  /** With the children of `el` split as `before + after` and the cursor on the first of
      `after`, `nextSibling` is the second of `after`. */
  lemma NextOfTail(nodes: map<NodeId, Node>, el: NodeId, before: seq<NodeId>, after: seq<NodeId>)
    requires el in nodes && nodes[el].ElementNode? && nodes[el].childNodes == before + after
    requires NoDuplicates(before + after) && after != []
    ensures NextSibling(nodes, el, Some(after[0])) == Head(after[1..])
  {
    var cs := before + after;
    assert cs[|before|] == after[0];
    IndexOfUnique(cs, |before|);
    if |after| > 1 {
      assert cs[|before| + 1] == after[1];
    }
  }

  /** Removing the first of `after` from `before + after`. */
  lemma RemoveFirstOfTail(nodes: map<NodeId, Node>, nextId: NodeId, el: NodeId, before: seq<NodeId>, after: seq<NodeId>)
    requires HeapOk(nodes, nextId) && el in nodes && nodes[el].ElementNode?
    requires nodes[el].childNodes == before + after && after != []
    ensures Removed(nodes, el, after[0])[el].childNodes == before + after[1..]
    ensures NextSibling(nodes, el, Some(after[0])) == Head(after[1..])
  {
    assert NoDuplicates(before + after);
    NoDuplicatesSplit(before, after);
    RemoveConcat(before, after, after[0]);
    RemoveHead(after);
    NextOfTail(nodes, el, before, after);
  }

  /** The state after the node at the cursor is removed and the cursor moved to its
      next sibling, as both removal loops do. */
  function RemoveAtCursor(el: NodeId, s: ChildPass, before: seq<NodeId>, after: seq<NodeId>): ChildPass
    requires el in s.nodes && s.nodes[el].ElementNode? && after != []
  {
    s.(nodes := Removed(s.nodes, el, after[0]), cursor := Head(after[1..]),
       writes := s.writes + multiset{ChildRemoved(el, after[0])})
  }

  lemma RemoveAtCursorOk(el: NodeId, s: ChildPass, before: seq<NodeId>, after: seq<NodeId>)
    requires Ok(el, s) && s.nodes[el].childNodes == before + after && s.cursor == Head(after)
    requires after != []
    ensures var s' := RemoveAtCursor(el, s, before, after);
            && Ok(el, s') && s'.nodes[el].childNodes == before + after[1..]
            && NextSibling(s.nodes, el, s.cursor) == s'.cursor
  {
    RemoveFirstOfTail(s.nodes, s.nextId, el, before, after);
    RemovedKeepsHeap(s.nodes, s.nextId, el, after[0]);
    QueueOkGrew(s.nodes, Removed(s.nodes, el, after[0]), s.queue);
  }

  lemma WithChildrenTwice(nodes: map<NodeId, Node>, el: NodeId, a: seq<NodeId>, b: seq<NodeId>)
    requires el in nodes && nodes[el].ElementNode?
    ensures var once := nodes[el := nodes[el].(childNodes := a)];
            once[el := once[el].(childNodes := b)] == nodes[el := nodes[el].(childNodes := b)]
  {
    var once := nodes[el := nodes[el].(childNodes := a)];
    assert once[el].(childNodes := b) == nodes[el].(childNodes := b);
  }

  /** The closing loop removes exactly the children from the cursor on, each with one
      `removeChild`, and leaves the rest of the page alone. */
  lemma {:induction false} TruncateRemovesTail(el: NodeId, s: ChildPass, before: seq<NodeId>, after: seq<NodeId>)
    requires Ok(el, s) && s.nodes[el].childNodes == before + after && s.cursor == Head(after)
    ensures var r := Truncate(el, s);
            && r.nodes == s.nodes[el := s.nodes[el].(childNodes := before)]
            && r.writes == s.writes + Removals(el, after)
    decreases |after|
  {
    if after == [] {
      assert before + after == before;
    } else {
      var s' := RemoveAtCursor(el, s, before, after);
      RemoveAtCursorOk(el, s, before, after);
      TruncateStep(el, s, before, after);
      TruncateRemovesTail(el, s', before, after[1..]);
      WithChildrenTwice(s.nodes, el, Remove(s.nodes[el].childNodes, after[0]), before);
      RemovalsCons(s.writes, el, after);
    }
  }

  /** Truncating removes the cursor's child first. */
  lemma TruncateStep(el: NodeId, s: ChildPass, before: seq<NodeId>, after: seq<NodeId>)
    requires Ok(el, s) && s.nodes[el].childNodes == before + after && s.cursor == Head(after) && after != []
    ensures RemoveAtCursor(el, s, before, after).nodes == Removed(s.nodes, el, after[0])
    ensures Ok(el, RemoveAtCursor(el, s, before, after))
    ensures Truncate(el, s) == Truncate(el, RemoveAtCursor(el, s, before, after))
  {
    RemoveAtCursorOk(el, s, before, after);
  }

  /** The removals of a run are its first child's removal and those of the rest. */
  lemma RemovalsCons(writes: multiset<Mutation>, el: NodeId, cs: seq<NodeId>)
    requires cs != []
    ensures writes + multiset{ChildRemoved(el, cs[0])} + Removals(el, cs[1..]) == writes + Removals(el, cs)
  {
  }

  /** How many children from the start of `cs` the stale-removal loop takes away: the
      leading elements that are not kept. It stops at a kept element or a text node. */
  function StaleRun(nodes: map<NodeId, Node>, cs: seq<NodeId>, incoming: set<string>): (n: nat)
    requires forall c | c in cs :: c in nodes
    ensures n <= |cs|
  {
    if cs == [] || nodes[cs[0]].TextNode? || Kept(nodes[cs[0]], incoming) then 0
    else 1 + StaleRun(nodes, cs[1..], incoming)
  }

  lemma {:induction false} StaleRunFrame(a: map<NodeId, Node>, b: map<NodeId, Node>, cs: seq<NodeId>, incoming: set<string>)
    requires forall c | c in cs :: c in a && c in b && a[c] == b[c]
    ensures StaleRun(a, cs, incoming) == StaleRun(b, cs, incoming)
  {
    if cs != [] {
      StaleRunFrame(a, b, cs[1..], incoming);
    }
  }

  /** The stale-removal loop removes exactly the leading run of children, from the
      cursor on, whose key is not coming back; it throws if that run ends at a text node,
      and otherwise leaves the cursor on the first child kept (or on none). */
  lemma DropStaleStops(el: NodeId, incoming: set<string>, s: ChildPass, before: seq<NodeId>, after: seq<NodeId>)
    requires Ok(el, s) && !s.fault && s.nodes[el].childNodes == before + after && s.cursor == Head(after)
    requires after == [] || s.nodes[after[0]].TextNode? || Kept(s.nodes[after[0]], incoming)
    ensures var r := DropStale(el, incoming, s);
            && r.nodes == s.nodes[el := s.nodes[el].(childNodes := before + after)]
            && r.writes == s.writes + Removals(el, [])
            && (r.fault <==> after != [] && s.nodes[after[0]].TextNode?)
            && (!r.fault ==> r.cursor == Head(after))
  {
    assert s.nodes[el].(childNodes := before + after) == s.nodes[el];
  }

  lemma DropStaleStep(el: NodeId, incoming: set<string>, s: ChildPass, before: seq<NodeId>, after: seq<NodeId>)
    requires Ok(el, s) && !s.fault && s.nodes[el].childNodes == before + after && s.cursor == Head(after)
    requires after != [] && s.nodes[after[0]].ElementNode? && !Kept(s.nodes[after[0]], incoming)
    ensures var s' := RemoveAtCursor(el, s, before, after);
            && Ok(el, s') && !s'.fault && s'.nodes[el].childNodes == before + after[1..]
            && s'.cursor == Head(after[1..])
            && DropStale(el, incoming, s) == DropStale(el, incoming, s')
            && StaleRun(s.nodes, after, incoming) == 1 + StaleRun(s'.nodes, after[1..], incoming)
            && forall x | x in after[1..] :: s'.nodes[x] == s.nodes[x]
  {
    var s' := RemoveAtCursor(el, s, before, after);
    RemoveAtCursorOk(el, s, before, after);
    assert forall x | x in after[1..] :: x != el;
    StaleRunFrame(s.nodes, s'.nodes, after[1..], incoming);
  }

  lemma ShiftedRun(el: NodeId, cs: seq<NodeId>, n: nat)
    requires 1 <= n <= |cs|
    ensures cs[1..][n - 1..] == cs[n..]
    ensures Removals(el, cs[..n]) == multiset{ChildRemoved(el, cs[0])} + Removals(el, cs[1..][..n - 1])
  {
    assert cs[..n][1..] == cs[1..][..n - 1];
  }

  /** What dropping the stale run at the cursor does: the run's elements leave the child
      list, one `removeChild` each, and the pass faults exactly when the run ends at a
      text node. */
  ghost predicate RemovesRun(el: NodeId, incoming: set<string>, s: ChildPass, before: seq<NodeId>, after: seq<NodeId>)
    requires Ok(el, s) && !s.fault && (forall c | c in after :: c in s.nodes)
  {
    var r := DropStale(el, incoming, s);
    var n := StaleRun(s.nodes, after, incoming);
    && r.nodes == s.nodes[el := s.nodes[el].(childNodes := before + after[n..])]
    && r.writes == s.writes + Removals(el, after[..n])
    && (r.fault <==> n < |after| && s.nodes[after[n]].TextNode?)
    && (!r.fault ==> r.cursor == Head(after[n..]))
  }

  lemma {:induction false} DropStaleRemovesRun(el: NodeId, incoming: set<string>, s: ChildPass,
                                               before: seq<NodeId>, after: seq<NodeId>)
    requires Ok(el, s) && !s.fault && s.nodes[el].childNodes == before + after && s.cursor == Head(after)
    ensures forall c | c in after :: c in s.nodes
    ensures RemovesRun(el, incoming, s, before, after)
    decreases |after|
  {
    ChildrenInHeap(el, s, before, after);
    if after == [] || s.nodes[after[0]].TextNode? || Kept(s.nodes[after[0]], incoming) {
      DropStaleStops(el, incoming, s, before, after);
      assert after[0..] == after && after[..0] == [];
    } else {
      DropStaleStep(el, incoming, s, before, after);
      DropStaleRemovesRun(el, incoming, RemoveAtCursor(el, s, before, after), before, after[1..]);
      RemovesRunStep(el, incoming, s, before, after);
    }
  }

  lemma ChildrenInHeap(el: NodeId, s: ChildPass, before: seq<NodeId>, after: seq<NodeId>)
    requires Ok(el, s) && s.nodes[el].childNodes == before + after
    ensures forall c | c in after :: c in s.nodes
  {
  }

  /** The cursor's child is stale and the rest of the run is dropped as stated. */
  ghost predicate StaleHead(el: NodeId, incoming: set<string>, s: ChildPass, before: seq<NodeId>, after: seq<NodeId>)
  {
    && Ok(el, s) && !s.fault && s.nodes[el].childNodes == before + after && s.cursor == Head(after)
    && after != [] && s.nodes[after[0]].ElementNode? && !Kept(s.nodes[after[0]], incoming)
    && (forall c | c in after :: c in s.nodes)
    && var s' := RemoveAtCursor(el, s, before, after);
       && Ok(el, s') && !s'.fault && (forall c | c in after[1..] :: c in s'.nodes)
       && RemovesRun(el, incoming, s', before, after[1..])
  }

  /** Removing one stale element in front of the rest of the run. */
  lemma RemovesRunStep(el: NodeId, incoming: set<string>, s: ChildPass, before: seq<NodeId>, after: seq<NodeId>)
    requires StaleHead(el, incoming, s, before, after)
    ensures RemovesRun(el, incoming, s, before, after)
  {
    RunStepNodes(el, incoming, s, before, after);
    RunStepWrites(el, incoming, s, before, after);
    RunStepEnd(el, incoming, s, before, after);
  }

  lemma RunStepNodes(el: NodeId, incoming: set<string>, s: ChildPass, before: seq<NodeId>, after: seq<NodeId>)
    requires StaleHead(el, incoming, s, before, after)
    ensures var n := StaleRun(s.nodes, after, incoming);
            DropStale(el, incoming, s).nodes == s.nodes[el := s.nodes[el].(childNodes := before + after[n..])]
  {
    var s' := RemoveAtCursor(el, s, before, after);
    var n := StaleRun(s.nodes, after, incoming);
    DropStaleStep(el, incoming, s, before, after);
    ShiftedRun(el, after, n);
    WithChildrenTwice(s.nodes, el, Remove(s.nodes[el].childNodes, after[0]), before + after[n..]);
  }

  lemma RunStepWrites(el: NodeId, incoming: set<string>, s: ChildPass, before: seq<NodeId>, after: seq<NodeId>)
    requires StaleHead(el, incoming, s, before, after)
    ensures var n := StaleRun(s.nodes, after, incoming);
            DropStale(el, incoming, s).writes == s.writes + Removals(el, after[..n])
  {
    var n := StaleRun(s.nodes, after, incoming);
    DropStaleStep(el, incoming, s, before, after);
    ShiftedRun(el, after, n);
  }

  lemma RunStepEnd(el: NodeId, incoming: set<string>, s: ChildPass, before: seq<NodeId>, after: seq<NodeId>)
    requires StaleHead(el, incoming, s, before, after)
    ensures var r := DropStale(el, incoming, s);
            var n := StaleRun(s.nodes, after, incoming);
            && (r.fault <==> n < |after| && s.nodes[after[n]].TextNode?)
            && (!r.fault ==> r.cursor == Head(after[n..]))
  {
    var n := StaleRun(s.nodes, after, incoming);
    DropStaleStep(el, incoming, s, before, after);
    ShiftedRun(el, after, n);
    if n < |after| {
      assert after[n] == after[1..][n - 1];
      assert after[n] in after[1..];
    }
  }

  /** The previous child at position `i`, if there is one. */
  function At(cs: seq<NodeId>, i: nat): Option<NodeId>
  {
    if i < |cs| then Some(cs[i]) else None
  }

  /** The work items queued when `vs` are paired by position with the children `cs`
      from position `first` on; each is put in front (`unshift`), so the last is first. */
  function PositionalItems(el: NodeId, cs: seq<NodeId>, first: nat, vs: seq<VNode>): seq<WorkItem>
  {
    if vs == [] then []
    else [WorkItem(At(cs, first + |vs| - 1), vs[|vs| - 1], el)]
         + PositionalItems(el, cs, first, vs[..|vs| - 1])
  }

  /** Without keys, the last child is paired with the cursor. */
  lemma UnkeyedLast(el: NodeId, keyedMode: bool, incoming: set<string>, keyed: map<string, NodeId>,
                    s: ChildPass, vs: seq<VNode>)
    requires Ok(el, s) && KeyedOk(keyed, s.nodes, el) && !s.fault && !keyedMode && vs != []
    ensures var p := Loop(el, keyedMode, incoming, keyed, s, vs[..|vs| - 1]);
            Ok(el, p) && Loop(el, keyedMode, incoming, keyed, s, vs) == Positional(el, p, vs[|vs| - 1])
  {
    LoopLast(el, keyedMode, incoming, keyed, s, vs);
  }

  lemma PositionalItemsStep(el: NodeId, cs: seq<NodeId>, first: nat, vs: seq<VNode>, q: seq<WorkItem>)
    requires vs != []
    ensures PositionalItems(el, cs, first, vs) + q
            == [WorkItem(At(cs, first + |vs[..|vs| - 1]|), vs[|vs| - 1], el)]
               + (PositionalItems(el, cs, first, vs[..|vs| - 1]) + q)
  {
  }

  lemma NextAtLast<T>(nodes: map<NodeId, Node>, nextId: NodeId, el: NodeId, first: nat, vs: seq<T>)
    requires HeapOk(nodes, nextId) && el in nodes && nodes[el].ElementNode? && vs != []
    ensures NextSibling(nodes, el, At(nodes[el].childNodes, first + |vs[..|vs| - 1]|))
            == At(nodes[el].childNodes, first + |vs|)
  {
    NextAt(nodes, nextId, el, first + |vs| - 1);
  }

  lemma NextAt(nodes: map<NodeId, Node>, nextId: NodeId, el: NodeId, i: nat)
    requires HeapOk(nodes, nextId) && el in nodes && nodes[el].ElementNode?
    ensures NextSibling(nodes, el, At(nodes[el].childNodes, i)) == At(nodes[el].childNodes, i + 1)
  {
    var cs := nodes[el].childNodes;
    if i < |cs| {
      assert NoDuplicates(cs);
      IndexOfUnique(cs, i);
    }
  }

  /** The child loop with every vnode paired by position. */
  ghost function Unkeyed(el: NodeId, s: ChildPass, vs: seq<VNode>): (r: ChildPass)
    ensures r == s.(queue := r.queue, cursor := r.cursor)
    decreases |vs|
  {
    if vs == [] then s
    else
      var p := Unkeyed(el, s, vs[..|vs| - 1]);
      p.(queue := [WorkItem(p.cursor, vs[|vs| - 1], el)] + p.queue,
         cursor := NextSibling(p.nodes, el, p.cursor))
  }

  /** Without keys, the child loop pairs every vnode by position. */
  lemma {:induction false} UnkeyedIsPositional(el: NodeId, keyedMode: bool, incoming: set<string>,
                                               keyed: map<string, NodeId>, s: ChildPass, vs: seq<VNode>)
    requires Ok(el, s) && KeyedOk(keyed, s.nodes, el) && !s.fault && !keyedMode
    ensures Loop(el, keyedMode, incoming, keyed, s, vs) == Unkeyed(el, s, vs)
  {
    if vs != [] {
      UnkeyedIsPositional(el, keyedMode, incoming, keyed, s, vs[..|vs| - 1]);
      UnkeyedLast(el, keyedMode, incoming, keyed, s, vs);
    }
  }

  /** Paired by position, the cursor moves one previous child on per vnode. */
  lemma {:induction false} UnkeyedCursor(el: NodeId, s: ChildPass, first: nat, vs: seq<VNode>)
    requires HeapOk(s.nodes, s.nextId) && el in s.nodes && s.nodes[el].ElementNode?
    requires s.cursor == At(s.nodes[el].childNodes, first)
    ensures Unkeyed(el, s, vs).cursor == At(s.nodes[el].childNodes, first + |vs|)
  {
    if vs != [] {
      UnkeyedCursor(el, s, first, vs[..|vs| - 1]);
      NextAtLast(s.nodes, s.nextId, el, first, vs);
    }
  }

  /** Paired by position, each vnode is queued with the previous child at its position. */
  lemma {:induction false} UnkeyedQueue(el: NodeId, s: ChildPass, first: nat, vs: seq<VNode>)
    requires HeapOk(s.nodes, s.nextId) && el in s.nodes && s.nodes[el].ElementNode?
    requires s.cursor == At(s.nodes[el].childNodes, first)
    ensures Unkeyed(el, s, vs).queue == PositionalItems(el, s.nodes[el].childNodes, first, vs) + s.queue
  {
    if vs != [] {
      var init := vs[..|vs| - 1];
      var p := Unkeyed(el, s, init);
      UnkeyedQueue(el, s, first, init);
      UnkeyedCursor(el, s, first, init);
      var item := WorkItem(p.cursor, vs[|vs| - 1], el);
      assert Unkeyed(el, s, vs).queue == [item] + p.queue;
      PositionalItemsStep(el, s.nodes[el].childNodes, first, vs, s.queue);
      assert item == WorkItem(At(s.nodes[el].childNodes, first + |init|), vs[|vs| - 1], el);
    }
  }

  /** Without keys, the `k`-th incoming vnode is paired with the previous child at the
      `k`-th position after the cursor, or with none once they run out; the page is not
      touched. */
  lemma UnkeyedPairsByPosition(el: NodeId, keyedMode: bool, incoming: set<string>,
                               keyed: map<string, NodeId>, s: ChildPass,
                               first: nat, vs: seq<VNode>)
    requires Ok(el, s) && KeyedOk(keyed, s.nodes, el) && !s.fault && !keyedMode
    requires s.cursor == At(s.nodes[el].childNodes, first)
    ensures Loop(el, keyedMode, incoming, keyed, s, vs)
            == s.(queue := PositionalItems(el, s.nodes[el].childNodes, first, vs) + s.queue,
                  cursor := At(s.nodes[el].childNodes, first + |vs|))
  {
    UnkeyedIsPositional(el, keyedMode, incoming, keyed, s, vs);
    UnkeyedCursor(el, s, first, vs);
    UnkeyedQueue(el, s, first, vs);
  }

  /** The unkeyed child phase as a whole: incoming vnode `k` (fragments flattened) is
      paired with previous child `k`, and the previous children past the incoming ones
      are removed, one `removeChild` each and nothing else written: five previous
      children against two incoming lose exactly three. */
  lemma UnkeyedPhase(el: NodeId, incoming: set<string>, keyed: map<string, NodeId>, s: ChildPass,
                     children: seq<VNode>)
    requires Ok(el, s) && KeyedOk(keyed, s.nodes, el) && !s.fault
    requires s.cursor == Head(s.nodes[el].childNodes)
    ensures var cs := s.nodes[el].childNodes;
            var flat := Flatten(children);
            var kept := if |flat| < |cs| then |flat| else |cs|;
            var r := Phase(el, false, incoming, keyed, s, children);
            && !r.fault && r.queue == PositionalItems(el, cs, 0, flat) + s.queue
            && r.nodes == s.nodes[el := s.nodes[el].(childNodes := cs[..kept])]
            && r.writes == s.writes + Removals(el, cs[kept..])
            && |r.writes| == |s.writes| + (|cs| - kept)
            && r.nextId == s.nextId && r.warnings == s.warnings && r.listeners == s.listeners
  {
    var cs := s.nodes[el].childNodes;
    var flat := Flatten(children);
    var kept := if |flat| < |cs| then |flat| else |cs|;
    assert s.cursor == At(cs, 0);
    UnkeyedPairsByPosition(el, false, incoming, keyed, s, 0, flat);
    var l := s.(queue := PositionalItems(el, cs, 0, flat) + s.queue, cursor := At(cs, |flat|));
    PhaseThroughTruncate(el, false, incoming, keyed, s, children);
    UnkeyedTruncate(el, s, flat);
  }

  /** A loop that did not fault is followed by the closing truncation. */
  lemma PhaseThroughTruncate(el: NodeId, keyedMode: bool, incoming: set<string>, keyed: map<string, NodeId>,
                             s: ChildPass, children: seq<VNode>)
    requires Ok(el, s) && KeyedOk(keyed, s.nodes, el)
    requires !Loop(el, keyedMode, incoming, keyed, s, Flatten(children)).fault
    ensures var loop := Loop(el, keyedMode, incoming, keyed, s, Flatten(children));
            Ok(el, loop) && Phase(el, keyedMode, incoming, keyed, s, children) == Truncate(el, loop)
  {
  }

  /** The closing loop after the unkeyed pairing removes the previous children past the
      incoming ones. */
  lemma UnkeyedTruncate(el: NodeId, s: ChildPass, flat: seq<VNode>)
    requires Ok(el, s)
    requires Ok(el, s.(queue := PositionalItems(el, s.nodes[el].childNodes, 0, flat) + s.queue,
                       cursor := At(s.nodes[el].childNodes, |flat|)))
    ensures var cs := s.nodes[el].childNodes;
            var kept := if |flat| < |cs| then |flat| else |cs|;
            var l := s.(queue := PositionalItems(el, cs, 0, flat) + s.queue, cursor := At(cs, |flat|));
            var r := Truncate(el, l);
            && r.queue == PositionalItems(el, cs, 0, flat) + s.queue
            && r.nodes == s.nodes[el := s.nodes[el].(childNodes := cs[..kept])]
            && r.writes == s.writes + Removals(el, cs[kept..])
            && |r.writes| == |s.writes| + (|cs| - kept)
            && r.nextId == s.nextId && r.warnings == s.warnings && r.listeners == s.listeners
  {
    var cs := s.nodes[el].childNodes;
    var kept := if |flat| < |cs| then |flat| else |cs|;
    AtIsHead(cs, |flat|, kept);
    TruncateFrom(el, s.(queue := PositionalItems(el, cs, 0, flat) + s.queue, cursor := At(cs, |flat|)), kept);
  }

  /** Position `n` of `cs`, clamped to its length, is the head of what follows it. */
  lemma AtIsHead(cs: seq<NodeId>, n: nat, kept: nat)
    requires kept == if n < |cs| then n else |cs|
    ensures At(cs, n) == Head(cs[kept..])
  {
  }

  /** The closing loop started at child `kept`. */
  lemma TruncateFrom(el: NodeId, l: ChildPass, kept: nat)
    requires Ok(el, l) && kept <= |l.nodes[el].childNodes|
    requires l.cursor == Head(l.nodes[el].childNodes[kept..])
    ensures var cs := l.nodes[el].childNodes;
            var t := Truncate(el, l);
            && t.queue == l.queue && t.nextId == l.nextId && t.warnings == l.warnings
            && t.listeners == l.listeners
            && t.nodes == l.nodes[el := l.nodes[el].(childNodes := cs[..kept])]
            && t.writes == l.writes + Removals(el, cs[kept..])
            && |t.writes| == |l.writes| + (|cs| - kept)
  {
    var cs := l.nodes[el].childNodes;
    assert cs == cs[..kept] + cs[kept..];
    TruncateRemovesTail(el, l, cs[..kept], cs[kept..]);
  }

  /** Every incoming vnode is an element whose key has a previous node, the keys are
      distinct, distinct keys index distinct previous nodes, and those are children of
      the element. */
  ghost predicate KeysMatch(keyed: map<string, NodeId>, cs: seq<NodeId>, vs: seq<VNode>)
  {
    && (forall i | 0 <= i < |vs| :: vs[i].Element? && vs[i].key in keyed)
    && (forall i, j | 0 <= i < j < |vs| :: vs[i].key != vs[j].key)
    && (forall k1, k2 | k1 in keyed && k2 in keyed && k1 != k2 :: keyed[k1] != keyed[k2])
    && (forall k | k in keyed :: keyed[k] in cs)
  }

  lemma KeysMatchPrefix(keyed: map<string, NodeId>, cs: seq<NodeId>, vs: seq<VNode>)
    requires KeysMatch(keyed, cs, vs) && vs != []
    ensures KeysMatch(keyed, cs, vs[..|vs| - 1])
  {
  }

  /** The previous node each incoming vnode is matched with, in incoming order. */
  function Matched(keyed: map<string, NodeId>, vs: seq<VNode>): (ms: seq<NodeId>)
    requires forall i | 0 <= i < |vs| :: vs[i].Element? && vs[i].key in keyed
    ensures |ms| == |vs|
  {
    if vs == [] then []
    else Matched(keyed, vs[..|vs| - 1]) + [keyed[vs[|vs| - 1].key]]
  }

  /** The previous children not matched yet, in their previous order. */
  function Unmatched(keyed: map<string, NodeId>, cs: seq<NodeId>, vs: seq<VNode>): seq<NodeId>
    requires forall i | 0 <= i < |vs| :: vs[i].Element? && vs[i].key in keyed
  {
    if vs == [] then cs
    else Remove(Unmatched(keyed, cs, vs[..|vs| - 1]), keyed[vs[|vs| - 1].key])
  }

  /** The keys of `vs`. */
  function KeySet(vs: seq<VNode>): set<string>
    requires forall i | 0 <= i < |vs| :: vs[i].Element?
  {
    if vs == [] then {} else KeySet(vs[..|vs| - 1]) + {vs[|vs| - 1].key}
  }

  /** The work items of a keyed pass: each vnode against its matched node. */
  function KeyedItems(el: NodeId, keyed: map<string, NodeId>, vs: seq<VNode>): seq<WorkItem>
    requires forall i | 0 <= i < |vs| :: vs[i].Element? && vs[i].key in keyed
  {
    if vs == [] then []
    else [WorkItem(Some(keyed[vs[|vs| - 1].key]), vs[|vs| - 1], el)] + KeyedItems(el, keyed, vs[..|vs| - 1])
  }

  lemma MatchedMembers(keyed: map<string, NodeId>, cs: seq<NodeId>, vs: seq<VNode>)
    requires KeysMatch(keyed, cs, vs)
    ensures forall y :: y in Matched(keyed, vs) <==> exists i | 0 <= i < |vs| :: y == keyed[vs[i].key]
    ensures forall y :: y in Unmatched(keyed, cs, vs) <==> y in cs && y !in Matched(keyed, vs)
    ensures forall k :: k in KeySet(vs) <==> exists i | 0 <= i < |vs| :: k == vs[i].key
  {
    MatchedHas(keyed, vs);
    UnmatchedHas(keyed, cs, vs);
    KeySetHas(vs);
  }

  lemma {:induction false} MatchedHas(keyed: map<string, NodeId>, vs: seq<VNode>)
    requires forall i | 0 <= i < |vs| :: vs[i].Element? && vs[i].key in keyed
    ensures forall y :: y in Matched(keyed, vs) <==> exists i | 0 <= i < |vs| :: y == keyed[vs[i].key]
  {
    if vs != [] {
      var init := vs[..|vs| - 1];
      MatchedHas(keyed, init);
      assert Matched(keyed, vs) == Matched(keyed, init) + [keyed[vs[|vs| - 1].key]];
      forall y
        ensures y in Matched(keyed, vs) <==> exists i | 0 <= i < |vs| :: y == keyed[vs[i].key]
      {
        if y in Matched(keyed, init) {
          var i :| 0 <= i < |init| && y == keyed[init[i].key];
          assert init[i] == vs[i];
        }
        if exists i | 0 <= i < |vs| :: y == keyed[vs[i].key] {
          var i :| 0 <= i < |vs| && y == keyed[vs[i].key];
          if i < |init| {
            assert init[i] == vs[i];
          }
        }
      }
    }
  }

  lemma {:induction false} UnmatchedHas(keyed: map<string, NodeId>, cs: seq<NodeId>, vs: seq<VNode>)
    requires forall i | 0 <= i < |vs| :: vs[i].Element? && vs[i].key in keyed
    ensures forall y :: y in Unmatched(keyed, cs, vs) <==> y in cs && y !in Matched(keyed, vs)
  {
    if vs != [] {
      var init := vs[..|vs| - 1];
      UnmatchedHas(keyed, cs, init);
      assert Matched(keyed, vs) == Matched(keyed, init) + [keyed[vs[|vs| - 1].key]];
    }
  }

  lemma {:induction false} KeySetHas(vs: seq<VNode>)
    requires forall i | 0 <= i < |vs| :: vs[i].Element?
    ensures forall k :: k in KeySet(vs) <==> exists i | 0 <= i < |vs| :: k == vs[i].key
  {
    if vs != [] {
      var init := vs[..|vs| - 1];
      KeySetHas(init);
      forall k
        ensures k in KeySet(vs) <==> exists i | 0 <= i < |vs| :: k == vs[i].key
      {
        if k in KeySet(init) {
          var i :| 0 <= i < |init| && k == init[i].key;
          assert init[i] == vs[i];
        }
        if exists i | 0 <= i < |vs| :: k == vs[i].key {
          var i :| 0 <= i < |vs| && k == vs[i].key;
          if i < |init| {
            assert init[i] == vs[i];
          }
        }
      }
    }
  }

  /** The next vnode's node has not been matched before. */
  lemma FreshMatch(keyed: map<string, NodeId>, cs: seq<NodeId>, vs: seq<VNode>)
    requires KeysMatch(keyed, cs, vs) && vs != []
    ensures var init := vs[..|vs| - 1];
            var k := keyed[vs[|vs| - 1].key];
            && k !in Matched(keyed, init) && k in Unmatched(keyed, cs, init)
            && vs[|vs| - 1].key !in KeySet(init)
  {
    var init := vs[..|vs| - 1];
    KeysMatchPrefix(keyed, cs, vs);
    MatchedMembers(keyed, cs, init);
    var last := vs[|vs| - 1];
    forall i | 0 <= i < |init|
      ensures keyed[last.key] != keyed[init[i].key] && last.key != init[i].key
    {
      assert init[i] == vs[i];
    }
  }

  /** What holds after the keyed loop has gone through `vs`: the element's children are
      the matched nodes followed by the unmatched previous children, the cursor is on
      the first unmatched one, and every previous child is still kept. */
  ghost predicate KeyedInv(el: NodeId, incoming: set<string>, keyed: map<string, NodeId>,
                           s: ChildPass, cs: seq<NodeId>, vs: seq<VNode>, p: ChildPass)
    requires forall i | 0 <= i < |vs| :: vs[i].Element? && vs[i].key in keyed
  {
    && Ok(el, p) && KeyedOk(keyed, p.nodes, el) && !p.fault
    && p.nodes[el].childNodes == Matched(keyed, vs) + Unmatched(keyed, cs, vs)
    && p.cursor == Head(Unmatched(keyed, cs, vs))
    && p.seen == KeySet(vs)
    && p.queue == KeyedItems(el, keyed, vs) + s.queue
    && p.nextId == s.nextId && p.warnings == s.warnings
    && forall c | c in cs :: c in p.nodes && Kept(p.nodes[c], incoming)
  }

  lemma DropStaleKeeps(el: NodeId, incoming: set<string>, s: ChildPass)
    requires Ok(el, s) && !s.fault
    requires s.cursor.Some? ==> Kept(s.nodes[s.cursor.value], incoming)
    ensures DropStale(el, incoming, s) == s
  {
  }

  /** The branch `diffKeyedChild` takes for a fresh key with a previous node, once the
      stale-removal loop stops at a kept node. */
  lemma KeyedFreshKey(el: NodeId, incoming: set<string>, keyed: map<string, NodeId>, p: ChildPass, v: VNode)
    requires Ok(el, p) && KeyedOk(keyed, p.nodes, el) && !p.fault && v.Element?
    requires v.key in keyed && v.key !in p.seen
    requires p.cursor.Some? ==> Kept(p.nodes[p.cursor.value], incoming)
    ensures var d := p.(seen := p.seen + {v.key});
            ChildStep(el, true, incoming, keyed, p, v)
            == if d.cursor == Some(keyed[v.key]) then Positional(el, d, v) else Move(el, d, keyed[v.key], v)
  {
    DropStaleKeeps(el, incoming, p);
    assert |keyed| != 0;
  }

  /** A key already seen in this pass: a warning is logged and `v` is queued with no
      previous node; the children and the cursor stay as they are. */
  lemma KeyedDuplicate(el: NodeId, incoming: set<string>, keyed: map<string, NodeId>, p: ChildPass, v: VNode)
    requires Ok(el, p) && KeyedOk(keyed, p.nodes, el) && !p.fault && v.Element?
    requires |keyed| != 0 && v.key in p.seen
    requires p.cursor.Some? ==> Kept(p.nodes[p.cursor.value], incoming)
    ensures ChildStep(el, true, incoming, keyed, p, v)
            == p.(warnings := p.warnings + [DuplicateKeyWarning + v.key],
                  queue := [WorkItem(None, v, el)] + p.queue)
  {
    DropStaleKeeps(el, incoming, p);
  }

  /** A key with no previous node once the children have run out: `v` is queued with no
      previous node and nothing on the page changes. */
  lemma KeyedNewAtEnd(el: NodeId, incoming: set<string>, keyed: map<string, NodeId>, p: ChildPass, v: VNode)
    requires Ok(el, p) && KeyedOk(keyed, p.nodes, el) && !p.fault && v.Element?
    requires |keyed| != 0 && v.key !in p.seen && v.key !in keyed && p.cursor.None?
    ensures ChildStep(el, true, incoming, keyed, p, v)
            == p.(seen := p.seen + {v.key}, queue := [WorkItem(None, v, el)] + p.queue)
  {
    DropStaleKeeps(el, incoming, p);
  }

  /** A key with no previous node while the cursor is on a node: an empty text node is
      inserted before the cursor and `v` is queued against it; the cursor stays. */
  lemma KeyedNewPlaceholder(el: NodeId, incoming: set<string>, keyed: map<string, NodeId>,
                            p: ChildPass, v: VNode, before: seq<NodeId>, after: seq<NodeId>)
    requires Ok(el, p) && KeyedOk(keyed, p.nodes, el) && !p.fault && v.Element?
    requires |keyed| != 0 && v.key !in p.seen && v.key !in keyed
    requires p.nodes[el].childNodes == before + after && after != [] && p.cursor == Some(after[0])
    requires Kept(p.nodes[after[0]], incoming)
    ensures var r := ChildStep(el, true, incoming, keyed, p, v);
            && r.nodes[el].childNodes == before + [p.nextId] + after
            && r.nodes[p.nextId] == TextNode("")
            && r.queue == [WorkItem(Some(p.nextId), v, el)] + p.queue
            && r.cursor == p.cursor && r.seen == p.seen + {v.key} && r.warnings == p.warnings
  {
    DropStaleKeeps(el, incoming, p);
    var d := p.(seen := p.seen + {v.key});
    assert ChildStep(el, true, incoming, keyed, p, v) == Placeholder(el, d, v);
    InsertedFreshText(d.nodes, d.nextId, el, before, after);
  }

  /** A keyed vnode whose node is at the cursor: paired with it, the cursor advances. */
  lemma KeyedAtCursor(el: NodeId, incoming: set<string>, keyed: map<string, NodeId>,
                      p: ChildPass, v: VNode, matched: seq<NodeId>, rest: seq<NodeId>)
    requires Ok(el, p) && KeyedOk(keyed, p.nodes, el) && !p.fault && v.Element?
    requires v.key in keyed && v.key !in p.seen
    requires p.nodes[el].childNodes == matched + rest && rest != [] && p.cursor == Some(rest[0])
    requires Kept(p.nodes[rest[0]], incoming) && keyed[v.key] == rest[0]
    ensures var r := ChildStep(el, true, incoming, keyed, p, v);
            && r == p.(seen := p.seen + {v.key}, cursor := Head(rest[1..]),
                       queue := [WorkItem(Some(rest[0]), v, el)] + p.queue)
            && r.nodes[el].childNodes == (matched + [rest[0]]) + Remove(rest, rest[0])
  {
    KeyedFreshKey(el, incoming, keyed, p, v);
    assert NoDuplicates(matched + rest);
    NextOfTail(p.nodes, el, matched, rest);
    AdvanceSplit(matched, rest);
  }

  lemma AdvanceSplit(matched: seq<NodeId>, rest: seq<NodeId>)
    requires NoDuplicates(matched + rest) && rest != []
    ensures matched + rest == (matched + [rest[0]]) + Remove(rest, rest[0])
  {
    NoDuplicatesSplit(matched, rest);
    RemoveHead(rest);
    assert matched + rest == (matched + [rest[0]]) + rest[1..];
  }

  /** Where `k` lands when moved before the first of `rest`. */
  lemma MovedBefore(nodes: map<NodeId, Node>, nextId: NodeId, el: NodeId, k: NodeId,
                    matched: seq<NodeId>, rest: seq<NodeId>)
    requires HeapOk(nodes, nextId) && el in nodes && nodes[el].ElementNode?
    requires nodes[el].childNodes == matched + rest && rest != []
    requires k != rest[0] && k in rest
    ensures Inserted(nodes, el, k, Some(rest[0]))[el].childNodes == (matched + [k]) + Remove(rest, k)
    ensures Head(Remove(rest, k)) == Some(rest[0])
  {
    assert NoDuplicates(matched + rest);
    NoDuplicatesSplit(matched, rest);
    InsertedChildren(nodes, el, k, Some(rest[0]));
    RemoveConcat(matched, rest, k);
    var rest' := Remove(rest, k);
    assert rest'[0] == rest[0];
    var cs := matched + rest';
    assert cs[|matched|] == rest[0];
    IndexOfUnique(cs, |matched|);
    assert cs[..|matched|] == matched && cs[|matched|..] == rest';
  }

  /** A keyed vnode whose node is elsewhere: that node is moved before the cursor,
      keeping its identity, and the cursor stays. */
  lemma KeyedElsewhere(el: NodeId, incoming: set<string>, keyed: map<string, NodeId>,
                       p: ChildPass, v: VNode, matched: seq<NodeId>, rest: seq<NodeId>)
    requires Ok(el, p) && KeyedOk(keyed, p.nodes, el) && !p.fault && v.Element?
    requires v.key in keyed && v.key !in p.seen
    requires p.nodes[el].childNodes == matched + rest && rest != [] && p.cursor == Some(rest[0])
    requires Kept(p.nodes[rest[0]], incoming)
    requires keyed[v.key] != rest[0] && keyed[v.key] in rest
    ensures var k := keyed[v.key];
            var r := ChildStep(el, true, incoming, keyed, p, v);
            && r == p.(nodes := Inserted(p.nodes, el, k, p.cursor), seen := p.seen + {v.key},
                       writes := p.writes + multiset{ChildInserted(el, k, p.cursor)},
                       queue := [WorkItem(Some(k), v, el)] + p.queue)
            && r.nodes[el].childNodes == (matched + [k]) + Remove(rest, k)
            && r.cursor == Head(Remove(rest, k))
            && forall c | c in p.nodes :: c in r.nodes && (Kept(p.nodes[c], incoming) ==> Kept(r.nodes[c], incoming))
  {
    var k := keyed[v.key];
    KeyedFreshKey(el, incoming, keyed, p, v);
    MovedBefore(p.nodes, p.nextId, el, k, matched, rest);
    InsertedKeepsRecords(p.nodes, el, k, p.cursor);
  }

  lemma KeyedItemsStep(el: NodeId, keyed: map<string, NodeId>, vs: seq<VNode>, q: seq<WorkItem>)
    requires forall i | 0 <= i < |vs| :: vs[i].Element? && vs[i].key in keyed
    requires vs != []
    ensures KeyedItems(el, keyed, vs) + q
            == [WorkItem(Some(keyed[vs[|vs| - 1].key]), vs[|vs| - 1], el)]
               + (KeyedItems(el, keyed, vs[..|vs| - 1]) + q)
  {
  }

  /** The facts both cases of a keyed step start from. */
  lemma KeyedStepSetup(el: NodeId, incoming: set<string>, keyed: map<string, NodeId>,
                       s: ChildPass, cs: seq<NodeId>, vs: seq<VNode>, p: ChildPass)
    requires KeysMatch(keyed, cs, vs) && vs != []
    requires KeyedInv(el, incoming, keyed, s, cs, vs[..|vs| - 1], p)
    ensures var init := vs[..|vs| - 1];
            var u := Unmatched(keyed, cs, init);
            && u != [] && u[0] in cs && keyed[vs[|vs| - 1].key] in u
            && vs[|vs| - 1].key !in p.seen && NoDuplicates(u)
            && Matched(keyed, vs) == Matched(keyed, init) + [keyed[vs[|vs| - 1].key]]
            && Unmatched(keyed, cs, vs) == Remove(u, keyed[vs[|vs| - 1].key])
            && KeySet(vs) == p.seen + {vs[|vs| - 1].key}
            && KeyedItems(el, keyed, vs) + s.queue
               == [WorkItem(Some(keyed[vs[|vs| - 1].key]), vs[|vs| - 1], el)] + p.queue
  {
    var init := vs[..|vs| - 1];
    KeysMatchPrefix(keyed, cs, vs);
    FreshMatch(keyed, cs, vs);
    MatchedMembers(keyed, cs, init);
    var m := Matched(keyed, init);
    var u := Unmatched(keyed, cs, init);
    assert NoDuplicates(m + u);
    NoDuplicatesSplit(m, u);
    KeyedItemsStep(el, keyed, vs, s.queue);
  }

  lemma KeyedReorderStep(el: NodeId, incoming: set<string>, keyed: map<string, NodeId>,
                         s: ChildPass, cs: seq<NodeId>, vs: seq<VNode>, p: ChildPass)
    requires KeysMatch(keyed, cs, vs) && vs != []
    requires KeyedInv(el, incoming, keyed, s, cs, vs[..|vs| - 1], p)
    ensures KeyedInv(el, incoming, keyed, s, cs, vs, ChildStep(el, true, incoming, keyed, p, vs[|vs| - 1]))
  {
    var init := vs[..|vs| - 1];
    var last := vs[|vs| - 1];
    KeyedStepSetup(el, incoming, keyed, s, cs, vs, p);
    var m := Matched(keyed, init);
    var u := Unmatched(keyed, cs, init);
    var k := keyed[last.key];
    if k == u[0] {
      KeyedAtCursor(el, incoming, keyed, p, last, m, u);
      RemoveHead(u);
    } else {
      KeyedElsewhere(el, incoming, keyed, p, last, m, u);
    }
  }

  /** Keyed diffing of incoming elements whose keys are distinct and all have a previous
      node: after each incoming element the children are the nodes matched so far, in
      incoming order, followed by the previous children not matched yet, and each
      element is queued against the very node that had its key. */
  lemma {:induction false} KeyedReorder(el: NodeId, incoming: set<string>, keyed: map<string, NodeId>,
                                        s: ChildPass, vs: seq<VNode>)
    requires Ok(el, s) && KeyedOk(keyed, s.nodes, el) && !s.fault && s.seen == {}
    requires KeysMatch(keyed, s.nodes[el].childNodes, vs)
    requires forall c | c in s.nodes[el].childNodes :: Kept(s.nodes[c], incoming)
    requires s.cursor == Head(s.nodes[el].childNodes)
    ensures KeyedInv(el, incoming, keyed, s, s.nodes[el].childNodes, vs,
                     Loop(el, true, incoming, keyed, s, vs))
  {
    var cs := s.nodes[el].childNodes;
    if vs == [] {
      assert [] + cs == cs && [] + s.queue == s.queue;
    } else {
      KeysMatchPrefix(keyed, cs, vs);
      KeyedReorder(el, incoming, keyed, s, vs[..|vs| - 1]);
      KeyedReorderStep(el, incoming, keyed, s, cs, vs, Loop(el, true, incoming, keyed, s, vs[..|vs| - 1]));
    }
  }

  lemma AllMatched(keyed: map<string, NodeId>, cs: seq<NodeId>, vs: seq<VNode>)
    requires KeysMatch(keyed, cs, vs)
    requires forall c | c in cs :: c in Matched(keyed, vs)
    ensures Unmatched(keyed, cs, vs) == []
    ensures Matched(keyed, vs) + Unmatched(keyed, cs, vs) == Matched(keyed, vs)
  {
    MatchedMembers(keyed, cs, vs);
    HeadIn(Unmatched(keyed, cs, vs));
  }

  /** A non-empty sequence holds its first element; called on a sequence that the
      caller's facts force to be empty, so the index sits outside the caller. */
  lemma HeadIn<T>(u: seq<T>)
    ensures |u| > 0 ==> u[0] in u
  {
  }

  /** When the incoming keys also cover every previous child, the keyed phase leaves
      exactly the previous nodes, reordered to the incoming order: none is created or
      removed, and each incoming element is reconciled against the node with its key. */
  lemma KeyedPhaseReorders(el: NodeId, incoming: set<string>, keyed: map<string, NodeId>,
                           s: ChildPass, children: seq<VNode>)
    requires Ok(el, s) && KeyedOk(keyed, s.nodes, el) && !s.fault && s.seen == {}
    requires KeysMatch(keyed, s.nodes[el].childNodes, Flatten(children))
    requires forall c | c in s.nodes[el].childNodes :: Kept(s.nodes[c], incoming)
    requires forall c | c in s.nodes[el].childNodes :: c in Matched(keyed, Flatten(children))
    requires s.cursor == Head(s.nodes[el].childNodes)
    ensures var vs := Flatten(children);
            var r := Phase(el, true, incoming, keyed, s, children);
            && !r.fault
            && r.nodes[el].childNodes == Matched(keyed, vs)
            && r.queue == KeyedItems(el, keyed, vs) + s.queue
            && r.nextId == s.nextId && r.warnings == s.warnings
  {
    var vs := Flatten(children);
    var cs := s.nodes[el].childNodes;
    KeyedReorder(el, incoming, keyed, s, vs);
    AllMatched(keyed, cs, vs);
    var l := Loop(el, true, incoming, keyed, s, vs);
    assert l.cursor.None?;
    assert Phase(el, true, incoming, keyed, s, children) == Truncate(el, l) == l;
  }

  /** The previous children and the incoming elements carry the same keys, one each:
      every previous child has a key, every incoming vnode is an element, no key appears
      twice on either side, and the two sides have the same keys. */
  ghost predicate KeysCorrespond(nodes: map<NodeId, Node>, cs: seq<NodeId>, vs: seq<VNode>)
  {
    && (forall c | c in cs :: c in nodes && KeyOf(nodes[c]).Some?)
    && (forall i | 0 <= i < |vs| :: vs[i].Element?)
    && (forall i, j | 0 <= i < j < |vs| :: vs[i].key != vs[j].key)
    && (forall i, j | 0 <= i < j < |cs| :: KeyOf(nodes[cs[i]]) != KeyOf(nodes[cs[j]]))
    && ChildKeys(nodes, cs) == VnodeKeys(vs)
  }

  /** The keys the previous children carry. */
  ghost function ChildKeys(nodes: map<NodeId, Node>, cs: seq<NodeId>): set<string>
    requires forall c | c in cs :: c in nodes && KeyOf(nodes[c]).Some?
  {
    set c | c in cs :: KeyOf(nodes[c]).value
  }

  /** The keys the incoming vnodes carry. */
  ghost function VnodeKeys(vs: seq<VNode>): set<string>
  {
    set v | v in vs && v.Element? :: v.key
  }

  /** With keys in correspondence, the map `getKeyedChildren` builds matches every
      incoming element to a distinct previous child. */
  lemma KeysCorrespondMatch(nodes: map<NodeId, Node>, cs: seq<NodeId>, vs: seq<VNode>)
    requires KeysCorrespond(nodes, cs, vs)
    ensures KeysMatch(KeyedChildren(nodes, cs), cs, vs)
  {
    var m := KeyedChildren(nodes, cs);
    KeyedChildrenComplete(nodes, cs);
    forall i | 0 <= i < |vs|
      ensures vs[i].key in m
    {
      assert vs[i] in vs;
      assert vs[i].key in ChildKeys(nodes, cs);
    }
  }

  /** Vnode `i` is matched with the node of its key. */
  lemma {:induction false} MatchedAt(keyed: map<string, NodeId>, vs: seq<VNode>, i: nat)
    requires forall k | 0 <= k < |vs| :: vs[k].Element? && vs[k].key in keyed
    requires i < |vs|
    ensures Matched(keyed, vs)[i] == keyed[vs[i].key]
  {
    if i < |vs| - 1 {
      var init := vs[..|vs| - 1];
      assert init[i] == vs[i];
      MatchedAt(keyed, init, i);
    }
  }

  /** The incoming element carrying the key of previous child `c`. */
  lemma IncomingWithKey(nodes: map<NodeId, Node>, cs: seq<NodeId>, vs: seq<VNode>, c: NodeId)
    returns (i: nat)
    requires KeysCorrespond(nodes, cs, vs) && c in cs
    ensures i < |vs| && KeyOf(nodes[c]) == Some(vs[i].key)
  {
    var k := KeyOf(nodes[c]).value;
    assert k in ChildKeys(nodes, cs);
    var v :| v in vs && v.key == k;
    i :| 0 <= i < |vs| && vs[i] == v;
  }

  /** Under key correspondence the stale-removal loop keeps every previous child. */
  lemma CorrespondingKept(nodes: map<NodeId, Node>, cs: seq<NodeId>, vs: seq<VNode>)
    requires KeysCorrespond(nodes, cs, vs)
    ensures forall c | c in cs :: Kept(nodes[c], IncomingKeys(vs))
  {
    IncomingKeysAre(vs);
    forall c | c in cs
      ensures Kept(nodes[c], IncomingKeys(vs))
    {
      var i := IncomingWithKey(nodes, cs, vs, c);
      assert vs[i] in vs;
    }
  }

  /** Under key correspondence every previous child is the node its key is matched with. */
  lemma CorrespondingMatched(nodes: map<NodeId, Node>, cs: seq<NodeId>, vs: seq<VNode>)
    requires KeysCorrespond(nodes, cs, vs) && KeysMatch(KeyedChildren(nodes, cs), cs, vs)
    ensures forall c | c in cs :: c in Matched(KeyedChildren(nodes, cs), vs)
  {
    var keyed := KeyedChildren(nodes, cs);
    MatchedHas(keyed, vs);
    forall c | c in cs
      ensures c in Matched(keyed, vs)
    {
      var j :| 0 <= j < |cs| && cs[j] == c;
      var i := IncomingWithKey(nodes, cs, vs, c);
      KeyedChildrenLast(nodes, cs, j);
    }
  }

  /** The keyed phase with the maps `createElementNode` builds: when the previous
      children and the incoming elements carry the same keys, the map matches them and
      each incoming element `i` is reconciled against the previous child with its key,
      which ends up at position `i`; nothing is created, thrown or warned about. */
  lemma KeyedPhaseMatchesKeys(el: NodeId, s: ChildPass, children: seq<VNode>)
    requires Ok(el, s) && !s.fault && s.seen == {}
    requires s.cursor == Head(s.nodes[el].childNodes)
    requires KeysCorrespond(s.nodes, s.nodes[el].childNodes, Flatten(children))
    ensures var keyed := KeyedChildren(s.nodes, s.nodes[el].childNodes);
            KeyedOk(keyed, s.nodes, el) && KeysMatch(keyed, s.nodes[el].childNodes, Flatten(children))
    ensures var cs := s.nodes[el].childNodes;
            var vs := Flatten(children);
            var r := Phase(el, true, IncomingKeys(vs), KeyedChildren(s.nodes, cs), s, children);
            && !r.fault && |r.nodes[el].childNodes| == |vs|
            && (forall i | 0 <= i < |vs| ::
                  r.nodes[el].childNodes[i] in cs && KeyOf(s.nodes[r.nodes[el].childNodes[i]]) == Some(vs[i].key))
            && r.queue == PositionalItems(el, r.nodes[el].childNodes, 0, vs) + s.queue
            && r.nextId == s.nextId && r.warnings == s.warnings
  {
    var cs := s.nodes[el].childNodes;
    var vs := Flatten(children);
    var keyed := KeyedChildren(s.nodes, cs);
    KeysCorrespondMatch(s.nodes, cs, vs);
    CorrespondingKept(s.nodes, cs, vs);
    CorrespondingMatched(s.nodes, cs, vs);
    assert KeyedOk(keyed, s.nodes, el);
    MatchedKeys(s.nodes, cs, vs);
    KeyedItemsPositional(el, keyed, vs);
    KeyedPhaseReorders(el, IncomingKeys(vs), keyed, s, children);
  }

  /** The keyed items queue each vnode against the node at its position in the matched
      order. */
  lemma {:induction false} KeyedItemsPositional(el: NodeId, keyed: map<string, NodeId>, vs: seq<VNode>)
    requires forall i | 0 <= i < |vs| :: vs[i].Element? && vs[i].key in keyed
    ensures KeyedItems(el, keyed, vs) == PositionalItems(el, Matched(keyed, vs), 0, vs)
  {
    if vs != [] {
      var init := vs[..|vs| - 1];
      KeyedItemsPositional(el, keyed, init);
      var ms := Matched(keyed, vs);
      assert ms == Matched(keyed, init) + [keyed[vs[|vs| - 1].key]];
      PositionalItemsExtend(el, Matched(keyed, init), [keyed[vs[|vs| - 1].key]], init);
    }
  }

  /** Positional items only look at the children up to the last vnode's position. */
  lemma {:induction false} PositionalItemsExtend(el: NodeId, cs: seq<NodeId>, more: seq<NodeId>, vs: seq<VNode>)
    requires |vs| <= |cs|
    ensures PositionalItems(el, cs + more, 0, vs) == PositionalItems(el, cs, 0, vs)
  {
    if vs != [] {
      PositionalItemsExtend(el, cs, more, vs[..|vs| - 1]);
      assert (cs + more)[|vs| - 1] == cs[|vs| - 1];
    }
  }

  /** Vnode `i` is matched with a previous child carrying its key. */
  lemma MatchedKeys(nodes: map<NodeId, Node>, cs: seq<NodeId>, vs: seq<VNode>)
    requires KeysCorrespond(nodes, cs, vs) && KeysMatch(KeyedChildren(nodes, cs), cs, vs)
    ensures var ms := Matched(KeyedChildren(nodes, cs), vs);
            forall i | 0 <= i < |vs| :: ms[i] in cs && KeyOf(nodes[ms[i]]) == Some(vs[i].key)
  {
    var keyed := KeyedChildren(nodes, cs);
    forall i | 0 <= i < |vs|
      ensures Matched(keyed, vs)[i] in cs && KeyOf(nodes[Matched(keyed, vs)[i]]) == Some(vs[i].key)
    {
      MatchedAt(keyed, vs, i);
    }
  }

  /** Flattening distributes over concatenation. */
  lemma {:induction false} FlattenAppend(a: seq<VNode>, b: seq<VNode>)
    ensures Flatten(a + b) == Flatten(a) + Flatten(b)
  {
    if b == [] {
      assert a + b == a;
    } else {
      var init := b[..|b| - 1];
      FlattenAppend(a, init);
      assert (a + b)[..|a + b| - 1] == a + init;
      assert (a + b)[|a + b| - 1] == b[|b| - 1];
      var last := Expand(b[|b| - 1]);
      assert Flatten(a + b) == Flatten(a + init) + last;
      assert Flatten(b) == Flatten(init) + last;
      ConcatAssoc(Flatten(a), Flatten(init), last);
    }
  }

  lemma ConcatAssoc<T>(x: seq<T>, y: seq<T>, z: seq<T>)
    ensures (x + y) + z == x + (y + z)
  {
  }

  /** Once a `TypeError` was thrown in the child loop, the rest of the loop does nothing:
      the exception leaves the page as it was when it was thrown. */
  lemma {:induction false} FaultSticks(el: NodeId, keyedMode: bool, incoming: set<string>,
                                       keyed: map<string, NodeId>, s: ChildPass, a: seq<VNode>, b: seq<VNode>)
    requires Ok(el, s) && KeyedOk(keyed, s.nodes, el)
    requires Loop(el, keyedMode, incoming, keyed, s, a).fault
    ensures Loop(el, keyedMode, incoming, keyed, s, a + b) == Loop(el, keyedMode, incoming, keyed, s, a)
  {
    if b == [] {
      assert a + b == a;
    } else {
      FaultSticks(el, keyedMode, incoming, keyed, s, a, b[..|b| - 1]);
      FrontOfConcat(a, b);
      LoopLast(el, keyedMode, incoming, keyed, s, a + b);
    }
  }
}
