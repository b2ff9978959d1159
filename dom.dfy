/** The page the reconciler edits: a heap of DOM node records addressed by identity, the
    handler registry the reconciler keeps beside it (`registeredHandlers`), the event
    listeners attached to each element, and a record of every DOM call made.

    Each DOM operation is the sequence edit the DOM standard defines for it. Inserting a
    node first takes it out of whatever child list holds it, as the standard's "adopt"
    step does, so a node sits in at most one list at the position last given to it. */
module Dom {
  import opened Prelude
  import opened Vdom

  /** A node's identity (`===` on DOM nodes). */
  type NodeId = nat

  const XhtmlNamespace: string := "http://www.w3.org/1999/xhtml"

  /** What the runtime's `dispatch` wraps: a vnode's handler, or the server-component
      event handler. */
  datatype Callback = Dispatch(handler: Value) | DispatchServerEvent

  /** A text node, or an element with its attributes, its live properties, its child
      list, and the markup last assigned to `innerHTML` (not parsed into children). */
  datatype Node =
    | TextNode(data: string)
    | ElementNode(localName: string, namespaceUri: string, attributes: map<string, string>,
                  properties: map<string, Value>, childNodes: seq<NodeId>,
                  innerHtml: Option<string>)

  /** One DOM call. `writes` counts them, so "nothing is written" is a statement about
      the page, not about its final state only. */
  datatype Mutation =
    | NodeCreated(id: NodeId)
    | ChildAppended(parent: NodeId, child: NodeId)
    | ChildReplaced(parent: NodeId, newChild: NodeId, oldChild: NodeId)
    | ChildRemoved(parent: NodeId, child: NodeId)
    | ChildInserted(parent: NodeId, node: NodeId, ref: Option<NodeId>)
    | TextSet(id: NodeId, data: string)
    | AttributeSet(id: NodeId, name: string, value: string)
    | AttributeRemoved(id: NodeId, name: string)
    | PropertySet(id: NodeId, name: string, property: Value)
    | InnerHtmlSet(id: NodeId, html: string)
    | ListenerAdded(id: NodeId, event: string)
    | ListenerRemoved(id: NodeId, event: string)

  predicate NoDuplicates(s: seq<NodeId>)
  {
    forall i, j | 0 <= i < j < |s| :: s[i] != s[j]
  }

  /** `s` without `x`. */
  function Remove(s: seq<NodeId>, x: NodeId): (r: seq<NodeId>)
    ensures forall y :: y in r <==> y in s && y != x
    ensures x !in s ==> r == s
    ensures NoDuplicates(s) ==> NoDuplicates(r)
    ensures |r| <= |s| && (x in s ==> |r| < |s|)
  {
    if s == [] then []
    else if s[0] == x then Remove(s[1..], x)
    else
      var rest := Remove(s[1..], x);
      assert NoDuplicates(s) ==> s[0] !in s[1..];
      assert s == [s[0]] + s[1..];
      [s[0]] + rest
  }

  /** The position of `x` in `s`. */
  function IndexOf(s: seq<NodeId>, x: NodeId): (i: nat)
    requires x in s
    ensures i < |s| && s[i] == x && x !in s[..i]
  {
    if s[0] == x then 0 else 1 + IndexOf(s[1..], x)
  }

  lemma IndexOfUnique(s: seq<NodeId>, k: nat)
    requires NoDuplicates(s) && k < |s|
    ensures IndexOf(s, s[k]) == k
  {
  }

  lemma NoDuplicatesSplit(a: seq<NodeId>, b: seq<NodeId>)
    requires NoDuplicates(a + b)
    ensures NoDuplicates(a) && NoDuplicates(b)
    ensures forall x | x in a :: x !in b
  {
    forall i, j | 0 <= i < j < |a|
      ensures a[i] != a[j]
    {
      assert a[i] == (a + b)[i] && a[j] == (a + b)[j];
    }
    forall i, j | 0 <= i < j < |b|
      ensures b[i] != b[j]
    {
      assert b[i] == (a + b)[|a| + i] && b[j] == (a + b)[|a| + j];
    }
    forall x | x in a
      ensures x !in b
    {
      var i :| 0 <= i < |a| && a[i] == x;
      forall j | 0 <= j < |b|
        ensures b[j] != x
      {
        assert (a + b)[i] != (a + b)[|a| + j];
      }
    }
  }

  lemma {:induction false} RemoveConcat(a: seq<NodeId>, b: seq<NodeId>, x: NodeId)
    requires x !in a
    ensures Remove(a + b, x) == a + Remove(b, x)
  {
    if a == [] {
      assert a + b == b;
    } else {
      assert (a + b)[1..] == a[1..] + b;
      RemoveConcat(a[1..], b, x);
    }
  }

  lemma RemoveHead(s: seq<NodeId>)
    requires NoDuplicates(s) && s != []
    ensures Remove(s, s[0]) == s[1..]
  {
    assert s[0] !in s[1..];
  }

  /** `s` with `x` put right before `ref`, or at the end when there is no `ref`. */
  function InsertedBefore(s: seq<NodeId>, x: NodeId, ref: Option<NodeId>): (r: seq<NodeId>)
    requires ref.Some? ==> ref.value in s
    ensures forall y :: y in r <==> y in s || y == x
    ensures ref.None? ==> r == s + [x]
    ensures ref.Some? ==> r == s[..IndexOf(s, ref.value)] + [x] + s[IndexOf(s, ref.value)..]
    ensures NoDuplicates(s) && x !in s ==> NoDuplicates(r)
  {
    match ref
    case None =>
      assert s[..|s|] + [x] + s[|s|..] == s + [x];
      NoDuplicatesInsert(s, |s|, x);
      s + [x]
    case Some(y) =>
      var i := IndexOf(s, y);
      assert s == s[..i] + s[i..];
      NoDuplicatesInsert(s, i, x);
      s[..i] + [x] + s[i..]
  }

  /** Putting a new node anywhere in a list without repeats leaves none. */
  lemma NoDuplicatesInsert(s: seq<NodeId>, i: nat, x: NodeId)
    requires i <= |s|
    ensures NoDuplicates(s) && x !in s ==> NoDuplicates(s[..i] + [x] + s[i..])
  {
    if NoDuplicates(s) && x !in s {
      var r := s[..i] + [x] + s[i..];
      forall p, q | 0 <= p < q < |r|
        ensures r[p] != r[q]
      {
        var sp := if p < i then p else p - 1;
        var sq := if q < i then q else q - 1;
        if p != i && q != i {
          assert r[p] == s[sp] && r[q] == s[sq];
        } else if p == i {
          assert r[q] == s[sq];
        } else {
          assert r[p] == s[sp];
        }
      }
    }
  }

  /** `s` with `old` swapped for `new`, where `new` has already been taken out of `s`. */
  function ReplaceWith(s: seq<NodeId>, oldChild: NodeId, newChild: NodeId): (r: seq<NodeId>)
    requires oldChild in s
    ensures |r| == |s| && r[IndexOf(s, oldChild)] == newChild
    ensures forall k | 0 <= k < |s| && k != IndexOf(s, oldChild) :: r[k] == s[k]
    ensures NoDuplicates(s) && newChild !in s ==> NoDuplicates(r)
  {
    var i := IndexOf(s, oldChild);
    s[..i] + [newChild] + s[i + 1..]
  }

  /** The heap with `c` taken out of every child list. */
  function Detach(nodes: map<NodeId, Node>, c: NodeId): (r: map<NodeId, Node>)
    ensures r.Keys == nodes.Keys
    ensures forall id | id in nodes :: r[id].TextNode? == nodes[id].TextNode?
    ensures forall id | id in nodes && nodes[id].TextNode? :: r[id] == nodes[id]
    ensures forall id | id in nodes && nodes[id].ElementNode? ::
      r[id] == nodes[id].(childNodes := Remove(nodes[id].childNodes, c))
  {
    map id | id in nodes ::
      if nodes[id].ElementNode? then nodes[id].(childNodes := Remove(nodes[id].childNodes, c))
      else nodes[id]
  }

  /** The children of `id` when it is an element, none otherwise. */
  function ChildrenOf(nodes: map<NodeId, Node>, id: NodeId): seq<NodeId>
  {
    if id in nodes && nodes[id].ElementNode? then nodes[id].childNodes else []
  }

  /** `nextSibling` of `x` when `x` is a child of `parent`: the following child, if any. */
  function NextSibling(nodes: map<NodeId, Node>, parent: NodeId, x: Option<NodeId>): (r: Option<NodeId>)
    ensures r.Some? ==> r.value in ChildrenOf(nodes, parent)
  {
    var cs := ChildrenOf(nodes, parent);
    if x.Some? && x.value in cs && IndexOf(cs, x.value) + 1 < |cs|
    then Some(cs[IndexOf(cs, x.value) + 1])
    else None
  }

  /** The node heap is closed, ids below `nextId` are the only ones handed out, child
      lists hold no repeats, and a node has at most one parent, never itself. */
  ghost predicate HeapOk(nodes: map<NodeId, Node>, nextId: NodeId)
  {
    && (forall id | id in nodes :: id < nextId)
    && (forall id, c | id in nodes && nodes[id].ElementNode? && c in nodes[id].childNodes ::
          c in nodes)
    && (forall id | id in nodes && nodes[id].ElementNode? :: NoDuplicates(nodes[id].childNodes))
    && (forall id | id in nodes && nodes[id].ElementNode? :: id !in nodes[id].childNodes)
    && (forall a, b, c | a in nodes && b in nodes && nodes[a].ElementNode? && nodes[b].ElementNode?
                         && c in nodes[a].childNodes && c in nodes[b].childNodes :: a == b)
  }

  /** The heap only grew: every node kept its id and its kind (text or element, tag and
      namespace). Work items queued earlier stay meaningful across such a step. */
  ghost predicate Grew(before: map<NodeId, Node>, after: map<NodeId, Node>)
  {
    forall id | id in before ::
      id in after && after[id].TextNode? == before[id].TextNode?
      && (before[id].ElementNode? ==>
            after[id].localName == before[id].localName
            && after[id].namespaceUri == before[id].namespaceUri)
  }

  /** A node present before is present after, of the same kind, tag and namespace. */
  lemma GrewAt(before: map<NodeId, Node>, after: map<NodeId, Node>, id: NodeId)
    requires Grew(before, after) && id in before
    ensures id in after && after[id].TextNode? == before[id].TextNode?
    ensures before[id].ElementNode? ==> after[id].ElementNode?
    ensures before[id].ElementNode? ==>
              after[id].localName == before[id].localName && after[id].namespaceUri == before[id].namespaceUri
  {
  }

  lemma GrewTransitive(a: map<NodeId, Node>, b: map<NodeId, Node>, c: map<NodeId, Node>)
    requires Grew(a, b) && Grew(b, c)
    ensures Grew(a, c)
  {
  }

  /** Every node but `id` is as it was. */
  ghost predicate SameExcept(before: map<NodeId, Node>, after: map<NodeId, Node>, id: NodeId)
  {
    forall x | x in before && x != id :: x in after && after[x] == before[x]
  }

  /** No node but `id` appeared. */
  ghost predicate NewOnly(before: map<NodeId, Node>, after: map<NodeId, Node>, id: NodeId)
  {
    forall x | x in after :: x in before || x == id
  }

  lemma UpdatedSameExcept(nodes: map<NodeId, Node>, id: NodeId, n: Node)
    ensures SameExcept(nodes, nodes[id := n], id) && NewOnly(nodes, nodes[id := n], id)
  {
  }

  lemma SameExceptTransitive(a: map<NodeId, Node>, b: map<NodeId, Node>, c: map<NodeId, Node>, id: NodeId)
    requires SameExcept(a, b, id) && SameExcept(b, c, id)
    ensures SameExcept(a, c, id)
  {
  }

  lemma NewOnlyTransitive(a: map<NodeId, Node>, b: map<NodeId, Node>, c: map<NodeId, Node>, id: NodeId)
    requires NewOnly(a, b, id) && NewOnly(b, c, id)
    ensures NewOnly(a, c, id)
  {
  }

  /** The heap after `c` is taken out of every list and `parent`'s list becomes `list`,
      which holds `c` and children `parent` already had. */
  function Placed(nodes: map<NodeId, Node>, parent: NodeId, c: NodeId, list: seq<NodeId>): map<NodeId, Node>
    requires parent in nodes && nodes[parent].ElementNode?
  {
    var detached := Detach(nodes, c);
    detached[parent := detached[parent].(childNodes := list)]
  }

  /** Every insertion the DOM performs keeps the heap well formed. */
  lemma PlacedKeepsHeap(nodes: map<NodeId, Node>, nextId: NodeId, parent: NodeId, c: NodeId, list: seq<NodeId>)
    requires HeapOk(nodes, nextId)
    requires parent in nodes && nodes[parent].ElementNode? && c in nodes && c != parent
    requires NoDuplicates(list)
    requires forall y | y in list :: y == c || y in Remove(nodes[parent].childNodes, c)
    ensures HeapOk(Placed(nodes, parent, c, list), nextId)
    ensures Grew(nodes, Placed(nodes, parent, c, list))
  {
    var after := Placed(nodes, parent, c, list);
    forall a, b, y | a in after && b in after && after[a].ElementNode? && after[b].ElementNode?
                     && y in after[a].childNodes && y in after[b].childNodes
      ensures a == b
    {
      if y == c {
        assert a == parent && b == parent;
      } else {
        assert y in nodes[a].childNodes && y in nodes[b].childNodes;
      }
    }
  }

  /** The heap after `parent.appendChild(c)`. */
  function Appended(nodes: map<NodeId, Node>, parent: NodeId, c: NodeId): map<NodeId, Node>
    requires parent in nodes && nodes[parent].ElementNode?
  {
    Placed(nodes, parent, c, Detach(nodes, c)[parent].childNodes + [c])
  }

  /** The heap after `parent.insertBefore(c, ref)`. */
  function Inserted(nodes: map<NodeId, Node>, parent: NodeId, c: NodeId, ref: Option<NodeId>): map<NodeId, Node>
    requires parent in nodes && nodes[parent].ElementNode?
    requires ref.Some? ==> ref.value in nodes[parent].childNodes && ref.value != c
  {
    Placed(nodes, parent, c, InsertedBefore(Detach(nodes, c)[parent].childNodes, c, ref))
  }

  /** The heap after a successful `parent.replaceChild(newChild, oldChild)`. */
  function Replaced(nodes: map<NodeId, Node>, parent: NodeId, newChild: NodeId, oldChild: NodeId): map<NodeId, Node>
    requires parent in nodes && nodes[parent].ElementNode?
    requires oldChild in nodes[parent].childNodes && newChild != oldChild
  {
    Placed(nodes, parent, newChild, ReplaceWith(Detach(nodes, newChild)[parent].childNodes, oldChild, newChild))
  }

  /** The heap after `parent.removeChild(c)`. */
  function Removed(nodes: map<NodeId, Node>, parent: NodeId, c: NodeId): map<NodeId, Node>
    requires parent in nodes && nodes[parent].ElementNode?
  {
    nodes[parent := nodes[parent].(childNodes := Remove(nodes[parent].childNodes, c))]
  }

  lemma AppendedKeepsHeap(nodes: map<NodeId, Node>, nextId: NodeId, parent: NodeId, c: NodeId)
    requires HeapOk(nodes, nextId) && parent in nodes && nodes[parent].ElementNode?
    requires c in nodes && c != parent
    ensures HeapOk(Appended(nodes, parent, c), nextId) && Grew(nodes, Appended(nodes, parent, c))
  {
    PlacedKeepsHeap(nodes, nextId, parent, c, Detach(nodes, c)[parent].childNodes + [c]);
  }

  lemma InsertedKeepsHeap(nodes: map<NodeId, Node>, nextId: NodeId, parent: NodeId, c: NodeId, ref: Option<NodeId>)
    requires HeapOk(nodes, nextId) && parent in nodes && nodes[parent].ElementNode?
    requires c in nodes && c != parent
    requires ref.Some? ==> ref.value in nodes[parent].childNodes && ref.value != c
    ensures HeapOk(Inserted(nodes, parent, c, ref), nextId) && Grew(nodes, Inserted(nodes, parent, c, ref))
  {
    PlacedKeepsHeap(nodes, nextId, parent, c, InsertedBefore(Detach(nodes, c)[parent].childNodes, c, ref));
  }

  lemma ReplacedKeepsHeap(nodes: map<NodeId, Node>, nextId: NodeId, parent: NodeId, newChild: NodeId, oldChild: NodeId)
    requires HeapOk(nodes, nextId) && parent in nodes && nodes[parent].ElementNode?
    requires newChild in nodes && newChild != parent
    requires oldChild in nodes[parent].childNodes && newChild != oldChild
    ensures HeapOk(Replaced(nodes, parent, newChild, oldChild), nextId)
    ensures Grew(nodes, Replaced(nodes, parent, newChild, oldChild))
  {
    var cs := Detach(nodes, newChild)[parent].childNodes;
    PlacedKeepsHeap(nodes, nextId, parent, newChild, ReplaceWith(cs, oldChild, newChild));
  }

  lemma RemovedKeepsHeap(nodes: map<NodeId, Node>, nextId: NodeId, parent: NodeId, c: NodeId)
    requires HeapOk(nodes, nextId) && parent in nodes && nodes[parent].ElementNode?
    ensures HeapOk(Removed(nodes, parent, c), nextId) && Grew(nodes, Removed(nodes, parent, c))
  {
  }

  /** A fresh node enters the heap under the next id, in no list. */
  lemma CreatedKeepsHeap(nodes: map<NodeId, Node>, nextId: NodeId, n: Node)
    requires HeapOk(nodes, nextId) && (n.ElementNode? ==> n.childNodes == [])
    ensures HeapOk(nodes[nextId := n], nextId + 1) && Grew(nodes, nodes[nextId := n])
  {
    FreshIsOrphan(nodes, nextId, nextId);
  }

  /** The child list `insertBefore` leaves: the node taken out, then put before `ref`. */
  lemma InsertedChildren(nodes: map<NodeId, Node>, parent: NodeId, c: NodeId, ref: Option<NodeId>)
    requires parent in nodes && nodes[parent].ElementNode?
    requires ref.Some? ==> ref.value in nodes[parent].childNodes && ref.value != c
    ensures Inserted(nodes, parent, c, ref)[parent].childNodes
            == InsertedBefore(Remove(nodes[parent].childNodes, c), c, ref)
  {
  }

  /** A new empty text node put before the first of `after` lands right there and is
      the only change to the parent's list. */
  lemma InsertedFreshText(nodes: map<NodeId, Node>, nextId: NodeId, parent: NodeId,
                          before: seq<NodeId>, after: seq<NodeId>)
    requires HeapOk(nodes, nextId) && parent in nodes && nodes[parent].ElementNode?
    requires nodes[parent].childNodes == before + after && after != []
    ensures after[0] in nodes && after[0] != nextId
    ensures var r := Inserted(nodes[nextId := TextNode("")], parent, nextId, Some(after[0]));
            && r[parent].childNodes == before + [nextId] + after
            && r[nextId] == TextNode("")
  {
    var created := nodes[nextId := TextNode("")];
    assert after[0] in nodes[parent].childNodes;
    FreshIsOrphan(nodes, nextId, nextId);
    DetachOrphan(created, nextId);
    var cs := before + after;
    assert cs[|before|] == after[0];
    IndexOfUnique(cs, |before|);
    assert cs[..|before|] == before && cs[|before|..] == after;
  }

  /** `insertBefore` adds and removes no node. */
  lemma InsertedKeys(nodes: map<NodeId, Node>, parent: NodeId, c: NodeId, ref: Option<NodeId>)
    requires parent in nodes && nodes[parent].ElementNode?
    requires ref.Some? ==> ref.value in nodes[parent].childNodes && ref.value != c
    ensures Inserted(nodes, parent, c, ref).Keys == nodes.Keys
  {
  }

  /** `insertBefore` keeps the parent an element and the reference node among its
      children. */
  lemma InsertedKeepsRef(nodes: map<NodeId, Node>, parent: NodeId, c: NodeId, ref: Option<NodeId>)
    requires parent in nodes && nodes[parent].ElementNode?
    requires ref.Some? ==> ref.value in nodes[parent].childNodes && ref.value != c
    ensures var after := Inserted(nodes, parent, c, ref);
            parent in after && after[parent].ElementNode? && c in after[parent].childNodes
            && (ref.Some? ==> ref.value in after[parent].childNodes)
  {
    InsertedChildren(nodes, parent, c, ref);
  }

  /** Moving a node changes child lists only: every node keeps its kind and attributes. */
  lemma InsertedKeepsRecords(nodes: map<NodeId, Node>, parent: NodeId, c: NodeId, ref: Option<NodeId>)
    requires parent in nodes && nodes[parent].ElementNode?
    requires ref.Some? ==> ref.value in nodes[parent].childNodes && ref.value != c
    ensures var after := Inserted(nodes, parent, c, ref);
            forall id | id in nodes :: id in after && after[id].ElementNode? == nodes[id].ElementNode?
              && (nodes[id].ElementNode? ==> after[id].attributes == nodes[id].attributes)
  {
  }

  /** Taking a node out of every list touches only its own parent's list. */
  lemma DetachChild(nodes: map<NodeId, Node>, nextId: NodeId, parent: NodeId, c: NodeId)
    requires HeapOk(nodes, nextId) && parent in nodes && nodes[parent].ElementNode?
    requires c in nodes[parent].childNodes
    ensures Detach(nodes, c) == Removed(nodes, parent, c)
  {
    var d := Detach(nodes, c);
    forall id | id in nodes && id != parent && nodes[id].ElementNode?
      ensures d[id] == nodes[id]
    {
      assert c !in nodes[id].childNodes;
    }
  }

  /** Taking out a node that is in no list changes nothing. */
  lemma DetachOrphan(nodes: map<NodeId, Node>, c: NodeId)
    requires forall id | id in nodes && nodes[id].ElementNode? :: c !in nodes[id].childNodes
    ensures Detach(nodes, c) == nodes
  {
  }

  /** A node that was never handed out sits in no list. */
  lemma FreshIsOrphan(nodes: map<NodeId, Node>, nextId: NodeId, c: NodeId)
    requires HeapOk(nodes, nextId) && c >= nextId
    ensures forall id | id in nodes && nodes[id].ElementNode? :: c !in nodes[id].childNodes
  {
    assert c !in nodes;
    forall id | id in nodes && nodes[id].ElementNode?
      ensures c !in nodes[id].childNodes
    {
      assert c in nodes[id].childNodes ==> c in nodes;
    }
  }

  /** The event names registered for `id`. */
  function RegisteredIn(registry: map<NodeId, map<string, Callback>>, id: NodeId): set<string>
  {
    if id in registry then registry[id].Keys else {}
  }

  /** The page as a value: what `Document` holds at one moment. Each DOM call is a
      function from page to page; `Document` performs them in place. */
  datatype Page = Page(
    nodes: map<NodeId, Node>,
    nextId: NodeId,
    registry: map<NodeId, map<string, Callback>>,
    listeners: map<NodeId, set<string>>,
    writes: multiset<Mutation>,
    warnings: seq<string>)
  {
    /** `document.createTextNode(data)`: a fresh, detached text node, numbered `nextId`. */
    function CreateTextNode(data: string): (r: Page)
      requires WellFormedPage(this)
      ensures nextId !in nodes
      ensures WellFormedPage(r) && Grew(nodes, r.nodes) && (ValidPage(this) ==> ValidPage(r))
    {
      CreatedKeepsHeap(nodes, nextId, TextNode(data));
      this.(nodes := nodes[nextId := TextNode(data)], nextId := nextId + 1,
            listeners := listeners[nextId := {}], writes := writes + multiset{NodeCreated(nextId)})
    }

    /** `document.createElementNS(namespace, tag)`: a fresh element with no attributes,
        properties or children, numbered `nextId`. */
    function CreateElementNs(namespace: string, tag: string): (r: Page)
      requires WellFormedPage(this)
      ensures nextId !in nodes
      ensures WellFormedPage(r) && Grew(nodes, r.nodes) && (ValidPage(this) ==> ValidPage(r))
    {
      var n := ElementNode(tag, namespace, map[], map[], [], None);
      CreatedKeepsHeap(nodes, nextId, n);
      this.(nodes := nodes[nextId := n], nextId := nextId + 1,
            listeners := listeners[nextId := {}], writes := writes + multiset{NodeCreated(nextId)})
    }

    /** `parent.appendChild(child)`: `child` leaves its old place and becomes the last
        child of `parent`. */
    function AppendChild(parent: NodeId, child: NodeId): (r: Page)
      requires WellFormedPage(this) && parent in nodes && nodes[parent].ElementNode?
      requires child in nodes && child != parent
      ensures WellFormedPage(r) && Grew(nodes, r.nodes) && (ValidPage(this) ==> ValidPage(r))
    {
      AppendedKeepsHeap(nodes, nextId, parent, child);
      this.(nodes := Appended(nodes, parent, child), writes := writes + multiset{ChildAppended(parent, child)})
    }

    /** A successful `parent.replaceChild(newChild, oldChild)`: `newChild` leaves its
        old place and takes that of `oldChild`, which is detached. */
    function ReplaceChild(parent: NodeId, newChild: NodeId, oldChild: NodeId): (r: Page)
      requires WellFormedPage(this) && parent in nodes && nodes[parent].ElementNode?
      requires newChild in nodes && newChild != parent
      requires oldChild in nodes[parent].childNodes && newChild != oldChild
      ensures WellFormedPage(r) && Grew(nodes, r.nodes) && (ValidPage(this) ==> ValidPage(r))
    {
      ReplacedKeepsHeap(nodes, nextId, parent, newChild, oldChild);
      this.(nodes := Replaced(nodes, parent, newChild, oldChild),
            writes := writes + multiset{ChildReplaced(parent, newChild, oldChild)})
    }

    /** `parent.removeChild(child)`. */
    function RemoveChild(parent: NodeId, child: NodeId): (r: Page)
      requires WellFormedPage(this) && parent in nodes && nodes[parent].ElementNode?
      ensures WellFormedPage(r) && Grew(nodes, r.nodes) && (ValidPage(this) ==> ValidPage(r))
    {
      RemovedKeepsHeap(nodes, nextId, parent, child);
      this.(nodes := Removed(nodes, parent, child), writes := writes + multiset{ChildRemoved(parent, child)})
    }

    /** `parent.insertBefore(node, ref)`, `ref` a child of `parent` other than `node`, or
        absent to append: `node` leaves its old place and goes right before `ref`. */
    function InsertBefore(parent: NodeId, node: NodeId, ref: Option<NodeId>): (r: Page)
      requires WellFormedPage(this) && parent in nodes && nodes[parent].ElementNode?
      requires node in nodes && node != parent
      requires ref.Some? ==> ref.value in nodes[parent].childNodes && ref.value != node
      ensures WellFormedPage(r) && Grew(nodes, r.nodes) && (ValidPage(this) ==> ValidPage(r))
    {
      InsertedKeepsHeap(nodes, nextId, parent, node, ref);
      this.(nodes := Inserted(nodes, parent, node, ref), writes := writes + multiset{ChildInserted(parent, node, ref)})
    }

    /** `textContent = data` on a text node. */
    function SetText(id: NodeId, data: string): (r: Page)
      requires WellFormedPage(this) && id in nodes && nodes[id].TextNode?
      ensures WellFormedPage(r) && Grew(nodes, r.nodes) && (ValidPage(this) ==> ValidPage(r))
    {
      this.(nodes := nodes[id := TextNode(data)], writes := writes + multiset{TextSet(id, data)})
    }

    /** `el.setAttribute(name, value)`. */
    function SetAttribute(id: NodeId, name: string, value: string): (r: Page)
      requires WellFormedPage(this) && id in nodes && nodes[id].ElementNode?
      ensures WellFormedPage(r) && Grew(nodes, r.nodes) && (ValidPage(this) ==> ValidPage(r))
    {
      this.(nodes := nodes[id := nodes[id].(attributes := nodes[id].attributes[name := value])],
            writes := writes + multiset{AttributeSet(id, name, value)})
    }

    /** `el.removeAttribute(name)`; removing an absent name changes nothing. */
    function RemoveAttribute(id: NodeId, name: string): (r: Page)
      requires WellFormedPage(this) && id in nodes && nodes[id].ElementNode?
      ensures WellFormedPage(r) && Grew(nodes, r.nodes) && (ValidPage(this) ==> ValidPage(r))
    {
      this.(nodes := nodes[id := nodes[id].(attributes := nodes[id].attributes - {name})],
            writes := writes + multiset{AttributeRemoved(id, name)})
    }

    /** `el[name] = value`. */
    function SetProperty(id: NodeId, name: string, value: Value): (r: Page)
      requires WellFormedPage(this) && id in nodes && nodes[id].ElementNode?
      ensures WellFormedPage(r) && Grew(nodes, r.nodes) && (ValidPage(this) ==> ValidPage(r))
    {
      this.(nodes := nodes[id := nodes[id].(properties := nodes[id].properties[name := value])],
            writes := writes + multiset{PropertySet(id, name, value)})
    }

    /** `el.innerHTML = html`: the old children are detached and the markup recorded. */
    function SetInnerHtml(id: NodeId, html: string): (r: Page)
      requires WellFormedPage(this) && id in nodes && nodes[id].ElementNode?
      ensures WellFormedPage(r) && Grew(nodes, r.nodes) && (ValidPage(this) ==> ValidPage(r))
    {
      this.(nodes := nodes[id := nodes[id].(childNodes := [], innerHtml := Some(html))],
            writes := writes + multiset{InnerHtmlSet(id, html)})
    }

    /** `el.addEventListener(event, lustreGenericEventHandler)`. */
    function AddEventListener(id: NodeId, event: string): (r: Page)
      requires WellFormedPage(this) && id in nodes
      ensures WellFormedPage(r)
    {
      this.(listeners := listeners[id := listeners[id] + {event}],
            writes := writes + multiset{ListenerAdded(id, event)})
    }

    /** `el.removeEventListener(event, lustreGenericEventHandler)`. */
    function RemoveEventListener(id: NodeId, event: string): (r: Page)
      requires WellFormedPage(this) && id in nodes
      ensures WellFormedPage(r)
    {
      this.(listeners := listeners[id := listeners[id] - {event}],
            writes := writes + multiset{ListenerRemoved(id, event)})
    }

    /** `registeredHandlers.set(el, handlers)`. */
    function SetHandlers(id: NodeId, handlers: map<string, Callback>): (r: Page)
      requires WellFormedPage(this) && id in nodes
      ensures WellFormedPage(r)
    {
      this.(registry := registry[id := handlers])
    }

    /** `console.warn(message)`. */
    function Warn(message: string): (r: Page)
      ensures WellFormedPage(this) ==> WellFormedPage(r)
      ensures ValidPage(this) ==> ValidPage(r)
    {
      this.(warnings := warnings + [message])
    }
  }

  /** Appending a node that sits in no list changes only the parent's list, which gains
      it at the end. */
  lemma AppendOrphan(p: Page, parent: NodeId, c: NodeId)
    requires WellFormedPage(p) && parent in p.nodes && p.nodes[parent].ElementNode?
    requires c in p.nodes && c != parent && Detach(p.nodes, c) == p.nodes
    ensures var r := p.AppendChild(parent, c);
            && r.nodes[parent].childNodes == p.nodes[parent].childNodes + [c]
            && SameExcept(p.nodes, r.nodes, parent)
  {
    UpdatedSameExcept(p.nodes, parent, p.nodes[parent].(childNodes := p.nodes[parent].childNodes + [c]));
  }

  /** Putting a node that sits in no list in the place of a child changes only the
      parent's list. */
  lemma ReplaceOrphan(p: Page, parent: NodeId, c: NodeId, oldChild: NodeId)
    requires WellFormedPage(p) && parent in p.nodes && p.nodes[parent].ElementNode?
    requires c in p.nodes && c != parent && Detach(p.nodes, c) == p.nodes
    requires oldChild in p.nodes[parent].childNodes && c != oldChild
    ensures var r := p.ReplaceChild(parent, c, oldChild);
            && r.nodes[parent].childNodes == ReplaceWith(p.nodes[parent].childNodes, oldChild, c)
            && SameExcept(p.nodes, r.nodes, parent)
  {
    UpdatedSameExcept(p.nodes, parent,
                      p.nodes[parent].(childNodes := ReplaceWith(p.nodes[parent].childNodes, oldChild, c)));
  }

  /** The heap is well formed and the registry and listener sets speak of its nodes. */
  ghost predicate WellFormedPage(p: Page)
  {
    HeapOk(p.nodes, p.nextId) && p.registry.Keys <= p.nodes.Keys && p.listeners.Keys == p.nodes.Keys
  }

  /** Between two renders a listener is attached exactly for the registered events. */
  ghost predicate ValidPage(p: Page)
  {
    WellFormedPage(p) && forall id | id in p.nodes :: p.listeners[id] == RegisteredIn(p.registry, id)
  }

  /** The page, held as mutable state. Each method is the page function of the same
      name, performed in place. */
  class Document {
    var nodes: map<NodeId, Node>
    var nextId: NodeId
    /** `registeredHandlers`: per element, the callback for each event name. */
    var registry: map<NodeId, map<string, Callback>>
    /** The event names for which `lustreGenericEventHandler` is attached, per node. */
    var listeners: map<NodeId, set<string>>
    var writes: multiset<Mutation>
    /** The messages passed to `console.warn`. */
    var warnings: seq<string>

    function Snapshot(): Page
      reads this
    {
      Page(nodes, nextId, registry, listeners, writes, warnings)
    }

    ghost predicate WellFormed()
      reads this
    {
      WellFormedPage(Snapshot())
    }

    ghost predicate Valid()
      reads this
    {
      ValidPage(Snapshot())
    }

    constructor()
      ensures Valid()
      ensures nodes == map[] && registry == map[] && listeners == map[]
      ensures writes == multiset{} && warnings == []
    {
      nodes := map[];
      nextId := 0;
      registry := map[];
      listeners := map[];
      writes := multiset{};
      warnings := [];
    }

    method CreateTextNode(data: string) returns (id: NodeId)
      requires WellFormed()
      modifies this
      ensures WellFormed() && Grew(old(nodes), nodes)
      ensures id == old(nextId) && id !in old(nodes)
      ensures Snapshot() == old(Snapshot()).CreateTextNode(data)
    {
      ghost var r := Snapshot().CreateTextNode(data);
      id := nextId;
      nodes := nodes[id := TextNode(data)];
      listeners := listeners[id := {}];
      nextId := nextId + 1;
      writes := writes + multiset{NodeCreated(id)};
      assert Snapshot() == r;
    }

    method CreateElementNs(namespace: string, tag: string) returns (id: NodeId)
      requires WellFormed()
      modifies this
      ensures WellFormed() && Grew(old(nodes), nodes)
      ensures id == old(nextId) && id !in old(nodes)
      ensures Snapshot() == old(Snapshot()).CreateElementNs(namespace, tag)
    {
      ghost var r := Snapshot().CreateElementNs(namespace, tag);
      id := nextId;
      nodes := nodes[id := ElementNode(tag, namespace, map[], map[], [], None)];
      listeners := listeners[id := {}];
      nextId := nextId + 1;
      writes := writes + multiset{NodeCreated(id)};
      assert Snapshot() == r;
    }

    method AppendChild(parent: NodeId, child: NodeId)
      requires WellFormed()
      requires parent in nodes && nodes[parent].ElementNode? && child in nodes && child != parent
      modifies this
      ensures WellFormed() && Grew(old(nodes), nodes)
      ensures Snapshot() == old(Snapshot()).AppendChild(parent, child)
    {
      ghost var r := Snapshot().AppendChild(parent, child);
      nodes := Appended(nodes, parent, child);
      writes := writes + multiset{ChildAppended(parent, child)};
      assert Snapshot() == r;
    }

    /** `parent.replaceChild(newChild, oldChild)`: fails (a `NotFoundError`), changing
        nothing, when `oldChild` is not a child of `parent`. */
    method ReplaceChild(parent: NodeId, newChild: NodeId, oldChild: NodeId) returns (ok: bool)
      requires WellFormed()
      requires parent in nodes && nodes[parent].ElementNode? && newChild in nodes
      requires newChild != parent && newChild != oldChild
      modifies this
      ensures WellFormed() && Grew(old(nodes), nodes)
      ensures ok <==> oldChild in old(nodes)[parent].childNodes
      ensures !ok ==> Snapshot() == old(Snapshot())
      ensures ok ==> Snapshot() == old(Snapshot()).ReplaceChild(parent, newChild, oldChild)
    {
      if oldChild !in nodes[parent].childNodes {
        return false;
      }
      ghost var r := Snapshot().ReplaceChild(parent, newChild, oldChild);
      nodes := Replaced(nodes, parent, newChild, oldChild);
      writes := writes + multiset{ChildReplaced(parent, newChild, oldChild)};
      assert Snapshot() == r;
      ok := true;
    }

    method RemoveChild(parent: NodeId, child: NodeId)
      requires WellFormed()
      requires parent in nodes && nodes[parent].ElementNode? && child in nodes[parent].childNodes
      modifies this
      ensures WellFormed() && Grew(old(nodes), nodes)
      ensures Snapshot() == old(Snapshot()).RemoveChild(parent, child)
    {
      ghost var r := Snapshot().RemoveChild(parent, child);
      nodes := Removed(nodes, parent, child);
      writes := writes + multiset{ChildRemoved(parent, child)};
      assert Snapshot() == r;
    }

    method InsertBefore(parent: NodeId, node: NodeId, ref: Option<NodeId>)
      requires WellFormed()
      requires parent in nodes && nodes[parent].ElementNode? && node in nodes && node != parent
      requires ref.Some? ==> ref.value in nodes[parent].childNodes && ref.value != node
      modifies this
      ensures WellFormed() && Grew(old(nodes), nodes)
      ensures Snapshot() == old(Snapshot()).InsertBefore(parent, node, ref)
    {
      ghost var r := Snapshot().InsertBefore(parent, node, ref);
      nodes := Inserted(nodes, parent, node, ref);
      writes := writes + multiset{ChildInserted(parent, node, ref)};
      assert Snapshot() == r;
    }

    method SetText(id: NodeId, data: string)
      requires WellFormed() && id in nodes && nodes[id].TextNode?
      modifies this
      ensures WellFormed() && Grew(old(nodes), nodes)
      ensures Snapshot() == old(Snapshot()).SetText(id, data)
    {
      ghost var r := Snapshot().SetText(id, data);
      nodes := nodes[id := TextNode(data)];
      writes := writes + multiset{TextSet(id, data)};
      assert Snapshot() == r;
    }

    method SetAttribute(id: NodeId, name: string, value: string)
      requires WellFormed() && id in nodes && nodes[id].ElementNode?
      modifies this
      ensures WellFormed() && Grew(old(nodes), nodes)
      ensures Snapshot() == old(Snapshot()).SetAttribute(id, name, value)
    {
      ghost var r := Snapshot().SetAttribute(id, name, value);
      nodes := nodes[id := nodes[id].(attributes := nodes[id].attributes[name := value])];
      writes := writes + multiset{AttributeSet(id, name, value)};
      assert Snapshot() == r;
    }

    method RemoveAttribute(id: NodeId, name: string)
      requires WellFormed() && id in nodes && nodes[id].ElementNode?
      modifies this
      ensures WellFormed() && Grew(old(nodes), nodes)
      ensures Snapshot() == old(Snapshot()).RemoveAttribute(id, name)
    {
      ghost var r := Snapshot().RemoveAttribute(id, name);
      nodes := nodes[id := nodes[id].(attributes := nodes[id].attributes - {name})];
      writes := writes + multiset{AttributeRemoved(id, name)};
      assert Snapshot() == r;
    }

    method SetProperty(id: NodeId, name: string, value: Value)
      requires WellFormed() && id in nodes && nodes[id].ElementNode?
      modifies this
      ensures WellFormed() && Grew(old(nodes), nodes)
      ensures Snapshot() == old(Snapshot()).SetProperty(id, name, value)
    {
      ghost var r := Snapshot().SetProperty(id, name, value);
      nodes := nodes[id := nodes[id].(properties := nodes[id].properties[name := value])];
      writes := writes + multiset{PropertySet(id, name, value)};
      assert Snapshot() == r;
    }

    method SetInnerHtml(id: NodeId, html: string)
      requires WellFormed() && id in nodes && nodes[id].ElementNode?
      modifies this
      ensures WellFormed() && Grew(old(nodes), nodes)
      ensures Snapshot() == old(Snapshot()).SetInnerHtml(id, html)
    {
      ghost var r := Snapshot().SetInnerHtml(id, html);
      nodes := nodes[id := nodes[id].(childNodes := [], innerHtml := Some(html))];
      writes := writes + multiset{InnerHtmlSet(id, html)};
      assert Snapshot() == r;
    }

    method AddEventListener(id: NodeId, event: string)
      requires WellFormed() && id in nodes
      modifies this
      ensures WellFormed()
      ensures Snapshot() == old(Snapshot()).AddEventListener(id, event)
    {
      listeners := listeners[id := listeners[id] + {event}];
      writes := writes + multiset{ListenerAdded(id, event)};
    }

    method RemoveEventListener(id: NodeId, event: string)
      requires WellFormed() && id in nodes
      modifies this
      ensures WellFormed()
      ensures Snapshot() == old(Snapshot()).RemoveEventListener(id, event)
    {
      listeners := listeners[id := listeners[id] - {event}];
      writes := writes + multiset{ListenerRemoved(id, event)};
    }

    method SetHandlers(id: NodeId, handlers: map<string, Callback>)
      requires WellFormed() && id in nodes
      modifies this
      ensures WellFormed()
      ensures Snapshot() == old(Snapshot()).SetHandlers(id, handlers)
    {
      registry := registry[id := handlers];
    }

    method Warn(message: string)
      modifies this
      ensures Snapshot() == old(Snapshot()).Warn(message)
    {
      warnings := warnings + [message];
    }
  }
}
