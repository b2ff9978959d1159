/** `createElementNode` as a function of the page: pick the element to work on (the
    previous one when it can be morphed, a fresh one otherwise), give it a handler map,
    apply the attribute phase, then either record the key, or apply raw HTML and stop,
    and finally run the child phase. `Render.CreateElementNode` performs it on the
    page and is proved to match. */
module Element {
  import opened Prelude
  import opened Vdom
  import opened Dom
  import Attributes
  import opened Children

  /** `next.namespace || "http://www.w3.org/1999/xhtml"`. */
  function NamespaceOf(v: VNode): string
    requires v.Element?
  {
    if v.namespace == "" then XhtmlNamespace else v.namespace
  }

  /** `canMorph`: the previous node is an element of the same local name and namespace. */
  predicate CanMorph(nodes: map<NodeId, Node>, prev: Option<NodeId>, v: VNode)
    requires v.Element?
  {
    && prev.Some? && prev.value in nodes && nodes[prev.value].ElementNode?
    && nodes[prev.value].localName == v.tag && nodes[prev.value].namespaceUri == NamespaceOf(v)
  }

  /** The page once `el` has an entry in `registeredHandlers`: an empty one if it had none. */
  function WithHandlerMap(page: Page, el: NodeId): (r: Page)
    requires WellFormedPage(page) && el in page.nodes
    ensures WellFormedPage(r) && el in r.registry && (ValidPage(page) ==> ValidPage(r))
    ensures r == page.(registry := r.registry)
    ensures el in page.registry ==> r == page
  {
    if el in page.registry then page else page.SetHandlers(el, map[])
  }

  /** The state of the attribute loop at its start on `el` of `page`. */
  function AttrStart(page: Page, el: NodeId, canMorph: bool): Attributes.AttrPass
    requires el in page.nodes && page.nodes[el].ElementNode? && el in page.registry && el in page.listeners
  {
    Attributes.Start(page.nodes[el], page.registry[el], page.listeners[el], canMorph)
  }

  /** `page` with the element record, handler map, listeners and DOM calls of `p`, a
      state of the attribute phase on `el`. */
  function WithAttrPass(page: Page, el: NodeId, p: Attributes.AttrPass): Page
  {
    page.(nodes := page.nodes[el := p.el], registry := page.registry[el := p.handlers],
          listeners := page.listeners[el := p.listening], writes := page.writes + p.writes)
  }

  /** The attribute phase on `el`. */
  function AttrPhase(page: Page, el: NodeId, canMorph: bool, attrs: seq<Attr>): Attributes.AttrPass
    requires el in page.nodes && page.nodes[el].ElementNode? && el in page.registry && el in page.listeners
  {
    Attributes.Pass(el, canMorph, AttrStart(page, el, canMorph), attrs)
  }

  /** Replacing an element's record by one of the same tag, namespace and children keeps
      the heap well formed. */
  lemma SameShapeKeepsHeap(nodes: map<NodeId, Node>, nextId: NodeId, id: NodeId, n: Node)
    requires HeapOk(nodes, nextId) && id in nodes && nodes[id].ElementNode? && n.ElementNode?
    requires n.childNodes == nodes[id].childNodes
    requires n.localName == nodes[id].localName && n.namespaceUri == nodes[id].namespaceUri
    ensures HeapOk(nodes[id := n], nextId) && Grew(nodes, nodes[id := n])
  {
  }

  /** The attribute phase keeps the page valid: every event left in the handler map
      keeps its listener and no other one is kept. */
  lemma AttrPhaseKeepsValid(page: Page, el: NodeId, canMorph: bool, attrs: seq<Attr>)
    requires ValidPage(page) && el in page.nodes && page.nodes[el].ElementNode? && el in page.registry
    ensures var r := WithAttrPass(page, el, AttrPhase(page, el, canMorph, attrs));
            ValidPage(r) && Grew(page.nodes, r.nodes)
  {
    var start := AttrStart(page, el, canMorph);
    assert page.listeners[el] == RegisteredIn(page.registry, el);
    Attributes.ListenersMatchHandlers(el, canMorph, start, attrs);
    var p := AttrPhase(page, el, canMorph, attrs);
    ShapedPassKeepsValid(page, el, p);
  }

  /** A pass that keeps the element's tag, namespace and children, and listens for
      exactly its handlers' events, keeps the page valid. */
  lemma ShapedPassKeepsValid(page: Page, el: NodeId, p: Attributes.AttrPass)
    requires ValidPage(page) && el in page.nodes && page.nodes[el].ElementNode? && p.el.ElementNode?
    requires p.el.childNodes == page.nodes[el].childNodes
    requires p.el.localName == page.nodes[el].localName && p.el.namespaceUri == page.nodes[el].namespaceUri
    requires p.listening == p.handlers.Keys
    ensures var r := WithAttrPass(page, el, p);
            ValidPage(r) && Grew(page.nodes, r.nodes)
  {
    SameShapeKeepsHeap(page.nodes, page.nextId, el, p.el);
    var r := WithAttrPass(page, el, p);
    assert HeapOk(r.nodes, r.nextId);
    forall id | id in r.nodes
      ensures r.listeners[id] == RegisteredIn(r.registry, id)
    {
      if id != el {
        assert r.listeners[id] == page.listeners[id];
        assert RegisteredIn(r.registry, id) == RegisteredIn(page.registry, id);
      }
    }
  }

  /** The page after the attribute phase on `el`. */
  function AttributesApplied(page: Page, el: NodeId, canMorph: bool, attrs: seq<Attr>): (r: Page)
    requires ValidPage(page) && el in page.nodes && page.nodes[el].ElementNode? && el in page.registry
    ensures ValidPage(r) && Grew(page.nodes, r.nodes)
    ensures r.nextId == page.nextId && r.warnings == page.warnings
    ensures r.nodes[el].childNodes == page.nodes[el].childNodes
  {
    AttrPhaseKeepsValid(page, el, canMorph, attrs);
    WithAttrPass(page, el, AttrPhase(page, el, canMorph, attrs))
  }

  /** What `createElementNode` leaves: the page, the element, the work list and whether
      a `TypeError` was thrown. */
  datatype Built = Built(page: Page, el: NodeId, queue: seq<WorkItem>, fault: bool)

  /** The child phase's view of `page`, with the cursor, the keys seen and the work list. */
  function PassOf(page: Page, cursor: Option<NodeId>, seen: set<string>, queue: seq<WorkItem>, fault: bool): ChildPass
  {
    ChildPass(page.nodes, page.nextId, page.listeners, page.writes, page.warnings, cursor, seen, queue, fault)
  }

  /** `page` after the child phase left `r`. */
  function PageOf(page: Page, r: ChildPass): Page
  {
    page.(nodes := r.nodes, nextId := r.nextId, listeners := r.listeners, writes := r.writes,
          warnings := r.warnings)
  }

  /** The child phase keeps the page valid: the registry is untouched and the only new
      nodes, placeholders, listen to nothing. */
  lemma ChildPhaseKeepsValid(page: Page, s: ChildPass, r: ChildPass)
    requires ValidPage(page) && s.nodes == page.nodes && s.listeners == page.listeners
    requires HeapOk(r.nodes, r.nextId) && r.listeners.Keys == r.nodes.Keys && Grew(s.nodes, r.nodes)
    requires ListenersKept(s.listeners, r.listeners)
    ensures ValidPage(PageOf(page, r))
  {
    var q := PageOf(page, r);
    forall id | id in q.nodes
      ensures q.listeners[id] == RegisteredIn(q.registry, id)
    {
      if id !in page.nodes {
        assert id !in page.registry;
      }
    }
  }

  /** The child phase of `createElementNode` on `el`: keyed on a morph whose first
      incoming child has a key, with the previous children indexed by key and the
      incoming keys collected; by position otherwise. */
  function ChildrenDiffed(page: Page, el: NodeId, canMorph: bool, v: VNode, queue: seq<WorkItem>): (b: Built)
    requires ValidPage(page) && v.Element? && el in page.nodes && page.nodes[el].ElementNode?
    requires QueueOk(page.nodes, queue)
    ensures ValidPage(b.page) && Grew(page.nodes, b.page.nodes) && QueueOk(b.page.nodes, b.queue)
    ensures b.el == el && b.page.registry == page.registry
    ensures QueueSize(b.queue) < QueueSize(queue) + 1 + SizeOfAll(v.children)
  {
    var keyedMode := KeyedMode(canMorph, v.children);
    var cs := page.nodes[el].childNodes;
    var keyed := if keyedMode then KeyedChildren(page.nodes, cs) else map[];
    var incoming := if keyedMode then IncomingKeys(Flatten(v.children)) else {};
    var s := PassOf(page, Head(cs), {}, queue, false);
    var r := Phase(el, keyedMode, incoming, keyed, s, v.children);
    ChildPhaseKeepsValid(page, s, r);
    Built(PageOf(page, r), el, r.queue, r.fault)
  }

  /** The element `createElementNode` works on: the previous node on a morph, otherwise
      the node `createElementNS` makes next. */
  function TargetOf(page: Page, prev: Option<NodeId>, v: VNode): NodeId
    requires v.Element?
  {
    if CanMorph(page.nodes, prev, v) then prev.value else page.nextId
  }

  /** The page once the element exists and has a handler map. */
  function Registered(page: Page, prev: Option<NodeId>, v: VNode): (r: Page)
    requires ValidPage(page) && v.Element?
    ensures ValidPage(r) && Grew(page.nodes, r.nodes)
    ensures var el := TargetOf(page, prev, v);
            && el in r.nodes && r.nodes[el].ElementNode? && el in r.registry
            && r.nodes[el].localName == v.tag && r.nodes[el].namespaceUri == NamespaceOf(v)
  {
    var el := TargetOf(page, prev, v);
    var created := if CanMorph(page.nodes, prev, v) then page else page.CreateElementNs(NamespaceOf(v), v.tag);
    WithHandlerMap(created, el)
  }

  /** The raw HTML the attribute phase collected. */
  function PendingHtml(page: Page, prev: Option<NodeId>, v: VNode): Option<Value>
    requires ValidPage(page) && v.Element?
  {
    var r := Registered(page, prev, v);
    AttrPhase(r, TargetOf(page, prev, v), CanMorph(page.nodes, prev, v), v.attrs).innerHtml
  }

  /** The page after the attribute phase. */
  function Attributed(page: Page, prev: Option<NodeId>, v: VNode): (r: Page)
    requires ValidPage(page) && v.Element?
    ensures ValidPage(r) && Grew(page.nodes, r.nodes)
    ensures var el := TargetOf(page, prev, v);
            && el in r.nodes && r.nodes[el].ElementNode?
            && r.nodes[el].localName == v.tag && r.nodes[el].namespaceUri == NamespaceOf(v)
  {
    var registered := Registered(page, prev, v);
    var r := AttributesApplied(registered, TargetOf(page, prev, v), CanMorph(page.nodes, prev, v), v.attrs);
    GrewTransitive(page.nodes, registered.nodes, r.nodes);
    r
  }

  /** After the attributes: a key is recorded on the element and the children are
      diffed; without a key, raw HTML replaces the children and ends the call; otherwise
      the children are diffed. */
  function Completed(page: Page, el: NodeId, canMorph: bool, v: VNode, html: Option<Value>,
                     queue: seq<WorkItem>): (b: Built)
    requires ValidPage(page) && v.Element? && el in page.nodes && page.nodes[el].ElementNode?
    requires QueueOk(page.nodes, queue)
    ensures ValidPage(b.page) && Grew(page.nodes, b.page.nodes) && QueueOk(b.page.nodes, b.queue)
    ensures b.el == el
    ensures QueueSize(b.queue) < QueueSize(queue) + 1 + SizeOfAll(v.children)
  {
    if v.key != "" then
      var keyedPage := page.SetAttribute(el, KeyAttribute, v.key);
      QueueOkGrew(page.nodes, keyedPage.nodes, queue);
      var b := ChildrenDiffed(keyedPage, el, canMorph, v, queue);
      GrewTransitive(page.nodes, keyedPage.nodes, b.page.nodes);
      b
    else if html.Some? then
      var htmlPage := page.SetInnerHtml(el, Stringify(html.value));
      QueueOkGrew(page.nodes, htmlPage.nodes, queue);
      Built(htmlPage, el, queue, false)
    else
      ChildrenDiffed(page, el, canMorph, v, queue)
  }

  /** `createElementNode`. The element is the previous node exactly when that can be
      morphed, and otherwise a fresh node; either way it has the vnode's tag and
      namespace. The page stays valid and the work list only gains items for the
      vnode's children. */
  function CreateElement(page: Page, prev: Option<NodeId>, v: VNode, queue: seq<WorkItem>): (b: Built)
    requires ValidPage(page) && v.Element? && QueueOk(page.nodes, queue)
    requires prev.Some? ==> prev.value in page.nodes
    ensures ValidPage(b.page) && Grew(page.nodes, b.page.nodes) && QueueOk(b.page.nodes, b.queue)
    ensures b.el in b.page.nodes && b.page.nodes[b.el].ElementNode?
    ensures b.page.nodes[b.el].localName == v.tag && b.page.nodes[b.el].namespaceUri == NamespaceOf(v)
    ensures prev == Some(b.el) <==> CanMorph(page.nodes, prev, v)
    ensures !CanMorph(page.nodes, prev, v) ==> b.el == page.nextId && b.el !in page.nodes
    ensures QueueSize(b.queue) < QueueSize(queue) + Size(v)
  {
    var attributed := Attributed(page, prev, v);
    QueueOkGrew(page.nodes, attributed.nodes, queue);
    var b := Completed(attributed, TargetOf(page, prev, v), CanMorph(page.nodes, prev, v), v, PendingHtml(page, prev, v), queue);
    CompletedFacts(page, prev, v, attributed, b);
    b
  }

  /** What `CreateElement` promises of the page and element, from the facts about its
      two phases. */
  lemma CompletedFacts(page: Page, prev: Option<NodeId>, v: VNode, attributed: Page, b: Built)
    requires ValidPage(page) && v.Element?
    requires prev.Some? ==> prev.value in page.nodes
    requires attributed == Attributed(page, prev, v)
    requires Grew(attributed.nodes, b.page.nodes) && b.el == TargetOf(page, prev, v)
    ensures Grew(page.nodes, b.page.nodes)
    ensures b.el in b.page.nodes && b.page.nodes[b.el].ElementNode?
    ensures b.page.nodes[b.el].localName == v.tag && b.page.nodes[b.el].namespaceUri == NamespaceOf(v)
    ensures prev == Some(b.el) <==> CanMorph(page.nodes, prev, v)
    ensures !CanMorph(page.nodes, prev, v) ==> b.el == page.nextId && b.el !in page.nodes
    ensures Size(v) == 1 + SizeOfAll(v.children)
  {
    GrewTransitive(page.nodes, attributed.nodes, b.page.nodes);
    GrewAt(attributed.nodes, b.page.nodes, b.el);
    TargetFacts(page, prev, v);
  }

  /** The target is the previous node exactly when it can be morphed, and otherwise the
      id the next created node takes, which is not yet in use. */
  lemma TargetFacts(page: Page, prev: Option<NodeId>, v: VNode)
    requires ValidPage(page) && v.Element?
    requires prev.Some? ==> prev.value in page.nodes
    ensures prev == Some(TargetOf(page, prev, v)) <==> CanMorph(page.nodes, prev, v)
    ensures !CanMorph(page.nodes, prev, v) ==>
              TargetOf(page, prev, v) == page.nextId && page.nextId !in page.nodes
  {
  }

  /** Without a key, a `dangerous-unescaped-html` entry replaces the element's children
      by the markup: the vnode's children are not diffed and nothing is queued. */
  lemma RawHtmlSkipsChildren(page: Page, prev: Option<NodeId>, v: VNode, queue: seq<WorkItem>)
    requires ValidPage(page) && v.Element? && QueueOk(page.nodes, queue)
    requires prev.Some? ==> prev.value in page.nodes
    requires v.key == "" && PendingHtml(page, prev, v).Some?
    ensures var b := CreateElement(page, prev, v, queue);
            && b.queue == queue && !b.fault
            && b.page.nodes[b.el].childNodes == []
            && b.page.nodes[b.el].innerHtml == Some(Stringify(PendingHtml(page, prev, v).value))
  {
  }

  /** The work items `PositionalItems` builds against no previous children: incoming
      vnode `i` is queued with no previous node, in reverse order. */
  lemma {:induction false} PositionalItemsFresh(el: NodeId, vs: seq<VNode>)
    ensures var q := PositionalItems(el, [], 0, vs);
            |q| == |vs| && forall i | 0 <= i < |vs| :: q[|vs| - 1 - i] == WorkItem(None, vs[i], el)
  {
    if vs != [] {
      var init := vs[..|vs| - 1];
      PositionalItemsFresh(el, init);
      var q := PositionalItems(el, [], 0, vs);
      assert q == [WorkItem(None, vs[|vs| - 1], el)] + PositionalItems(el, [], 0, init);
      forall i | 0 <= i < |vs|
        ensures q[|vs| - 1 - i] == WorkItem(None, vs[i], el)
      {
        if i < |vs| - 1 {
          assert q[|vs| - 1 - i] == PositionalItems(el, [], 0, init)[|init| - 1 - i];
          assert vs[i] == init[i];
        }
      }
    }
  }

  /** The child phase on an element with no children that is not morphed: it pairs by
      position, so every incoming child is queued against no previous node. */
  lemma EmptyChildrenDiffed(page: Page, el: NodeId, v: VNode, queue: seq<WorkItem>)
    requires ValidPage(page) && v.Element? && el in page.nodes && page.nodes[el].ElementNode?
    requires page.nodes[el].childNodes == [] && QueueOk(page.nodes, queue)
    ensures var b := ChildrenDiffed(page, el, false, v, queue);
            && !b.fault && b.page.nodes[el].childNodes == []
            && b.queue == PositionalItems(el, [], 0, Flatten(v.children)) + queue
            && SameExcept(page.nodes, b.page.nodes, el) && NewOnly(page.nodes, b.page.nodes, el)
  {
    var s := PassOf(page, Head([]), {}, queue, false);
    assert !KeyedMode(false, v.children);
    UnkeyedPhase(el, {}, map[], s, v.children);
    var r := Phase(el, false, {}, map[], s, v.children);
    assert ChildrenDiffed(page, el, false, v, queue) == Built(PageOf(page, r), el, r.queue, r.fault);
    assert r.nodes[el].childNodes == [];
    UpdatedSameExcept(page.nodes, el, page.nodes[el].(childNodes := page.nodes[el].childNodes[..0]));
  }

  /** The child phase of a keyed morph whose previous children carry exactly the keys of
      the incoming elements, each once: every incoming element `i` is reconciled against
      the previous child with its key, which `createElementNode` moves to position `i`;
      no node is created, nothing is thrown and nothing is warned about. */
  lemma KeyedChildrenDiffed(page: Page, el: NodeId, v: VNode, queue: seq<WorkItem>)
    requires ValidPage(page) && v.Element? && el in page.nodes && page.nodes[el].ElementNode?
    requires QueueOk(page.nodes, queue) && KeyedMode(true, v.children)
    requires KeysCorrespond(page.nodes, page.nodes[el].childNodes, Flatten(v.children))
    ensures var b := ChildrenDiffed(page, el, true, v, queue);
            var cs := page.nodes[el].childNodes;
            var vs := Flatten(v.children);
            && !b.fault && |b.page.nodes[el].childNodes| == |vs|
            && (forall i | 0 <= i < |vs| ::
                  b.page.nodes[el].childNodes[i] in cs
                  && KeyOf(page.nodes[b.page.nodes[el].childNodes[i]]) == Some(vs[i].key))
            && b.queue == PositionalItems(el, b.page.nodes[el].childNodes, 0, vs) + queue
            && b.page.nextId == page.nextId && b.page.warnings == page.warnings
  {
    var cs := page.nodes[el].childNodes;
    var s := PassOf(page, Head(cs), {}, queue, false);
    KeyedPhaseMatchesKeys(el, s, v.children);
  }

  /** A fresh element has no children to pair with: unless raw HTML takes over, each
      incoming child (fragments flattened) is queued against no previous node (see
      `PositionalItemsFresh`), nothing is removed and no `TypeError` can occur. */
  lemma FreshElementQueuesChildren(page: Page, prev: Option<NodeId>, v: VNode, queue: seq<WorkItem>)
    requires ValidPage(page) && v.Element? && QueueOk(page.nodes, queue)
    requires prev.Some? ==> prev.value in page.nodes
    requires !CanMorph(page.nodes, prev, v)
    requires v.key != "" || PendingHtml(page, prev, v).None?
    ensures var b := CreateElement(page, prev, v, queue);
            var flat := Flatten(v.children);
            && !b.fault && b.page.nodes[b.el].childNodes == []
            && b.queue == PositionalItems(b.el, [], 0, flat) + queue
  {
    var el := TargetOf(page, prev, v);
    var attributed := Attributed(page, prev, v);
    assert Registered(page, prev, v).nodes[el].childNodes == [];
    assert attributed.nodes[el].childNodes == [];
    QueueOkGrew(page.nodes, attributed.nodes, queue);
    CompletedFresh(attributed, el, v, PendingHtml(page, prev, v), queue);
  }

  /** The rest of `createElementNode` on an element without children: a key or no raw
      HTML leads to the child phase, which queues every incoming child against no
      previous node. */
  lemma CompletedFresh(page: Page, el: NodeId, v: VNode, html: Option<Value>, queue: seq<WorkItem>)
    requires ValidPage(page) && v.Element? && el in page.nodes && page.nodes[el].ElementNode?
    requires page.nodes[el].childNodes == [] && QueueOk(page.nodes, queue)
    requires v.key != "" || html.None?
    ensures var b := Completed(page, el, false, v, html, queue);
            && !b.fault && b.page.nodes[el].childNodes == []
            && b.queue == PositionalItems(el, [], 0, Flatten(v.children)) + queue
  {
    if v.key != "" {
      var keyedPage := page.SetAttribute(el, KeyAttribute, v.key);
      QueueOkGrew(page.nodes, keyedPage.nodes, queue);
      EmptyChildrenDiffed(keyedPage, el, v, queue);
    } else {
      EmptyChildrenDiffed(page, el, v, queue);
    }
  }

  /** The rest of `createElementNode` on an element without children touches no other
      node: the key, the raw HTML and the child phase all work on the element itself. */
  lemma CompletedFreshOnly(page: Page, el: NodeId, v: VNode, html: Option<Value>, queue: seq<WorkItem>)
    requires ValidPage(page) && v.Element? && el in page.nodes && page.nodes[el].ElementNode?
    requires page.nodes[el].childNodes == [] && QueueOk(page.nodes, queue)
    ensures var b := Completed(page, el, false, v, html, queue);
            && !b.fault && b.page.nodes[el].childNodes == []
            && SameExcept(page.nodes, b.page.nodes, el) && NewOnly(page.nodes, b.page.nodes, el)
            && (b.queue == queue || b.queue == PositionalItems(el, [], 0, Flatten(v.children)) + queue)
  {
    if v.key != "" {
      var keyedPage := page.SetAttribute(el, KeyAttribute, v.key);
      QueueOkGrew(page.nodes, keyedPage.nodes, queue);
      EmptyChildrenDiffed(keyedPage, el, v, queue);
      var n := page.nodes[el];
      UpdatedSameExcept(page.nodes, el, n.(attributes := n.attributes[KeyAttribute := v.key]));
      SameExceptTransitive(page.nodes, keyedPage.nodes, Completed(page, el, false, v, html, queue).page.nodes, el);
      NewOnlyTransitive(page.nodes, keyedPage.nodes, Completed(page, el, false, v, html, queue).page.nodes, el);
    } else if html.None? {
      EmptyChildrenDiffed(page, el, v, queue);
    } else {
      UpdatedSameExcept(page.nodes, el, page.nodes[el].(childNodes := [], innerHtml := Some(Stringify(html.value))));
    }
  }

  /** A fresh element is built apart from the page: `createElementNode` without a
      previous node to morph throws nothing, touches no node but the new one, leaves it
      without children, and queues at most its children, each against no previous node. */
  lemma FreshElementKeepsOthers(page: Page, prev: Option<NodeId>, v: VNode, queue: seq<WorkItem>)
    requires ValidPage(page) && v.Element? && QueueOk(page.nodes, queue)
    requires prev.Some? ==> prev.value in page.nodes
    requires !CanMorph(page.nodes, prev, v)
    ensures var b := CreateElement(page, prev, v, queue);
            && !b.fault && b.el == page.nextId && b.page.nodes[b.el].childNodes == []
            && SameExcept(page.nodes, b.page.nodes, b.el) && NewOnly(page.nodes, b.page.nodes, b.el)
            && (b.queue == queue || b.queue == PositionalItems(b.el, [], 0, Flatten(v.children)) + queue)
  {
    var el := TargetOf(page, prev, v);
    var registered := Registered(page, prev, v);
    var attributed := Attributed(page, prev, v);
    UpdatedSameExcept(page.nodes, el, ElementNode(v.tag, NamespaceOf(v), map[], map[], [], None));
    assert registered.nodes == page.nodes[el := ElementNode(v.tag, NamespaceOf(v), map[], map[], [], None)];
    UpdatedSameExcept(registered.nodes, el, AttrPhase(registered, el, false, v.attrs).el);
    QueueOkGrew(page.nodes, attributed.nodes, queue);
    CompletedFreshOnly(attributed, el, v, PendingHtml(page, prev, v), queue);
    SameExceptTransitive(page.nodes, registered.nodes, attributed.nodes, el);
    SameExceptTransitive(page.nodes, attributed.nodes, CreateElement(page, prev, v, queue).page.nodes, el);
    NewOnlyTransitive(page.nodes, registered.nodes, attributed.nodes, el);
    NewOnlyTransitive(page.nodes, attributed.nodes, CreateElement(page, prev, v, queue).page.nodes, el);
  }

  /** The fresh element sits in no child list, so placing it detaches nothing. */
  lemma FreshElementOrphan(page: Page, prev: Option<NodeId>, v: VNode, queue: seq<WorkItem>)
    requires ValidPage(page) && v.Element? && QueueOk(page.nodes, queue)
    requires prev.Some? ==> prev.value in page.nodes
    requires !CanMorph(page.nodes, prev, v)
    ensures var b := CreateElement(page, prev, v, queue);
            Detach(b.page.nodes, b.el) == b.page.nodes
  {
    var b := CreateElement(page, prev, v, queue);
    FreshElementKeepsOthers(page, prev, v, queue);
    FreshIsOrphan(page.nodes, page.nextId, page.nextId);
    forall id | id in b.page.nodes && b.page.nodes[id].ElementNode?
      ensures b.el !in b.page.nodes[id].childNodes
    {
      if id != b.el {
        assert b.page.nodes[id] == page.nodes[id];
      }
    }
    DetachOrphan(b.page.nodes, b.el);
  }
}
