/** `morph` as a function of the page: the work list of (previous node, vnode, parent)
    items, one turn per item popped, and what the turns do to the page. The methods of
    `Morph` perform it on a `Dom.Document` and are proved to match. */
module Reconciler {
  import opened Prelude
  import opened Vdom
  import opened Dom
  import Attributes
  import opened Children
  import opened Element

  /** The DOM exceptions `morph` can raise: `replaceChild` of a node that is not a child
      of the parent, and reading the key of a text node while dropping stale keyed
      children. Either ends the render. */
  datatype DomError = NotFoundError | TypeError

  /** One turn of `morph`'s loop: the page, the work list, the node produced for the
      `out ??=` assignment, and the exception thrown, if any. */
  datatype Turn = Turn(page: Page, queue: seq<WorkItem>, produced: Option<NodeId>, error: Option<DomError>)

  /** The turn for a text vnode: a fresh text node is appended when there is no
      previous node, a previous text node is kept (its text written only when it
      differs), and any other previous node is replaced by a fresh text node. */
  function TextTurn(page: Page, item: WorkItem, rest: seq<WorkItem>): (t: Turn)
    requires ValidPage(page) && ItemOk(page.nodes, item) && item.next.Text? && QueueOk(page.nodes, rest)
    ensures ValidPage(t.page) && Grew(page.nodes, t.page.nodes) && t.queue == rest
  {
    var content := item.next.content;
    match item.prev
    case None =>
      var created := page.CreateTextNode(content);
      var r := created.AppendChild(item.parent, page.nextId);
      GrewTransitive(page.nodes, created.nodes, r.nodes);
      Turn(r, rest, Some(page.nextId), None)
    case Some(p) =>
      if page.nodes[p].TextNode? then
        Turn(if page.nodes[p].data != content then page.SetText(p, content) else page, rest, Some(p), None)
      else
        var created := page.CreateTextNode(content);
        if p in created.nodes[item.parent].childNodes then
          var r := created.ReplaceChild(item.parent, page.nextId, p);
          GrewTransitive(page.nodes, created.nodes, r.nodes);
          Turn(r, rest, Some(page.nextId), None)
        else
          Turn(created, rest, None, Some(NotFoundError))
  }

  /** The turn for an element vnode: `createElementNode`, then the element is appended
      when there was no previous node, and replaces the previous node when it is not
      that node. */
  function ElementTurn(page: Page, item: WorkItem, rest: seq<WorkItem>): (t: Turn)
    requires ValidPage(page) && ItemOk(page.nodes, item) && item.next.Element? && QueueOk(page.nodes, rest)
    ensures ValidPage(t.page) && Grew(page.nodes, t.page.nodes) && QueueOk(t.page.nodes, t.queue)
    ensures QueueSize(t.queue) < QueueSize(rest) + Size(item.next)
  {
    var b := CreateElement(page, item.prev, item.next, rest);
    if b.fault then Turn(b.page, b.queue, None, Some(TypeError))
    else
      match item.prev
      case None =>
        var r := b.page.AppendChild(item.parent, b.el);
        GrewTransitive(page.nodes, b.page.nodes, r.nodes);
        QueueOkGrew(b.page.nodes, r.nodes, b.queue);
        Turn(r, b.queue, Some(b.el), None)
      case Some(p) =>
        if p == b.el then Turn(b.page, b.queue, Some(b.el), None)
        else if p in b.page.nodes[item.parent].childNodes then
          var r := b.page.ReplaceChild(item.parent, b.el, p);
          GrewTransitive(page.nodes, b.page.nodes, r.nodes);
          QueueOkGrew(b.page.nodes, r.nodes, b.queue);
          Turn(r, b.queue, Some(b.el), None)
        else Turn(b.page, b.queue, None, Some(NotFoundError))
  }

  /** The node `k` steps along the siblings of `prev` under `parent`: `prev?.nextSibling`
      taken `k` times. */
  function Advance(nodes: map<NodeId, Node>, parent: NodeId, prev: Option<NodeId>, k: nat): (r: Option<NodeId>)
    ensures k > 0 && r.Some? ==> r.value in ChildrenOf(nodes, parent)
  {
    if k == 0 then prev else NextSibling(nodes, parent, Advance(nodes, parent, prev, k - 1))
  }

  /** The items a fragment puts on the work list: element `i` is `unshift`ed against
      the previous node advanced `i` siblings, so the first element ends up last, to be
      popped first. */
  function Spread(nodes: map<NodeId, Node>, parent: NodeId, prev: Option<NodeId>, es: seq<VNode>): (q: seq<WorkItem>)
    ensures |q| == |es|
  {
    if es == [] then []
    else
      var init := es[..|es| - 1];
      [WorkItem(Advance(nodes, parent, prev, |es| - 1), es[|es| - 1], parent)] + Spread(nodes, parent, prev, init)
  }

  /** Element `i` of the fragment is queued against the previous node advanced `i`
      siblings, and the items run in reverse order of the elements. */
  lemma {:induction false} SpreadItems(nodes: map<NodeId, Node>, parent: NodeId, prev: Option<NodeId>, es: seq<VNode>)
    ensures var q := Spread(nodes, parent, prev, es);
            forall i | 0 <= i < |es| :: q[|es| - 1 - i] == WorkItem(Advance(nodes, parent, prev, i), es[i], parent)
  {
    if es != [] {
      var init := es[..|es| - 1];
      SpreadItems(nodes, parent, prev, init);
      assert forall i | 0 <= i < |init| :: es[i] == init[i];
    }
  }

  lemma {:induction false} SpreadOk(nodes: map<NodeId, Node>, nextId: NodeId, parent: NodeId,
                                    prev: Option<NodeId>, es: seq<VNode>)
    requires HeapOk(nodes, nextId) && ItemOk(nodes, WorkItem(prev, Text(""), parent))
    ensures QueueOk(nodes, Spread(nodes, parent, prev, es))
    ensures QueueSize(Spread(nodes, parent, prev, es)) == SizeOfAll(es)
  {
    if es != [] {
      var init := es[..|es| - 1];
      var last := es[|es| - 1];
      SpreadOk(nodes, nextId, parent, prev, init);
      var item := WorkItem(Advance(nodes, parent, prev, |es| - 1), last, parent);
      assert ItemOk(nodes, item) by {
        var a := Advance(nodes, parent, prev, |es| - 1);
        if a.Some? && |es| - 1 > 0 {
          assert a.value in ChildrenOf(nodes, parent);
          assert a.value != parent;
        }
      }
      var q := Spread(nodes, parent, prev, es);
      assert q == [item] + Spread(nodes, parent, prev, init);
      assert q[1..] == Spread(nodes, parent, prev, init);
      assert es == init + [last];
      SizeOfAllAppend(init, [last]);
      assert [last][1..] == [];
    }
  }

  /** The turn for a fragment: its elements go on the work list against the previous
      node and its following siblings. */
  function FragmentTurn(page: Page, item: WorkItem, rest: seq<WorkItem>): (t: Turn)
    requires ValidPage(page) && ItemOk(page.nodes, item) && item.next.Fragment? && QueueOk(page.nodes, rest)
    ensures ValidPage(t.page) && Grew(page.nodes, t.page.nodes) && QueueOk(t.page.nodes, t.queue)
    ensures QueueSize(t.queue) < QueueSize(rest) + Size(item.next)
  {
    var items := Spread(page.nodes, item.parent, item.prev, item.next.elements);
    SpreadOk(page.nodes, page.nextId, item.parent, item.prev, item.next.elements);
    QueueSizeAppend(items, rest);
    Turn(page, items + rest, None, None)
  }

  /** The fragment turn puts one item per element in front of the rest. */
  lemma FragmentTurnQueue(page: Page, item: WorkItem, rest: seq<WorkItem>)
    requires ValidPage(page) && ItemOk(page.nodes, item) && item.next.Fragment? && QueueOk(page.nodes, rest)
    ensures FragmentTurn(page, item, rest).queue
            == Spread(page.nodes, item.parent, item.prev, item.next.elements) + rest
    ensures FragmentTurn(page, item, rest).page == page
  {
  }

  /** One turn of `morph`'s loop on the item popped off the work list. */
  function TurnOf(page: Page, item: WorkItem, rest: seq<WorkItem>): (t: Turn)
    requires ValidPage(page) && ItemOk(page.nodes, item) && QueueOk(page.nodes, rest)
    ensures ValidPage(t.page) && Grew(page.nodes, t.page.nodes) && QueueOk(t.page.nodes, t.queue)
    ensures QueueSize(t.queue) < QueueSize(rest) + Size(item.next)
  {
    match item.next
    case Text(_) =>
      var t := TextTurn(page, item, rest);
      QueueOkGrew(page.nodes, t.page.nodes, rest);
      t
    case Element(_, _, _, _, _, _, _) => ElementTurn(page, item, rest)
    case Fragment(_) => FragmentTurn(page, item, rest)
  }

  /** What `morph` leaves: the page, and the node it returns or the exception it throws. */
  datatype Outcome = Outcome(page: Page, result: Result<Option<NodeId>, DomError>)

  /** `morph`'s loop: pop the last item, take its turn, and keep the first node produced. */
  function Run(page: Page, queue: seq<WorkItem>, out: Option<NodeId>): (o: Outcome)
    requires ValidPage(page) && QueueOk(page.nodes, queue)
    ensures ValidPage(o.page) && Grew(page.nodes, o.page.nodes)
    decreases QueueSize(queue)
  {
    if queue == [] then Outcome(page, Ok(out))
    else
      var rest := queue[..|queue| - 1];
      var item := queue[|queue| - 1];
      assert queue == rest + [item];
      QueueSizeAppend(rest, [item]);
      assert [item][1..] == [];
      var t := TurnOf(page, item, rest);
      if t.error.Some? then Outcome(t.page, Error(t.error.value))
      else
        var o := Run(t.page, t.queue, if out.Some? then out else t.produced);
        GrewTransitive(page.nodes, t.page.nodes, o.page.nodes);
        o
  }

  /** `morph(prev, next)`, `parent` being `prev.parentNode`. */
  function Morphed(page: Page, root: NodeId, parent: NodeId, next: VNode): Outcome
    requires ValidPage(page) && ItemOk(page.nodes, WorkItem(Some(root), next, parent))
    requires root in page.nodes[parent].childNodes
  {
    Run(page, [WorkItem(Some(root), next, parent)], None)
  }
  /** `Run` on a non-empty work list takes the turn of its last item. */
  lemma RunStep(page: Page, stack: seq<WorkItem>, out: Option<NodeId>)
    requires ValidPage(page) && QueueOk(page.nodes, stack) && stack != []
    ensures QueueOk(page.nodes, stack[..|stack| - 1]) && ItemOk(page.nodes, stack[|stack| - 1])
    ensures var t := TurnOf(page, stack[|stack| - 1], stack[..|stack| - 1]);
            && QueueSize(t.queue) < QueueSize(stack)
            && Run(page, stack, out)
               == if t.error.Some? then Outcome(t.page, Error(t.error.value))
                  else Run(t.page, t.queue, if out.Some? then out else t.produced)
  {
    var rest := stack[..|stack| - 1];
    var item := stack[|stack| - 1];
    assert stack == rest + [item];
    QueueSizeAppend(rest, [item]);
    assert [item][1..] == [];
  }

  /** Once `out` holds a node, `morph` returns that node or throws: the `??=` never
      overwrites it. */
  lemma {:induction false} OutKept(page: Page, queue: seq<WorkItem>, x: NodeId)
    requires ValidPage(page) && QueueOk(page.nodes, queue)
    ensures Run(page, queue, Some(x)).result.Ok? ==> Run(page, queue, Some(x)).result == Ok(Some(x))
    decreases QueueSize(queue)
  {
    if queue != [] {
      RunStep(page, queue, Some(x));
      var t := TurnOf(page, queue[|queue| - 1], queue[..|queue| - 1]);
      if t.error.None? {
        OutKept(t.page, t.queue, x);
      }
    }
  }

  /** A text vnode over a text node keeps that node: its text is written only when it
      differs, nothing else changes, and `morph` returns it. */
  lemma TextNodeReused(page: Page, root: NodeId, parent: NodeId, content: string)
    requires ValidPage(page) && ItemOk(page.nodes, WorkItem(Some(root), Text(content), parent))
    requires page.nodes[root].TextNode? && root in page.nodes[parent].childNodes
    ensures Morphed(page, root, parent, Text(content))
         == Outcome(if page.nodes[root].data == content then page else page.SetText(root, content), Ok(Some(root)))
  {
    var q := [WorkItem(Some(root), Text(content), parent)];
    RunStep(page, q, None);
    assert q[..0] == [];
  }

  /** A text vnode over an element child of `parent` puts a fresh text node, holding
      the content, in that element's place, and `morph` returns the new node. */
  lemma TextReplacesElement(page: Page, root: NodeId, parent: NodeId, content: string)
    requires ValidPage(page) && ItemOk(page.nodes, WorkItem(Some(root), Text(content), parent))
    requires page.nodes[root].ElementNode? && root in page.nodes[parent].childNodes
    ensures var o := Morphed(page, root, parent, Text(content));
            && o.result == Ok(Some(page.nextId))
            && page.nextId !in page.nodes && o.page.nodes[page.nextId] == TextNode(content)
            && o.page.nodes[parent].childNodes == ReplaceWith(page.nodes[parent].childNodes, root, page.nextId)
  {
    var q := [WorkItem(Some(root), Text(content), parent)];
    RunStep(page, q, None);
    assert q[..0] == [];
    var created := page.CreateTextNode(content);
    FreshIsOrphan(page.nodes, page.nextId, page.nextId);
    DetachOrphan(created.nodes, page.nextId);
  }

  /** An element vnode whose tag and namespace match the previous element morphs it in
      place: `morph` returns the same node unless it throws. */
  lemma MatchingElementKept(page: Page, root: NodeId, parent: NodeId, v: VNode)
    requires ValidPage(page) && ItemOk(page.nodes, WorkItem(Some(root), v, parent))
    requires v.Element? && CanMorph(page.nodes, Some(root), v) && root in page.nodes[parent].childNodes
    ensures Morphed(page, root, parent, v).result.Ok? ==> Morphed(page, root, parent, v).result == Ok(Some(root))
  {
    var q := [WorkItem(Some(root), v, parent)];
    RunStep(page, q, None);
    assert q[..0] == [];
    var t := TurnOf(page, q[0], []);
    if t.error.None? {
      OutKept(t.page, t.queue, root);
    }
  }

  /** An element vnode that cannot morph the previous node builds a fresh element and
      puts it in the previous node's place; the rest of the render works inside the new
      element, so it cannot fail and `morph` returns the new node. */
  lemma OtherElementReplaced(page: Page, root: NodeId, parent: NodeId, v: VNode)
    requires ValidPage(page) && ItemOk(page.nodes, WorkItem(Some(root), v, parent))
    requires v.Element? && !CanMorph(page.nodes, Some(root), v) && root in page.nodes[parent].childNodes
    ensures var o := Morphed(page, root, parent, v);
            && o.result == Ok(Some(page.nextId))
            && o.page.nodes[parent].childNodes == ReplaceWith(page.nodes[parent].childNodes, root, page.nextId)
            && SameExcept(page.nodes, o.page.nodes, parent)
  {
    var q := [WorkItem(Some(root), v, parent)];
    RunStep(page, q, None);
    assert q[..0] == [];
    FreshElementReplaces(page, q[0], []);
    var t := TurnOf(page, q[0], []);
    FreshBuilt(page.nextId, v, [], page.nextId);
    FreshRun(t.page, t.queue, Some(page.nextId), page.nextId);
    OutKept(t.page, t.queue, page.nextId);
    SameExceptBelow(page.nodes, page.nextId, t.page.nodes, Run(t.page, t.queue, Some(page.nextId)).page.nodes, parent);
  }

  /** Work items for nodes built during this render: no previous node, and a parent
      numbered from `n` on. */
  ghost predicate FreshQueue(q: seq<WorkItem>, n: NodeId)
  {
    forall i | 0 <= i < |q| :: q[i].prev.None? && q[i].parent >= n
  }

  /** Every node numbered below `n` is as it was. */
  ghost predicate SameBelow(before: map<NodeId, Node>, after: map<NodeId, Node>, n: NodeId)
  {
    forall x | x in before && x < n :: x in after && after[x] == before[x]
  }

  lemma SameExceptBelow(a: map<NodeId, Node>, n: NodeId, b: map<NodeId, Node>, c: map<NodeId, Node>, id: NodeId)
    requires forall x | x in a :: x < n
    requires SameExcept(a, b, id) && SameBelow(b, c, n)
    ensures SameExcept(a, c, id)
  {
  }

  lemma FreshQueueAppend(a: seq<WorkItem>, b: seq<WorkItem>, n: NodeId)
    requires FreshQueue(a, n) && FreshQueue(b, n)
    ensures FreshQueue(a + b, n)
  {
    forall i | 0 <= i < |a + b|
      ensures (a + b)[i].prev.None? && (a + b)[i].parent >= n
    {
      if i >= |a| {
        assert (a + b)[i] == b[i - |a|];
      }
    }
  }

  /** The work list a fresh element leaves: its children, if any, then the rest. */
  lemma FreshBuilt(el: NodeId, v: VNode, rest: seq<WorkItem>, n: NodeId)
    requires v.Element? && el >= n && FreshQueue(rest, n)
    ensures FreshQueue(PositionalItems(el, [], 0, Flatten(v.children)) + rest, n)
  {
    var vs := Flatten(v.children);
    var q := PositionalItems(el, [], 0, vs);
    PositionalItemsFresh(el, vs);
    forall j | 0 <= j < |q|
      ensures q[j].prev.None? && q[j].parent >= n
    {
      var i := |vs| - 1 - j;
      assert q[|vs| - 1 - i] == WorkItem(None, vs[i], el);
    }
    FreshQueueAppend(q, rest, n);
  }

  lemma {:induction false} AdvanceNone(nodes: map<NodeId, Node>, parent: NodeId, k: nat)
    ensures Advance(nodes, parent, None, k) == None
  {
    if k > 0 {
      AdvanceNone(nodes, parent, k - 1);
    }
  }

  /** A fragment without a previous node puts its elements on the work list against
      no previous node. */
  lemma SpreadFresh(nodes: map<NodeId, Node>, parent: NodeId, es: seq<VNode>, rest: seq<WorkItem>, n: NodeId)
    requires parent >= n && FreshQueue(rest, n)
    ensures FreshQueue(Spread(nodes, parent, None, es) + rest, n)
  {
    var q := Spread(nodes, parent, None, es);
    SpreadItems(nodes, parent, None, es);
    forall j | 0 <= j < |q|
      ensures q[j].prev.None? && q[j].parent >= n
    {
      var i := |es| - 1 - j;
      AdvanceNone(nodes, parent, i);
      assert q[|es| - 1 - i] == WorkItem(Advance(nodes, parent, None, i), es[i], parent);
    }
    FreshQueueAppend(q, rest, n);
  }

  /** A text vnode with no previous node: a fresh text node is appended to the parent,
      and nothing else changes. */
  lemma FreshTextTurn(page: Page, item: WorkItem, rest: seq<WorkItem>)
    requires ValidPage(page) && ItemOk(page.nodes, item) && QueueOk(page.nodes, rest)
    requires item.next.Text? && item.prev.None?
    ensures var t := TurnOf(page, item, rest);
            && t.error.None? && t.produced == Some(page.nextId) && t.queue == rest
            && t.page == page.CreateTextNode(item.next.content).AppendChild(item.parent, page.nextId)
            && t.page.nodes[item.parent].childNodes == page.nodes[item.parent].childNodes + [page.nextId]
            && SameExcept(page.nodes, t.page.nodes, item.parent)
  {
    var created := page.CreateTextNode(item.next.content);
    FreshIsOrphan(page.nodes, page.nextId, page.nextId);
    DetachOrphan(created.nodes, page.nextId);
    var r := created.AppendChild(item.parent, page.nextId);
    assert r.nodes == created.nodes[item.parent := created.nodes[item.parent].(childNodes := page.nodes[item.parent].childNodes + [page.nextId])];
  }

  /** An element vnode with no previous node: a fresh element is built and appended to
      the parent, nothing else changes, and only its children are queued. */
  lemma FreshElementTurn(page: Page, item: WorkItem, rest: seq<WorkItem>)
    requires ValidPage(page) && ItemOk(page.nodes, item) && QueueOk(page.nodes, rest)
    requires item.next.Element? && item.prev.None?
    ensures var t := ElementTurn(page, item, rest);
            && t.error.None? && t.produced == Some(page.nextId)
            && t.page.nodes[item.parent].childNodes == page.nodes[item.parent].childNodes + [page.nextId]
            && SameExcept(page.nodes, t.page.nodes, item.parent)
            && (t.queue == rest || t.queue == PositionalItems(page.nextId, [], 0, Flatten(item.next.children)) + rest)
  {
    var b := CreateElement(page, None, item.next, rest);
    FreshElementKeepsOthers(page, None, item.next, rest);
    FreshElementOrphan(page, None, item.next, rest);
    assert b.page.nodes[item.parent] == page.nodes[item.parent];
    var t := ElementTurn(page, item, rest);
    AppendOrphan(b.page, item.parent, b.el);
    SameExceptTransitive(page.nodes, b.page.nodes, t.page.nodes, item.parent);
  }

  lemma FreshQueueFront(queue: seq<WorkItem>, n: NodeId)
    requires FreshQueue(queue, n) && queue != []
    ensures FreshQueue(queue[..|queue| - 1], n)
    ensures queue[|queue| - 1].prev.None? && queue[|queue| - 1].parent >= n
  {
  }

  /** One turn on an item built during this render: it throws nothing, queues only
      such items, and leaves every node numbered below `n` as it was. */
  lemma FreshTurn(page: Page, item: WorkItem, rest: seq<WorkItem>, n: NodeId)
    requires ValidPage(page) && ItemOk(page.nodes, item) && QueueOk(page.nodes, rest)
    requires FreshQueue(rest, n) && item.prev.None? && item.parent >= n
    ensures var t := TurnOf(page, item, rest);
            t.error.None? && FreshQueue(t.queue, n) && SameBelow(page.nodes, t.page.nodes, n)
  {
    match item.next {
      case Text(_) =>
        FreshTextTurn(page, item, rest);
      case Element(_, _, _, _, _, _, _) =>
        FreshElementTurn(page, item, rest);
        FreshBuilt(page.nextId, item.next, rest, n);
      case Fragment(es) =>
        SpreadFresh(page.nodes, item.parent, es, rest, n);
    }
  }

  /** An element vnode whose previous node cannot be morphed: a fresh element is built
      and takes that node's place, nothing else changes, and only its children are
      queued. */
  lemma FreshElementReplaces(page: Page, item: WorkItem, rest: seq<WorkItem>)
    requires ValidPage(page) && ItemOk(page.nodes, item) && QueueOk(page.nodes, rest)
    requires item.next.Element? && item.prev.Some? && !CanMorph(page.nodes, item.prev, item.next)
    requires item.prev.value in page.nodes[item.parent].childNodes
    ensures var t := ElementTurn(page, item, rest);
            && t.error.None? && t.produced == Some(page.nextId)
            && t.page.nodes[item.parent].childNodes
               == ReplaceWith(page.nodes[item.parent].childNodes, item.prev.value, page.nextId)
            && SameExcept(page.nodes, t.page.nodes, item.parent)
            && (t.queue == rest || t.queue == PositionalItems(page.nextId, [], 0, Flatten(item.next.children)) + rest)
  {
    var b := CreateElement(page, item.prev, item.next, rest);
    FreshElementKeepsOthers(page, item.prev, item.next, rest);
    FreshElementOrphan(page, item.prev, item.next, rest);
    FreshElementReplaceTurn(page, item, rest);
    var r := b.page.ReplaceChild(item.parent, b.el, item.prev.value);
    ReplaceOrphan(b.page, item.parent, b.el, item.prev.value);
    SameExceptTransitive(page.nodes, b.page.nodes, r.nodes, item.parent);
  }

  /** The turn of a fresh element whose previous node is a child of the parent is the
      `replaceChild` branch. */
  lemma FreshElementReplaceTurn(page: Page, item: WorkItem, rest: seq<WorkItem>)
    requires ValidPage(page) && ItemOk(page.nodes, item) && QueueOk(page.nodes, rest)
    requires item.next.Element? && item.prev.Some? && !CanMorph(page.nodes, item.prev, item.next)
    requires item.prev.value in page.nodes[item.parent].childNodes
    ensures var b := CreateElement(page, item.prev, item.next, rest);
            && !b.fault && item.prev.value != b.el && item.parent in b.page.nodes
            && b.page.nodes[item.parent] == page.nodes[item.parent]
            && ElementTurn(page, item, rest)
               == Turn(b.page.ReplaceChild(item.parent, b.el, item.prev.value), b.queue, Some(b.el), None)
  {
    var b := CreateElement(page, item.prev, item.next, rest);
    FreshElementKeepsOthers(page, item.prev, item.next, rest);
    assert b.page.nodes[item.parent] == page.nodes[item.parent];
  }

  /** Rendering nodes built during this render never fails and leaves every node
      numbered below `n` (all that existed before) as it was. */
  lemma {:induction false} FreshRun(page: Page, queue: seq<WorkItem>, out: Option<NodeId>, n: NodeId)
    requires ValidPage(page) && QueueOk(page.nodes, queue) && FreshQueue(queue, n)
    ensures var o := Run(page, queue, out);
            o.result.Ok? && SameBelow(page.nodes, o.page.nodes, n)
    decreases QueueSize(queue)
  {
    if queue != [] {
      RunStep(page, queue, out);
      FreshQueueFront(queue, n);
      var t := TurnOf(page, queue[|queue| - 1], queue[..|queue| - 1]);
      FreshTurn(page, queue[|queue| - 1], queue[..|queue| - 1], n);
      FreshRun(t.page, t.queue, if out.Some? then out else t.produced, n);
    }
  }

  /** A text vnode with no previous node (a child `morph` found no node for): a fresh
      text node with the content is appended to the parent and returned. */
  lemma TextAppended(page: Page, parent: NodeId, content: string)
    requires ValidPage(page) && parent in page.nodes && page.nodes[parent].ElementNode?
    ensures var o := Run(page, [WorkItem(None, Text(content), parent)], None);
            && o == Outcome(page.CreateTextNode(content).AppendChild(parent, page.nextId), Ok(Some(page.nextId)))
            && o.page.nodes[parent].childNodes == page.nodes[parent].childNodes + [page.nextId]
  {
    var q := [WorkItem(None, Text(content), parent)];
    RunStep(page, q, None);
    assert q[..0] == [];
    FreshTextTurn(page, q[0], []);
  }

  /** An element vnode with no previous node: a fresh element is built, appended to the
      parent and returned; its children are rendered inside it, so nothing can fail and
      no other node that existed is touched. */
  lemma ElementAppended(page: Page, parent: NodeId, v: VNode)
    requires ValidPage(page) && parent in page.nodes && page.nodes[parent].ElementNode? && v.Element?
    ensures var o := Run(page, [WorkItem(None, v, parent)], None);
            && o.result == Ok(Some(page.nextId))
            && o.page.nodes[parent].childNodes == page.nodes[parent].childNodes + [page.nextId]
            && SameExcept(page.nodes, o.page.nodes, parent)
  {
    var q := [WorkItem(None, v, parent)];
    RunStep(page, q, None);
    assert q[..0] == [];
    FreshElementTurn(page, q[0], []);
    var t := TurnOf(page, q[0], []);
    FreshBuilt(page.nextId, v, [], page.nextId);
    FreshRun(t.page, t.queue, Some(page.nextId), page.nextId);
    OutKept(t.page, t.queue, page.nextId);
    SameExceptBelow(page.nodes, page.nextId, t.page.nodes, Run(t.page, t.queue, Some(page.nextId)).page.nodes, parent);
  }

  /** A fragment with no elements changes nothing and `morph` returns no node. */
  lemma EmptyFragment(page: Page, root: NodeId, parent: NodeId)
    requires ValidPage(page) && ItemOk(page.nodes, WorkItem(Some(root), Fragment([]), parent))
    requires root in page.nodes[parent].childNodes
    ensures Morphed(page, root, parent, Fragment([])) == Outcome(page, Ok(None))
  {
    var q := [WorkItem(Some(root), Fragment([]), parent)];
    RunStep(page, q, None);
    assert q[..0] == [];
    var t := TurnOf(page, q[0], []);
    assert t.queue == [];
  }
}
