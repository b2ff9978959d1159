/** `morph` and `lustreGenericEventHandler` performed in place on a `Dom.Document`.
    Each method is proved to leave the page as the matching function of `Reconciler`
    says, so what is proved about those functions holds of the running code. */
module Morph {
  import opened Prelude
  import opened Vdom
  import opened Dom
  import opened Children
  import opened Reconciler
  import Render

  /** The text branch of `morph`'s loop. */
  method TextTurnOn(doc: Document, item: WorkItem, rest: seq<WorkItem>)
    returns (produced: Option<NodeId>, error: Option<DomError>)
    requires doc.Valid() && ItemOk(doc.nodes, item) && item.next.Text? && QueueOk(doc.nodes, rest)
    modifies doc
    ensures var t := TextTurn(old(doc.Snapshot()), item, rest);
            doc.Snapshot() == t.page && produced == t.produced && error == t.error
  {
    var content := item.next.content;
    match item.prev {
      case None =>
        var created := doc.CreateTextNode(content);
        doc.AppendChild(item.parent, created);
        produced, error := Some(created), None;
      case Some(p) =>
        if doc.nodes[p].TextNode? {
          if doc.nodes[p].data != content {
            doc.SetText(p, content);
          }
          produced, error := Some(p), None;
        } else {
          var created := doc.CreateTextNode(content);
          var ok := doc.ReplaceChild(item.parent, created, p);
          if ok {
            produced, error := Some(created), None;
          } else {
            produced, error := None, Some(NotFoundError);
          }
        }
    }
  }

  /** The element branch of `morph`'s loop: `createElementNode`, then put the element
      in place of the previous node. */
  method ElementTurnOn(doc: Document, item: WorkItem, rest: seq<WorkItem>)
    returns (queue: seq<WorkItem>, produced: Option<NodeId>, error: Option<DomError>)
    requires doc.Valid() && ItemOk(doc.nodes, item) && item.next.Element? && QueueOk(doc.nodes, rest)
    modifies doc
    ensures var t := ElementTurn(old(doc.Snapshot()), item, rest);
            doc.Snapshot() == t.page && queue == t.queue && produced == t.produced && error == t.error
  {
    var el, fault;
    el, queue, fault := Render.CreateElementNode(doc, item.prev, item.next, rest);
    if fault {
      produced, error := None, Some(TypeError);
      return;
    }
    match item.prev {
      case None =>
        doc.AppendChild(item.parent, el);
        produced, error := Some(el), None;
      case Some(p) =>
        if p == el {
          produced, error := Some(el), None;
        } else {
          var ok := doc.ReplaceChild(item.parent, el, p);
          if ok {
            produced, error := Some(el), None;
          } else {
            produced, error := None, Some(NotFoundError);
          }
        }
    }
  }

  /** The fragment branch of `morph`'s loop: `unshift` one item per element while the
      previous node moves on to its next sibling. The page is only read. */
  method FragmentTurnOn(doc: Document, item: WorkItem, rest: seq<WorkItem>) returns (queue: seq<WorkItem>)
    requires doc.Valid() && ItemOk(doc.nodes, item) && item.next.Fragment? && QueueOk(doc.nodes, rest)
    ensures queue == FragmentTurn(doc.Snapshot(), item, rest).queue
  {
    queue := SpreadLoop(doc, item.parent, item.prev, item.next.elements, rest);
    FragmentTurnQueue(doc.Snapshot(), item, rest);
  }

  /** The `iterateElement` loop over a fragment's elements: each is `unshift`ed against
      the previous node, which then moves on to its next sibling. */
  method SpreadLoop(doc: Document, parent: NodeId, first: Option<NodeId>, es: seq<VNode>, rest: seq<WorkItem>)
    returns (queue: seq<WorkItem>)
    requires parent in doc.nodes && doc.nodes[parent].ElementNode?
    ensures queue == Spread(doc.nodes, parent, first, es) + rest
  {
    ghost var nodes := doc.nodes;
    var prev := first;
    queue := rest;
    for i := 0 to |es|
      invariant queue == Spread(nodes, parent, first, es[..i]) + rest
      invariant prev == Advance(nodes, parent, first, i)
    {
      SpreadPush(nodes, parent, first, es, i, rest);
      queue := [WorkItem(prev, es[i], parent)] + queue;
      prev := Render.NextSiblingOf(doc, parent, prev);
    }
    SpreadWhole(nodes, parent, first, es, rest);
  }

  /** Pushing element `i` on the items of the first `i` elements gives the items of the
      first `i + 1`. */
  lemma SpreadPush(nodes: map<NodeId, Node>, parent: NodeId, prev: Option<NodeId>, es: seq<VNode>, i: nat,
                   rest: seq<WorkItem>)
    requires i < |es|
    ensures [WorkItem(Advance(nodes, parent, prev, i), es[i], parent)] + (Spread(nodes, parent, prev, es[..i]) + rest)
         == Spread(nodes, parent, prev, es[..i + 1]) + rest
  {
    SpreadSnoc(nodes, parent, prev, es, i);
    PushAssoc(WorkItem(Advance(nodes, parent, prev, i), es[i], parent), Spread(nodes, parent, prev, es[..i]), rest);
  }

  lemma PushAssoc<T>(x: T, a: seq<T>, b: seq<T>)
    ensures [x] + (a + b) == ([x] + a) + b
  {
  }

  /** The items of all the elements of `es` are those of `es` itself. */
  lemma SpreadWhole(nodes: map<NodeId, Node>, parent: NodeId, prev: Option<NodeId>, es: seq<VNode>,
                    rest: seq<WorkItem>)
    ensures Spread(nodes, parent, prev, es[..|es|]) + rest == Spread(nodes, parent, prev, es) + rest
  {
    assert es[..|es|] == es;
  }

  /** One more element of a fragment puts one more item at the front. */
  lemma SpreadSnoc(nodes: map<NodeId, Node>, parent: NodeId, prev: Option<NodeId>, es: seq<VNode>, i: nat)
    requires i < |es|
    ensures Spread(nodes, parent, prev, es[..i + 1])
         == [WorkItem(Advance(nodes, parent, prev, i), es[i], parent)] + Spread(nodes, parent, prev, es[..i])
  {
    assert es[..i + 1][..i] == es[..i];
  }

  /** One turn of `morph`'s loop on the item popped off the work list. */
  method MorphTurn(doc: Document, item: WorkItem, rest: seq<WorkItem>)
    returns (queue: seq<WorkItem>, produced: Option<NodeId>, error: Option<DomError>)
    requires doc.Valid() && ItemOk(doc.nodes, item) && QueueOk(doc.nodes, rest)
    modifies doc
    ensures var t := TurnOf(old(doc.Snapshot()), item, rest);
            doc.Snapshot() == t.page && queue == t.queue && produced == t.produced && error == t.error
  {
    match item.next {
      case Text(_) =>
        produced, error := TextTurnOn(doc, item, rest);
        queue := rest;
      case Element(_, _, _, _, _, _, _) =>
        queue, produced, error := ElementTurnOn(doc, item, rest);
      case Fragment(_) =>
        queue := FragmentTurnOn(doc, item, rest);
        produced, error := None, None;
    }
  }

  /** `morph(prev, next)`: pop the last item off the work list until it is empty, keep
      the first node produced, and stop at the first exception. */
  method Morph(doc: Document, root: NodeId, parent: NodeId, next: VNode)
    returns (result: Result<Option<NodeId>, DomError>)
    requires doc.Valid() && ItemOk(doc.nodes, WorkItem(Some(root), next, parent))
    requires root in doc.nodes[parent].childNodes
    modifies doc
    ensures var o := Morphed(old(doc.Snapshot()), root, parent, next);
            doc.Snapshot() == o.page && result == o.result
  {
    result := MorphLoop(doc, [WorkItem(Some(root), next, parent)], None);
  }

  /** `morph`'s loop from a given work list and first node. */
  method MorphLoop(doc: Document, start: seq<WorkItem>, first: Option<NodeId>)
    returns (result: Result<Option<NodeId>, DomError>)
    requires doc.Valid() && QueueOk(doc.nodes, start)
    modifies doc
    ensures var o := Run(old(doc.Snapshot()), start, first);
            doc.Snapshot() == o.page && result == o.result
  {
    ghost var goal := Run(doc.Snapshot(), start, first);
    var stack := start;
    var out := first;
    while stack != []
      invariant doc.Valid() && QueueOk(doc.nodes, stack)
      invariant Run(doc.Snapshot(), stack, out) == goal
      decreases QueueSize(stack)
    {
      var error;
      stack, out, error := MorphStep(doc, stack, out);
      if error.Some? {
        return Error(error.value);
      }
    }
    return Ok(out);
  }

  /** One pass of `morph`'s loop: pop the last item, take its turn and keep the first
      node produced; the rest of the render is what remained of it before. */
  method MorphStep(doc: Document, stack: seq<WorkItem>, out: Option<NodeId>)
    returns (next: seq<WorkItem>, kept: Option<NodeId>, error: Option<DomError>)
    requires doc.Valid() && QueueOk(doc.nodes, stack) && stack != []
    modifies doc
    ensures doc.Valid()
    ensures error.Some? ==> Run(old(doc.Snapshot()), stack, out) == Outcome(doc.Snapshot(), Error(error.value))
    ensures error.None? ==>
              && QueueOk(doc.nodes, next) && QueueSize(next) < QueueSize(stack)
              && Run(doc.Snapshot(), next, kept) == Run(old(doc.Snapshot()), stack, out)
  {
    var item := stack[|stack| - 1];
    var rest := stack[..|stack| - 1];
    RunStep(doc.Snapshot(), stack, out);
    var produced;
    next, produced, error := MorphTurn(doc, item, rest);
    kept := if out.Some? then out else produced;
  }

  /** What `lustreGenericEventHandler` does with one event: the page after it, and the
      callback it calls, if any. */
  datatype Delivery = Delivery(page: Page, handler: Option<Callback>)

  /** An event of type `event` at `target`: the registered callback is called; a
      listener with no callback behind it detaches itself. */
  function Delivered(page: Page, target: NodeId, event: string): (d: Delivery)
    requires WellFormedPage(page) && target in page.nodes
    ensures WellFormedPage(d.page) && d.page.nodes == page.nodes
    ensures d.handler.Some? <==> event in RegisteredIn(page.registry, target)
    ensures d.handler.Some? ==> d.page == page && d.handler.value == page.registry[target][event]
    ensures d.handler.None? ==> target in d.page.listeners && event !in d.page.listeners[target]
  {
    if target !in page.registry then Delivery(page.RemoveEventListener(target, event), None)
    else if event !in page.registry[target] then Delivery(page.RemoveEventListener(target, event), None)
    else Delivery(page, Some(page.registry[target][event]))
  }

  /** Between renders every attached listener finds its callback, and handling an event
      leaves the page as it was. */
  lemma ListenerFindsHandler(page: Page, target: NodeId, event: string)
    requires ValidPage(page) && target in page.nodes && event in page.listeners[target]
    ensures Delivered(page, target, event) == Delivery(page, Some(page.registry[target][event]))
  {
    assert event in RegisteredIn(page.registry, target);
  }

  /** Handling an event keeps a valid page valid: a stale listener can only be one that
      is not attached, and removing it changes no listener set. */
  lemma DeliveryKeepsValid(page: Page, target: NodeId, event: string)
    requires ValidPage(page) && target in page.nodes
    ensures ValidPage(Delivered(page, target, event).page)
  {
    var d := Delivered(page, target, event);
    if d.handler.None? {
      assert event !in page.listeners[target];
      assert page.listeners[target] - {event} == page.listeners[target];
      assert d.page.listeners == page.listeners;
    }
  }

  /** `lustreGenericEventHandler`, run for an event of type `event` whose
      `currentTarget` is `target`: returns the callback it calls. */
  method HandleEvent(doc: Document, target: NodeId, event: string) returns (handler: Option<Callback>)
    requires doc.WellFormed() && target in doc.nodes
    modifies doc
    ensures var d := Delivered(old(doc.Snapshot()), target, event);
            doc.Snapshot() == d.page && handler == d.handler
  {
    if target !in doc.registry {
      doc.RemoveEventListener(target, event);
      return None;
    }
    var handlers := doc.registry[target];
    if event !in handlers {
      doc.RemoveEventListener(target, event);
      return None;
    }
    return Some(handlers[event]);
  }
}
