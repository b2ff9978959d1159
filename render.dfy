/** `createElementNode`'s work on a live `Dom.Document`: the attribute loop and its
    aftermath, `diffKeyedChild`, the child loop and the closing removals. Each method
    is proved to leave the document exactly as the matching fold of `Attributes`,
    `Children` or `Element` says. */
module Render {
  import opened Prelude
  import opened Vdom
  import opened Dom
  import opened Attributes
  import opened Children
  import opened Element

  // ---------------------------------------------------------------------------------
  // The attribute phase

  /** What the locals of the attribute loop must hold for the pass `p`. */
  ghost predicate LocalsOf(p: AttrPass, prevAttributes: set<string>, prevHandlers: set<string>,
                           className: Option<string>, style: Option<string>, html: Option<Value>)
  {
    && prevAttributes == p.prevAttributes && prevHandlers == p.prevHandlers
    && className == p.className && style == p.style && html == p.innerHtml
  }

  /** The document is `page` with the element, handlers, listeners and writes of `p`. */
  ghost predicate Mirrors(doc: Document, page: Page, el: NodeId, p: AttrPass)
    reads doc
  {
    && doc.WellFormed() && el in page.nodes && el in doc.nodes && p.el.ElementNode?
    && doc.Snapshot() == WithAttrPass(page, el, p)
  }

  lemma SetAttrMirrored(page: Page, el: NodeId, p: AttrPass, name: string, value: string)
    requires WellFormedPage(WithAttrPass(page, el, p)) && el in page.nodes && p.el.ElementNode?
    ensures WithAttrPass(page, el, p).SetAttribute(el, name, value) == WithAttrPass(page, el, SetAttr(el, p, name, value))
  {
    assert page.writes + p.writes + multiset{AttributeSet(el, name, value)}
        == page.writes + (p.writes + multiset{AttributeSet(el, name, value)});
  }

  lemma SetPropMirrored(page: Page, el: NodeId, p: AttrPass, name: string, value: Value)
    requires WellFormedPage(WithAttrPass(page, el, p)) && el in page.nodes && p.el.ElementNode?
    ensures WithAttrPass(page, el, p).SetProperty(el, name, value) == WithAttrPass(page, el, SetProp(el, p, name, value))
  {
    assert page.writes + p.writes + multiset{PropertySet(el, name, value)}
        == page.writes + (p.writes + multiset{PropertySet(el, name, value)});
  }

  lemma SetHandlersMirrored(page: Page, el: NodeId, p: AttrPass, handlers: map<string, Callback>)
    requires WellFormedPage(WithAttrPass(page, el, p)) && el in page.nodes
    ensures WithAttrPass(page, el, p).SetHandlers(el, handlers) == WithAttrPass(page, el, p.(handlers := handlers))
  {
    var w := WithAttrPass(page, el, p);
    assert w.registry[el := handlers] == page.registry[el := handlers];
  }

  lemma AddListenerMirrored(page: Page, el: NodeId, p: AttrPass, event: string)
    requires WellFormedPage(WithAttrPass(page, el, p)) && el in page.nodes
    ensures WithAttrPass(page, el, p).AddEventListener(el, event)
            == WithAttrPass(page, el, p.(listening := p.listening + {event},
                                         writes := p.writes + multiset{ListenerAdded(el, event)}))
  {
    var w := WithAttrPass(page, el, p);
    assert w.listeners[el := p.listening + {event}] == page.listeners[el := p.listening + {event}];
    assert page.writes + p.writes + multiset{ListenerAdded(el, event)}
        == page.writes + (p.writes + multiset{ListenerAdded(el, event)});
  }

  /** `addEventListener` unless the event has a handler already, then store the callback. */
  method ListenOn(doc: Document, el: NodeId, event: string, callback: Callback, ghost page: Page, ghost p: AttrPass)
    requires Mirrors(doc, page, el, p)
    modifies doc
    ensures Mirrors(doc, page, el, Listen(el, p, event, callback))
  {
    ghost var q := p;
    if event !in doc.registry[el] {
      AddListenerMirrored(page, el, p, event);
      doc.AddEventListener(el, event);
      q := p.(listening := p.listening + {event}, writes := p.writes + multiset{ListenerAdded(el, event)});
    }
    SetHandlersMirrored(page, el, q, doc.registry[el][event := callback]);
    doc.SetHandlers(el, doc.registry[el][event := callback]);
    assert Listen(el, p, event, callback) == q.(handlers := q.handlers[event := callback]);
  }

  /** `el.setAttribute(name, value)` within the attribute phase. */
  method SetAttributeOn(doc: Document, el: NodeId, name: string, value: string, ghost page: Page, ghost p: AttrPass)
    requires Mirrors(doc, page, el, p)
    modifies doc
    ensures Mirrors(doc, page, el, SetAttr(el, p, name, value))
  {
    SetAttrMirrored(page, el, p, name, value);
    doc.SetAttribute(el, name, value);
  }

  /** `el[name] = value` within the attribute phase. */
  method SetPropertyOn(doc: Document, el: NodeId, name: string, value: Value, ghost page: Page, ghost p: AttrPass)
    requires Mirrors(doc, page, el, p)
    modifies doc
    ensures Mirrors(doc, page, el, SetProp(el, p, name, value))
  {
    SetPropMirrored(page, el, p, name, value);
    doc.SetProperty(el, name, value);
  }

  /** Bookkeeping in the locals leaves the document's mirror of the pass as it was. */
  lemma MirrorsLocals(doc: Document, page: Page, el: NodeId, p: AttrPass, q: AttrPass)
    requires Mirrors(doc, page, el, p)
    requires q.el == p.el && q.handlers == p.handlers && q.listening == p.listening && q.writes == p.writes
    ensures Mirrors(doc, page, el, q)
  {
  }

  /** A name written as a property: `el[name] = value` unless it holds that value already. */
  method PropertyEntry(doc: Document, el: NodeId, canMorph: bool, a: Attr, ghost page: Page, ghost p: AttrPass,
                       prevAttributes: set<string>)
    returns (prevAttributes': set<string>)
    requires Mirrors(doc, page, el, p) && prevAttributes == p.prevAttributes && BranchOf(a) == AsProperty
    modifies doc
    ensures Mirrors(doc, page, el, Step(el, canMorph, p, a))
    ensures prevAttributes' == Step(el, canMorph, p, a).prevAttributes
    ensures var r := Step(el, canMorph, p, a);
            r.className == p.className && r.style == p.style && r.innerHtml == p.innerHtml && r.prevHandlers == p.prevHandlers
  {
    var name := a.name;
    var value := a.Payload();
    ghost var q := p;
    if !(name in doc.nodes[el].properties && doc.nodes[el].properties[name] == value) {
      SetPropertyOn(doc, el, name, value, page, p);
      q := SetProp(el, p, name, value);
    }
    prevAttributes' := prevAttributes;
    if canMorph {
      prevAttributes' := prevAttributes' - {name};
      MirrorsLocals(doc, page, el, q, q.(prevAttributes := q.prevAttributes - {name}));
    }
  }

  /** An `on` name: listen for the event and drop it from the stale handlers. */
  method EventEntry(doc: Document, el: NodeId, canMorph: bool, a: Attr, ghost page: Page, ghost p: AttrPass,
                    prevHandlers: set<string>)
    returns (prevHandlers': set<string>)
    requires Mirrors(doc, page, el, p) && prevHandlers == p.prevHandlers && BranchOf(a) == OnEvent
    modifies doc
    ensures Mirrors(doc, page, el, Step(el, canMorph, p, a))
    ensures prevHandlers' == Step(el, canMorph, p, a).prevHandlers
    ensures var r := Step(el, canMorph, p, a);
            r.className == p.className && r.style == p.style && r.innerHtml == p.innerHtml && r.prevAttributes == p.prevAttributes
  {
    var event := EventName(a);
    ListenOn(doc, el, event, Dispatch(a.Payload()), page, p);
    ghost var q := Listen(el, p, event, Dispatch(a.Payload()));
    ListenFacts(el, p, event, Dispatch(a.Payload()));
    prevHandlers' := prevHandlers;
    if canMorph {
      prevHandlers' := prevHandlers' - {event};
      MirrorsLocals(doc, page, el, q, q.(prevHandlers := q.prevHandlers - {event}));
    }
  }

  /** A server event name: listen for the event and keep the attribute for the server. */
  method ServerEventEntry(doc: Document, el: NodeId, canMorph: bool, a: Attr, ghost page: Page, ghost p: AttrPass)
    requires Mirrors(doc, page, el, p) && BranchOf(a) == ServerEvent
    modifies doc
    ensures Mirrors(doc, page, el, Step(el, canMorph, p, a))
    ensures var r := Step(el, canMorph, p, a);
            && r.className == p.className && r.style == p.style && r.innerHtml == p.innerHtml
            && r.prevHandlers == p.prevHandlers && r.prevAttributes == p.prevAttributes
  {
    var event := EventName(a);
    ListenOn(doc, el, event, DispatchServerEvent, page, p);
    SetAttributeOn(doc, el, a.name, Stringify(a.Payload()), page, Listen(el, p, event, DispatchServerEvent));
    ListenFacts(el, p, event, DispatchServerEvent);
  }

  /** A plain attribute: `setAttribute` for a string, and the property too for `value`
      and `selected`. */
  method PlainEntry(doc: Document, el: NodeId, canMorph: bool, a: Attr, ghost page: Page, ghost p: AttrPass,
                    prevAttributes: set<string>)
    returns (prevAttributes': set<string>)
    requires Mirrors(doc, page, el, p) && prevAttributes == p.prevAttributes && BranchOf(a) == Plain
    modifies doc
    ensures Mirrors(doc, page, el, Step(el, canMorph, p, a))
    ensures prevAttributes' == Step(el, canMorph, p, a).prevAttributes
    ensures var r := Step(el, canMorph, p, a);
            r.className == p.className && r.style == p.style && r.innerHtml == p.innerHtml && r.prevHandlers == p.prevHandlers
  {
    var name := a.name;
    var value := a.Payload();
    ghost var q := p;
    if value.Str? {
      SetAttributeOn(doc, el, name, value.s, page, p);
      q := SetAttr(el, p, name, value.s);
    }
    if name == "value" || name == "selected" {
      SetPropertyOn(doc, el, name, value, page, q);
      q := SetProp(el, q, name, value);
    }
    prevAttributes' := prevAttributes;
    if canMorph {
      prevAttributes' := prevAttributes' - {name};
      MirrorsLocals(doc, page, el, q, q.(prevAttributes := q.prevAttributes - {name}));
    }
  }

  /** One entry of `next.attrs`, on the branch its name and flag select. */
  method AttributeEntry(doc: Document, el: NodeId, canMorph: bool, a: Attr, ghost page: Page, ghost p: AttrPass,
                        prevAttributes: set<string>, prevHandlers: set<string>,
                        className: Option<string>, style: Option<string>, html: Option<Value>)
    returns (prevAttributes': set<string>, prevHandlers': set<string>,
             className': Option<string>, style': Option<string>, html': Option<Value>)
    requires Mirrors(doc, page, el, p) && LocalsOf(p, prevAttributes, prevHandlers, className, style, html)
    modifies doc
    ensures Mirrors(doc, page, el, Step(el, canMorph, p, a))
    ensures LocalsOf(Step(el, canMorph, p, a), prevAttributes', prevHandlers', className', style', html')
  {
    prevAttributes', prevHandlers', className', style', html' := prevAttributes, prevHandlers, className, style, html;
    var value := a.Payload();
    match BranchOf(a)
    case AsProperty =>
      prevAttributes' := PropertyEntry(doc, el, canMorph, a, page, p, prevAttributes);
    case OnEvent =>
      prevHandlers' := EventEntry(doc, el, canMorph, a, page, p, prevHandlers);
    case ServerEvent =>
      ServerEventEntry(doc, el, canMorph, a, page, p);
    case ClassName =>
      className' := Some(if className.None? then Stringify(value) else className.value + " " + Stringify(value));
      assert Step(el, canMorph, p, a) == p.(className := className');
      MirrorsLocals(doc, page, el, p, Step(el, canMorph, p, a));
    case StyleText =>
      style' := Some(if style.None? then Stringify(value) else style.value + Stringify(value));
      assert Step(el, canMorph, p, a) == p.(style := style');
      MirrorsLocals(doc, page, el, p, Step(el, canMorph, p, a));
    case RawHtml =>
      html' := Some(value);
      assert Step(el, canMorph, p, a) == p.(innerHtml := html');
      MirrorsLocals(doc, page, el, p, Step(el, canMorph, p, a));
    case Plain =>
      prevAttributes' := PlainEntry(doc, el, canMorph, a, page, p, prevAttributes);
  }

  /** After the loop, `class` or `style` is written once if anything was collected. */
  method WritePendingOn(doc: Document, el: NodeId, canMorph: bool, name: string, pending: Option<string>,
                        prevAttributes: set<string>, ghost page: Page, ghost p: AttrPass)
    returns (prevAttributes': set<string>)
    requires Mirrors(doc, page, el, p) && prevAttributes == p.prevAttributes
    modifies doc
    ensures Mirrors(doc, page, el, WritePending(el, canMorph, p, name, pending))
    ensures prevAttributes' == WritePending(el, canMorph, p, name, pending).prevAttributes
  {
    prevAttributes' := prevAttributes;
    if pending.Some? {
      SetAttributeOn(doc, el, name, pending.value, page, p);
      if canMorph {
        prevAttributes' := prevAttributes' - {name};
      }
    }
  }

  lemma AttributeRemovalsAdd(id: NodeId, done: set<string>, n: string)
    requires n !in done
    ensures AttributeRemovals(id, done + {n}) == AttributeRemovals(id, done) + multiset{AttributeRemoved(id, n)}
  {
    var before := set m | m in done :: AttributeRemoved(id, m);
    var after := set m | m in done + {n} :: AttributeRemoved(id, m);
    assert after == before + {AttributeRemoved(id, n)};
    assert AttributeRemoved(id, n) !in before;
  }

  lemma ListenerRemovalsAdd(id: NodeId, done: set<string>, e: string)
    requires e !in done
    ensures ListenerRemovals(id, done + {e}) == ListenerRemovals(id, done) + multiset{ListenerRemoved(id, e)}
  {
    var before := set m | m in done :: ListenerRemoved(id, m);
    var after := set m | m in done + {e} :: ListenerRemoved(id, m);
    assert after == before + {ListenerRemoved(id, e)};
    assert ListenerRemoved(id, e) !in before;
  }

  /** The pass once the attributes in `done` were removed. */
  function AttributesRemoved(el: NodeId, p: AttrPass, done: set<string>): AttrPass
    requires p.el.ElementNode?
  {
    p.(el := p.el.(attributes := p.el.attributes - done), writes := p.writes + AttributeRemovals(el, done))
  }

  /** The pass once the handlers and listeners in `done` were removed. */
  function HandlersRemoved(el: NodeId, p: AttrPass, done: set<string>): AttrPass
  {
    p.(handlers := p.handlers - done, listening := p.listening - done,
       writes := p.writes + ListenerRemovals(el, done))
  }

  lemma RemoveAttributeMirrored(page: Page, el: NodeId, p: AttrPass, done: set<string>, n: string)
    requires p.el.ElementNode? && n !in done
    requires WellFormedPage(WithAttrPass(page, el, AttributesRemoved(el, p, done))) && el in page.nodes
    ensures WithAttrPass(page, el, AttributesRemoved(el, p, done)).RemoveAttribute(el, n)
            == WithAttrPass(page, el, AttributesRemoved(el, p, done + {n}))
  {
    var q := AttributesRemoved(el, p, done);
    var q2 := AttributesRemoved(el, p, done + {n});
    var w := WithAttrPass(page, el, q);
    AttributeRemovalsAdd(el, done, n);
    assert p.el.attributes - done - {n} == p.el.attributes - (done + {n});
    assert q.el.(attributes := q.el.attributes - {n}) == q2.el;
    assert w.nodes[el := q2.el] == page.nodes[el := q2.el];
    assert w.writes + multiset{AttributeRemoved(el, n)} == page.writes + q2.writes;
  }

  lemma RemoveHandlerMirrored(page: Page, el: NodeId, p: AttrPass, done: set<string>, e: string)
    requires WellFormedPage(WithAttrPass(page, el, HandlersRemoved(el, p, done))) && el in page.nodes
    requires e !in done
    ensures var w := WithAttrPass(page, el, HandlersRemoved(el, p, done));
            var h := w.SetHandlers(el, w.registry[el] - {e});
            WellFormedPage(h) && el in h.nodes
            && h.RemoveEventListener(el, e) == WithAttrPass(page, el, HandlersRemoved(el, p, done + {e}))
  {
    var q := HandlersRemoved(el, p, done);
    SetHandlersMirrored(page, el, q, q.handlers - {e});
    ListenerRemovalsAdd(el, done, e);
    assert p.handlers - done - {e} == p.handlers - (done + {e});
    assert p.listening - done - {e} == p.listening - (done + {e});
    var w := WithAttrPass(page, el, q.(handlers := q.handlers - {e}));
    assert w.listeners[el := w.listeners[el] - {e}] == page.listeners[el := p.listening - (done + {e})];
    assert page.writes + (p.writes + ListenerRemovals(el, done)) + multiset{ListenerRemoved(el, e)}
        == page.writes + (p.writes + ListenerRemovals(el, done + {e}));
  }

  /** Moving one element from the part still to do to the part done keeps the split. */
  lemma MoveOne<T>(done: set<T>, todo: set<T>, all: set<T>, x: T)
    requires done + todo == all && done !! todo && x in todo
    ensures (done + {x}) + (todo - {x}) == all && (done + {x}) !! (todo - {x})
  {
  }

  /** `removeAttribute` for each name left in `prevAttributes`. */
  method RemoveStaleAttributes(doc: Document, el: NodeId, prevAttributes: set<string>, ghost page: Page, ghost p: AttrPass)
    requires Mirrors(doc, page, el, p)
    modifies doc
    ensures Mirrors(doc, page, el, AttributesRemoved(el, p, prevAttributes))
  {
    var remaining := prevAttributes;
    ghost var done: set<string> := {};
    assert (set m: string | m in {} :: AttributeRemoved(el, m)) == {};
    assert p.el.attributes - {} == p.el.attributes;
    assert AttributesRemoved(el, p, {}) == p;
    while remaining != {}
      invariant done + remaining == prevAttributes && done !! remaining
      invariant Mirrors(doc, page, el, AttributesRemoved(el, p, done))
      decreases remaining
    {
      var n :| n in remaining;
      RemoveAttributeMirrored(page, el, p, done, n);
      doc.RemoveAttribute(el, n);
      MoveOne(done, remaining, prevAttributes, n);
      remaining := remaining - {n};
      done := done + {n};
    }
  }

  /** For each event left in `prevHandlers`, its handler is deleted and its listener
      detached. */
  method RemoveStaleHandlers(doc: Document, el: NodeId, prevHandlers: set<string>, ghost page: Page, ghost p: AttrPass)
    requires Mirrors(doc, page, el, p)
    modifies doc
    ensures Mirrors(doc, page, el, HandlersRemoved(el, p, prevHandlers))
  {
    var events := prevHandlers;
    ghost var done: set<string> := {};
    assert (set m: string | m in {} :: ListenerRemoved(el, m)) == {};
    assert HandlersRemoved(el, p, {}) == p;
    while events != {}
      invariant done + events == prevHandlers && done !! events
      invariant Mirrors(doc, page, el, HandlersRemoved(el, p, done))
      decreases events
    {
      var e :| e in events;
      RemoveHandlerMirrored(page, el, p, done, e);
      doc.SetHandlers(el, doc.registry[el] - {e});
      doc.RemoveEventListener(el, e);
      MoveOne(done, events, prevHandlers, e);
      events := events - {e};
      done := done + {e};
    }
  }

  /** On a morph: the stale attributes, then the stale handlers, are removed. */
  method StripOn(doc: Document, el: NodeId, prevAttributes: set<string>, prevHandlers: set<string>,
                 ghost page: Page, ghost p: AttrPass)
    requires Mirrors(doc, page, el, p) && prevAttributes == p.prevAttributes && prevHandlers == p.prevHandlers
    modifies doc
    ensures Mirrors(doc, page, el, Strip(el, p))
  {
    RemoveStaleAttributes(doc, el, prevAttributes, page, p);
    ghost var q := AttributesRemoved(el, p, prevAttributes);
    RemoveStaleHandlers(doc, el, prevHandlers, page, q);
    assert HandlersRemoved(el, q, prevHandlers) == Strip(el, p);
  }

  lemma StartMirrored(page: Page, el: NodeId, canMorph: bool)
    requires WellFormedPage(page) && el in page.nodes && page.nodes[el].ElementNode? && el in page.registry
    ensures WithAttrPass(page, el, AttrStart(page, el, canMorph)) == page
  {
    var w := WithAttrPass(page, el, AttrStart(page, el, canMorph));
    assert w.nodes == page.nodes && w.registry == page.registry && w.listeners == page.listeners;
    assert w.writes == page.writes;
  }

  /** The attribute phase of `createElementNode` on `el`: the loop over `attrs`, the
      pending `class` and `style`, and on a morph the removal of what is no longer
      declared. It leaves the page `Element.AttributesApplied` describes and returns
      the raw HTML collected. */
  method ApplyAttributes(doc: Document, el: NodeId, canMorph: bool, attrs: seq<Attr>) returns (html: Option<Value>)
    requires doc.Valid() && el in doc.nodes && doc.nodes[el].ElementNode? && el in doc.registry
    modifies doc
    ensures doc.Snapshot() == AttributesApplied(old(doc.Snapshot()), el, canMorph, attrs)
    ensures html == AttrPhase(old(doc.Snapshot()), el, canMorph, attrs).innerHtml
  {
    ghost var page := doc.Snapshot();
    ghost var start := AttrStart(page, el, canMorph);
    StartMirrored(page, el, canMorph);
    var prevAttributes := if canMorph then doc.nodes[el].attributes.Keys else {};
    var prevHandlers := if canMorph then doc.registry[el].Keys else {};
    var className: Option<string> := None;
    var style: Option<string> := None;
    html := None;
    ghost var p := start;
    for i := 0 to |attrs|
      invariant p == Attributes.Loop(el, canMorph, start, attrs[..i])
      invariant Mirrors(doc, page, el, p) && LocalsOf(p, prevAttributes, prevHandlers, className, style, html)
    {
      assert attrs[..i + 1][..i] == attrs[..i];
      prevAttributes, prevHandlers, className, style, html :=
        AttributeEntry(doc, el, canMorph, attrs[i], page, p, prevAttributes, prevHandlers, className, style, html);
      p := Step(el, canMorph, p, attrs[i]);
    }
    assert attrs[..|attrs|] == attrs;
    prevAttributes := WritePendingOn(doc, el, canMorph, "class", className, prevAttributes, page, p);
    p := WritePending(el, canMorph, p, "class", className);
    prevAttributes := WritePendingOn(doc, el, canMorph, "style", style, prevAttributes, page, p);
    p := WritePending(el, canMorph, p, "style", style);
    if canMorph {
      StripOn(doc, el, prevAttributes, prevHandlers, page, p);
      p := Strip(el, p);
    }
    assert p == AttrPhase(page, el, canMorph, attrs);
    AttrPhaseKeepsValid(page, el, canMorph, attrs);
  }

  // ---------------------------------------------------------------------------------
  // The child phase

  /** The document is `page` with the heap, listeners, writes and warnings of the child
      pass `s`, and the locals hold its cursor, keys seen, work list and fault. */
  ghost predicate Tracks(doc: Document, page: Page, el: NodeId, s: ChildPass, cursor: Option<NodeId>,
                         seen: set<string>, queue: seq<WorkItem>)
    reads doc
  {
    && Children.Ok(el, s) && doc.WellFormed() && doc.Snapshot() == PageOf(page, s)
    && cursor == s.cursor && seen == s.seen && queue == s.queue
  }

  lemma RemoveChildMirrored(page: Page, s: ChildPass, el: NodeId, c: NodeId)
    requires WellFormedPage(PageOf(page, s)) && el in s.nodes && s.nodes[el].ElementNode?
    ensures PageOf(page, s).RemoveChild(el, c)
            == PageOf(page, s.(nodes := Removed(s.nodes, el, c), writes := s.writes + multiset{ChildRemoved(el, c)}))
  {
  }

  lemma InsertBeforeMirrored(page: Page, s: ChildPass, el: NodeId, k: NodeId)
    requires Children.Ok(el, s) && WellFormedPage(PageOf(page, s)) && k in s.nodes && k != el && s.cursor != Some(k)
    ensures PageOf(page, s).InsertBefore(el, k, s.cursor)
            == PageOf(page, s.(nodes := Inserted(s.nodes, el, k, s.cursor),
                               writes := s.writes + multiset{ChildInserted(el, k, s.cursor)}))
  {
  }

  lemma PlaceholderMirrored(page: Page, s: ChildPass, el: NodeId, v: VNode)
    requires Children.Ok(el, s) && WellFormedPage(PageOf(page, s)) && s.cursor.Some?
    ensures var created := PageOf(page, s).CreateTextNode("");
            && WellFormedPage(created) && s.nextId in created.nodes && s.nextId != el
            && el in created.nodes && created.nodes[el].ElementNode?
            && s.cursor.value in created.nodes[el].childNodes && s.cursor.value != s.nextId
            && created.InsertBefore(el, s.nextId, s.cursor) == PageOf(page, Placeholder(el, s, v))
  {
    var created := PageOf(page, s).CreateTextNode("");
    var r := Placeholder(el, s, v);
    assert created.InsertBefore(el, s.nextId, s.cursor).writes == r.writes;
  }

  /** `prevChild.nextSibling`, read off the live document. */
  method NextSiblingOf(doc: Document, el: NodeId, c: Option<NodeId>) returns (next: Option<NodeId>)
    requires el in doc.nodes && doc.nodes[el].ElementNode?
    ensures next == NextSibling(doc.nodes, el, c)
  {
    next := NextSibling(doc.nodes, el, c);
  }

  /** The loop at the head of `diffKeyedChild`: remove previous children from the cursor
      on while their key is not incoming; a text node there throws a `TypeError`. */
  method DropStaleNodes(doc: Document, el: NodeId, incoming: set<string>, cursor: Option<NodeId>,
                        ghost page: Page, ghost s: ChildPass)
    returns (cursor': Option<NodeId>, fault: bool)
    requires Tracks(doc, page, el, s, cursor, s.seen, s.queue) && !s.fault
    modifies doc
    ensures var r := DropStale(el, incoming, s);
            fault == r.fault && Tracks(doc, page, el, r, cursor', s.seen, s.queue)
  {
    cursor' := cursor;
    ghost var t := s;
    while cursor'.Some?
      invariant Tracks(doc, page, el, t, cursor', s.seen, s.queue) && !t.fault
      invariant DropStale(el, incoming, t) == DropStale(el, incoming, s)
      decreases |t.nodes[el].childNodes|
    {
      var c := cursor'.value;
      if doc.nodes[c].TextNode? {
        return cursor', true;
      }
      if Kept(doc.nodes[c], incoming) {
        return cursor', false;
      }
      var next := NextSiblingOf(doc, el, cursor');
      RemoveChildMirrored(page, t, el, c);
      RemovedKeepsHeap(t.nodes, t.nextId, el, c);
      NextSiblingSurvives(t.nodes, t.nextId, el, c);
      QueueOkGrew(t.nodes, Removed(t.nodes, el, c), t.queue);
      doc.RemoveChild(el, c);
      t := t.(nodes := Removed(t.nodes, el, c), cursor := next, writes := t.writes + multiset{ChildRemoved(el, c)});
      cursor' := next;
    }
    fault := false;
  }

  /** `stack.unshift({prev: prevChild, next: v, parent: el})`, then
      `prevChild = prevChild?.nextSibling`. */
  method PairAtCursor(doc: Document, el: NodeId, cursor: Option<NodeId>, queue: seq<WorkItem>, v: VNode,
                      ghost page: Page, ghost s: ChildPass)
    returns (cursor': Option<NodeId>, queue': seq<WorkItem>)
    requires Tracks(doc, page, el, s, cursor, s.seen, queue) && !s.fault
    ensures Tracks(doc, page, el, Positional(el, s, v), cursor', s.seen, queue')
  {
    queue' := [WorkItem(cursor, v, el)] + queue;
    cursor' := NextSiblingOf(doc, el, cursor);
  }

  /** `diffKeyedChild` for the keyed element `v`: the work list gains the item for `v`
      and the cursor moves as `Children.KeyedStep` says. */
  method DiffKeyedChild(doc: Document, el: NodeId, incoming: set<string>, keyed: map<string, NodeId>,
                        cursor: Option<NodeId>, seen: set<string>, queue: seq<WorkItem>, v: VNode,
                        ghost page: Page, ghost s: ChildPass)
    returns (cursor': Option<NodeId>, seen': set<string>, queue': seq<WorkItem>, fault: bool)
    requires Tracks(doc, page, el, s, cursor, seen, queue) && !s.fault
    requires KeyedOk(keyed, s.nodes, el) && v.Element?
    modifies doc
    ensures var r := KeyedStep(el, incoming, keyed, s, v);
            fault == r.fault && Tracks(doc, page, el, r, cursor', seen', queue')
  {
    seen', queue' := seen, queue;
    cursor', fault := DropStaleNodes(doc, el, incoming, cursor, page, s);
    if !fault {
      cursor', seen', queue' := PlaceKeyedChild(doc, el, incoming, keyed, cursor', seen, queue, v, page, s);
    }
  }

  /** The rest of `diffKeyedChild` once the stale previous children are gone: warn on a
      duplicate key, queue a new key at the end or against a placeholder, pair a key found
      at the cursor, and move one found elsewhere in front of the cursor. */
  method PlaceKeyedChild(doc: Document, el: NodeId, incoming: set<string>, keyed: map<string, NodeId>,
                         cursor: Option<NodeId>, seen: set<string>, queue: seq<WorkItem>, v: VNode,
                         ghost page: Page, ghost s: ChildPass)
    returns (cursor': Option<NodeId>, seen': set<string>, queue': seq<WorkItem>)
    requires Children.Ok(el, s) && !s.fault && KeyedOk(keyed, s.nodes, el) && v.Element?
    requires !DropStale(el, incoming, s).fault
    requires Tracks(doc, page, el, DropStale(el, incoming, s), cursor, seen, queue)
    modifies doc
    ensures var r := KeyedStep(el, incoming, keyed, s, v);
            !r.fault && Tracks(doc, page, el, r, cursor', seen', queue')
  {
    cursor', seen', queue' := cursor, seen, queue;
    ghost var d := DropStale(el, incoming, s);
    if |keyed| == 0 {
      cursor', queue' := PairAtCursor(doc, el, cursor', queue', v, page, d);
      return;
    }
    if v.key in seen' {
      doc.Warn(DuplicateKeyWarning + v.key);
      queue' := [WorkItem(None, v, el)] + queue';
      return;
    }
    seen' := seen' + {v.key};
    d := d.(seen := d.seen + {v.key});
    if v.key !in keyed && cursor'.None? {
      queue' := [WorkItem(None, v, el)] + queue';
      return;
    }
    if v.key !in keyed {
      PlaceholderMirrored(page, d, el, v);
      var placeholder := doc.CreateTextNode("");
      doc.InsertBefore(el, placeholder, cursor');
      queue' := [WorkItem(Some(placeholder), v, el)] + queue';
      return;
    }
    var k := keyed[v.key];
    if cursor' == Some(k) {
      cursor', queue' := PairAtCursor(doc, el, cursor', queue', v, page, d);
      return;
    }
    InsertBeforeMirrored(page, d, el, k);
    doc.InsertBefore(el, k, cursor');
    queue' := [WorkItem(Some(k), v, el)] + queue';
  }

  /** The callback `createElementNode` hands to `iterateElement`: a keyed element goes
      through `diffKeyedChild` in keyed mode, anything else is paired with the cursor. */
  method ChildEntry(doc: Document, el: NodeId, keyedMode: bool, incoming: set<string>, keyed: map<string, NodeId>,
                    cursor: Option<NodeId>, seen: set<string>, queue: seq<WorkItem>, v: VNode,
                    ghost page: Page, ghost s: ChildPass)
    returns (cursor': Option<NodeId>, seen': set<string>, queue': seq<WorkItem>, fault: bool)
    requires Tracks(doc, page, el, s, cursor, seen, queue) && !s.fault && KeyedOk(keyed, s.nodes, el)
    modifies doc
    ensures var r := ChildStep(el, keyedMode, incoming, keyed, s, v);
            fault == r.fault && Tracks(doc, page, el, r, cursor', seen', queue')
  {
    if keyedMode && v.Element? {
      cursor', seen', queue', fault := DiffKeyedChild(doc, el, incoming, keyed, cursor, seen, queue, v, page, s);
    } else {
      cursor', queue' := PairAtCursor(doc, el, cursor, queue, v, page, s);
      seen', fault := seen, false;
    }
  }

  /** The closing loop: every node from the cursor on is removed. */
  method RemoveRest(doc: Document, el: NodeId, cursor: Option<NodeId>, ghost page: Page, ghost s: ChildPass)
    requires Tracks(doc, page, el, s, cursor, s.seen, s.queue)
    modifies doc
    ensures Tracks(doc, page, el, Truncate(el, s), None, s.seen, s.queue)
  {
    var prevChild := cursor;
    ghost var t := s;
    while prevChild.Some?
      invariant Tracks(doc, page, el, t, prevChild, s.seen, s.queue)
      invariant Truncate(el, t) == Truncate(el, s)
      decreases |t.nodes[el].childNodes|
    {
      var c := prevChild.value;
      var next := NextSiblingOf(doc, el, prevChild);
      RemoveChildMirrored(page, t, el, c);
      RemovedKeepsHeap(t.nodes, t.nextId, el, c);
      NextSiblingSurvives(t.nodes, t.nextId, el, c);
      QueueOkGrew(t.nodes, Removed(t.nodes, el, c), t.queue);
      doc.RemoveChild(el, c);
      t := t.(nodes := Removed(t.nodes, el, c), cursor := next, writes := t.writes + multiset{ChildRemoved(el, c)});
      prevChild := next;
    }
  }

  lemma LoopSnoc(el: NodeId, keyedMode: bool, incoming: set<string>, keyed: map<string, NodeId>,
                 s: ChildPass, done: seq<VNode>, es: seq<VNode>, j: nat)
    requires Children.Ok(el, s) && KeyedOk(keyed, s.nodes, el) && j < |es|
    ensures Children.Loop(el, keyedMode, incoming, keyed, s, done + es[..j + 1])
            == ChildStep(el, keyedMode, incoming, keyed, Children.Loop(el, keyedMode, incoming, keyed, s, done + es[..j]), es[j])
  {
    PrefixSnoc(done, es, j);
    LoopLast(el, keyedMode, incoming, keyed, s, done + es[..j + 1]);
  }

  /** One element of an expansion through `ChildEntry`: the loop's result grows by its step. */
  method IterateOne(doc: Document, el: NodeId, keyedMode: bool, incoming: set<string>, keyed: map<string, NodeId>,
                    es: seq<VNode>, j: nat, cursor: Option<NodeId>, seen: set<string>, queue: seq<WorkItem>,
                    ghost page: Page, ghost s: ChildPass, ghost done: seq<VNode>, ghost t: ChildPass)
    returns (cursor': Option<NodeId>, seen': set<string>, queue': seq<WorkItem>, fault: bool, ghost t': ChildPass)
    requires Children.Ok(el, s) && KeyedOk(keyed, s.nodes, el) && j < |es|
    requires t == Children.Loop(el, keyedMode, incoming, keyed, s, done + es[..j])
    requires Tracks(doc, page, el, t, cursor, seen, queue) && !t.fault
    modifies doc
    ensures t' == Children.Loop(el, keyedMode, incoming, keyed, s, done + es[..j + 1])
    ensures Tracks(doc, page, el, t', cursor', seen', queue') && fault == t'.fault
  {
    LoopSnoc(el, keyedMode, incoming, keyed, s, done, es, j);
    cursor', seen', queue', fault := ChildEntry(doc, el, keyedMode, incoming, keyed, cursor, seen, queue, es[j], page, t);
    t' := ChildStep(el, keyedMode, incoming, keyed, t, es[j]);
  }

  /** `iterateElement(child, ...)` in the child loop: each element of a fragment, or the
      child itself, through `ChildEntry`, stopping at a `TypeError`. */
  method IterateChild(doc: Document, el: NodeId, keyedMode: bool, incoming: set<string>, keyed: map<string, NodeId>,
                      child: VNode, cursor: Option<NodeId>, seen: set<string>, queue: seq<WorkItem>,
                      ghost page: Page, ghost s: ChildPass, ghost done: seq<VNode>)
    returns (cursor': Option<NodeId>, seen': set<string>, queue': seq<WorkItem>, fault: bool)
    requires Children.Ok(el, s) && KeyedOk(keyed, s.nodes, el)
    requires var t := Children.Loop(el, keyedMode, incoming, keyed, s, done);
             Tracks(doc, page, el, t, cursor, seen, queue) && !t.fault
    modifies doc
    ensures var r := Children.Loop(el, keyedMode, incoming, keyed, s, done + Expand(child));
            fault == r.fault && Tracks(doc, page, el, r, cursor', seen', queue')
  {
    var es := Expand(child);
    cursor', seen', queue', fault := cursor, seen, queue, false;
    ghost var t := Children.Loop(el, keyedMode, incoming, keyed, s, done);
    assert done + es[..0] == done;
    var j := 0;
    while j < |es| && !fault
      invariant j <= |es|
      invariant t == Children.Loop(el, keyedMode, incoming, keyed, s, done + es[..j])
      invariant Tracks(doc, page, el, t, cursor', seen', queue') && fault == t.fault
    {
      cursor', seen', queue', fault, t := IterateOne(doc, el, keyedMode, incoming, keyed, es, j, cursor', seen', queue', page, s, done, t);
      j := j + 1;
    }
    if fault {
      FaultSticks(el, keyedMode, incoming, keyed, s, done + es[..j], es[j..]);
      SplitAt(done, es, j);
    } else {
      WholeOf(done, es);
    }
  }

  lemma WholeOf<T>(x: seq<T>, es: seq<T>)
    ensures x + es[..|es|] == x + es
  {
    assert es[..|es|] == es;
  }

  lemma TakeDrop<T>(s: seq<T>, i: nat)
    requires i <= |s|
    ensures s[..i] + s[i..] == s
  {
  }

  lemma SplitAt<T>(x: seq<T>, es: seq<T>, j: nat)
    requires j <= |es|
    ensures (x + es[..j]) + es[j..] == x + es
  {
    assert es[..j] + es[j..] == es;
  }

  /** The child phase: every incoming child through `IterateChild`; a `TypeError` ends
      it at once; otherwise the rest of the previous children go. */
  method DiffChildren(doc: Document, el: NodeId, keyedMode: bool, incoming: set<string>, keyed: map<string, NodeId>,
                      children: seq<VNode>, cursor: Option<NodeId>, queue: seq<WorkItem>,
                      ghost page: Page, ghost s: ChildPass)
    returns (queue': seq<WorkItem>, fault: bool)
    requires Tracks(doc, page, el, s, cursor, {}, queue) && !s.fault && KeyedOk(keyed, s.nodes, el)
    modifies doc
    ensures var r := Phase(el, keyedMode, incoming, keyed, s, children);
            fault == r.fault && doc.WellFormed() && doc.Snapshot() == PageOf(page, r) && queue' == r.queue
  {
    var prevChild := cursor;
    var seen: set<string> := {};
    queue' := queue;
    fault := false;
    ghost var t := s;
    for i := 0 to |children|
      invariant t == Children.Loop(el, keyedMode, incoming, keyed, s, Flatten(children[..i]))
      invariant Tracks(doc, page, el, t, prevChild, seen, queue') && !t.fault
    {
      FlattenStep(children, i);
      prevChild, seen, queue', fault :=
        IterateChild(doc, el, keyedMode, incoming, keyed, children[i], prevChild, seen, queue', page, s,
                     Flatten(children[..i]));
      t := Children.Loop(el, keyedMode, incoming, keyed, s, Flatten(children[..i + 1]));
      if fault {
        FaultAt(el, keyedMode, incoming, keyed, s, children, i + 1);
        return;
      }
    }
    assert children[..|children|] == children;
    RemoveRest(doc, el, prevChild, page, t);
  }

  lemma FlattenStep(children: seq<VNode>, i: nat)
    requires i < |children|
    ensures Flatten(children[..i + 1]) == Flatten(children[..i]) + Expand(children[i])
  {
    assert children[..i + 1][..i] == children[..i];
  }

  /** A `TypeError` within the first `i` children is where the phase stops. */
  lemma FaultAt(el: NodeId, keyedMode: bool, incoming: set<string>, keyed: map<string, NodeId>,
                s: ChildPass, children: seq<VNode>, i: nat)
    requires Children.Ok(el, s) && KeyedOk(keyed, s.nodes, el) && i <= |children|
    requires Children.Loop(el, keyedMode, incoming, keyed, s, Flatten(children[..i])).fault
    ensures Phase(el, keyedMode, incoming, keyed, s, children)
            == Children.Loop(el, keyedMode, incoming, keyed, s, Flatten(children[..i]))
  {
    TakeDrop(children, i);
    FlattenAppend(children[..i], children[i..]);
    FaultSticks(el, keyedMode, incoming, keyed, s, Flatten(children[..i]), Flatten(children[i..]));
  }

  // ---------------------------------------------------------------------------------
  // createElementNode

  /** `getKeyedChildren(prev)`: the previous children by their `data-lustre-key`. */
  method GetKeyedChildren(doc: Document, el: NodeId) returns (keyed: map<string, NodeId>)
    requires doc.WellFormed() && el in doc.nodes && doc.nodes[el].ElementNode?
    ensures keyed == KeyedChildren(doc.nodes, doc.nodes[el].childNodes)
  {
    var cs := doc.nodes[el].childNodes;
    keyed := map[];
    for i := 0 to |cs|
      invariant keyed == KeyedChildren(doc.nodes, cs[..i])
    {
      assert cs[..i + 1][..i] == cs[..i];
      var key := KeyOf(doc.nodes[cs[i]]);
      if key.Some? {
        keyed := keyed[key.value := cs[i]];
      }
    }
    assert cs[..|cs|] == cs;
  }

  /** `getKeyedChildren(next)`, of which only the keys are used: every incoming element,
      fragments flattened, with a non-empty key. */
  method GetIncomingKeys(children: seq<VNode>) returns (keys: set<string>)
    ensures keys == IncomingKeys(Flatten(children))
  {
    keys := {};
    for i := 0 to |children|
      invariant keys == IncomingKeys(Flatten(children[..i]))
    {
      var es := Expand(children[i]);
      ghost var done := Flatten(children[..i]);
      WholeOf(done, es[..0]);
      SplitAt(done, es[..0], 0);
      assert done + es[..0] == done;
      for j := 0 to |es|
        invariant keys == IncomingKeys(done + es[..j])
      {
        IncomingKeysSnoc(done, es, j);
        if es[j].Element? && es[j].key != "" {
          keys := keys + {es[j].key};
        }
      }
      WholeOf(done, es);
      FlattenStep(children, i);
    }
    WholeOf([], children);
    assert [] + children == children;
  }

  lemma IncomingKeysSnoc(done: seq<VNode>, es: seq<VNode>, j: nat)
    requires j < |es|
    ensures IncomingKeys(done + es[..j + 1])
            == IncomingKeys(done + es[..j]) + (if es[j].Element? && es[j].key != "" then {es[j].key} else {})
  {
    PrefixSnoc(done, es, j);
  }

  lemma PrefixSnoc<T>(x: seq<T>, es: seq<T>, j: nat)
    requires j < |es|
    ensures var y := x + es[..j + 1];
            y != [] && y[..|y| - 1] == x + es[..j] && y[|y| - 1] == es[j]
  {
    var y := x + es[..j + 1];
    assert y[..|y| - 1] == x + es[..j];
  }

  /** The child phase of `createElementNode` on `el`, from its first child on: keyed on a
      morph whose first incoming child has a key, positional otherwise. */
  method DiffElementChildren(doc: Document, el: NodeId, canMorph: bool, v: VNode, queue: seq<WorkItem>)
    returns (queue': seq<WorkItem>, fault: bool)
    requires doc.Valid() && v.Element? && el in doc.nodes && doc.nodes[el].ElementNode?
    requires QueueOk(doc.nodes, queue)
    modifies doc
    ensures var b := ChildrenDiffed(old(doc.Snapshot()), el, canMorph, v, queue);
            doc.Snapshot() == b.page && queue' == b.queue && fault == b.fault
  {
    ghost var page := doc.Snapshot();
    var cs := doc.nodes[el].childNodes;
    var prevChild := if cs == [] then None else Some(cs[0]);
    var keyedMode := canMorph && |v.children| > 0 && v.children[0].Element? && v.children[0].key != "";
    var keyed: map<string, NodeId> := map[];
    var incoming: set<string> := {};
    if keyedMode {
      keyed := GetKeyedChildren(doc, el);
      incoming := GetIncomingKeys(v.children);
    }
    ghost var s := PassOf(page, prevChild, {}, queue, false);
    assert PageOf(page, s) == page;
    queue', fault := DiffChildren(doc, el, keyedMode, incoming, keyed, v.children, prevChild, queue, page, s);
  }

  /** The element `createElementNode` works on, with a handler map. */
  method RegisterElement(doc: Document, prev: Option<NodeId>, v: VNode) returns (el: NodeId, canMorph: bool)
    requires doc.Valid() && v.Element?
    requires prev.Some? ==> prev.value in doc.nodes
    modifies doc
    ensures el == TargetOf(old(doc.Snapshot()), prev, v) && canMorph == CanMorph(old(doc.nodes), prev, v)
    ensures doc.Snapshot() == Registered(old(doc.Snapshot()), prev, v)
  {
    ghost var page := doc.Snapshot();
    var namespace := if v.namespace == "" then XhtmlNamespace else v.namespace;
    canMorph := prev.Some? && doc.nodes[prev.value].ElementNode?
                && doc.nodes[prev.value].localName == v.tag && doc.nodes[prev.value].namespaceUri == namespace;
    if canMorph {
      el := prev.value;
    } else {
      el := doc.CreateElementNs(namespace, v.tag);
    }
    if el !in doc.registry {
      doc.SetHandlers(el, map[]);
    }
  }

  /** After the attributes: the key is written and the children diffed; without a key,
      pending raw HTML replaces the children and ends the call; otherwise the children
      are diffed. */
  method CompleteElement(doc: Document, el: NodeId, canMorph: bool, v: VNode, html: Option<Value>, queue: seq<WorkItem>)
    returns (queue': seq<WorkItem>, fault: bool)
    requires doc.Valid() && v.Element? && el in doc.nodes && doc.nodes[el].ElementNode?
    requires QueueOk(doc.nodes, queue)
    modifies doc
    ensures var b := Completed(old(doc.Snapshot()), el, canMorph, v, html, queue);
            doc.Snapshot() == b.page && queue' == b.queue && fault == b.fault
  {
    ghost var page := doc.Snapshot();
    if v.key != "" {
      doc.SetAttribute(el, KeyAttribute, v.key);
      QueueOkGrew(page.nodes, doc.nodes, queue);
    } else if html.Some? {
      doc.SetInnerHtml(el, Stringify(html.value));
      return queue, false;
    }
    queue', fault := DiffElementChildren(doc, el, canMorph, v, queue);
  }

  /** `createElementNode`: the element to work on (the previous node when it can be
      morphed, a fresh one otherwise) gets a handler map, its attributes, then its key
      and children, or raw HTML in place of its children. */
  method CreateElementNode(doc: Document, prev: Option<NodeId>, v: VNode, queue: seq<WorkItem>)
    returns (el: NodeId, queue': seq<WorkItem>, fault: bool)
    requires doc.Valid() && v.Element? && QueueOk(doc.nodes, queue)
    requires prev.Some? ==> prev.value in doc.nodes
    modifies doc
    ensures var b := CreateElement(old(doc.Snapshot()), prev, v, queue);
            doc.Snapshot() == b.page && el == b.el && queue' == b.queue && fault == b.fault
  {
    ghost var page := doc.Snapshot();
    var canMorph;
    el, canMorph := RegisterElement(doc, prev, v);
    var html := ApplyAttributes(doc, el, canMorph, v.attrs);
    assert doc.Snapshot() == Attributed(page, prev, v);
    QueueOkGrew(page.nodes, doc.nodes, queue);
    queue', fault := CompleteElement(doc, el, canMorph, v, html, queue);
  }
}
