/** The attribute phase of `createElementNode`: the loop over `next.attrs`, the writes of
    `class` and `style` after it, and, on a morph, the stripping of the attributes and
    handlers the new vnode no longer declares. It is a fold over the attributes;
    `Render.ApplyAttributes` performs it on the page and is proved to match. */
module Attributes {
  import opened Prelude
  import opened Vdom
  import opened Dom

  /** Which branch of the attribute loop an entry takes. The tests are made in this
      order, on the name and the `as_property` flag only. */
  datatype Branch = AsProperty | OnEvent | ServerEvent | ClassName | StyleText | RawHtml | Plain

  predicate StartsWith(s: string, prefix: string)
  {
    |prefix| <= |s| && s[..|prefix|] == prefix
  }

  const ServerEventPrefix: string := "data-lustre-on-"

  function BranchOf(a: Attr): Branch
  {
    if a.IsProperty() then AsProperty
    else if StartsWith(a.name, "on") then OnEvent
    else if StartsWith(a.name, ServerEventPrefix) then ServerEvent
    else if a.name == "class" then ClassName
    else if a.name == "style" then StyleText
    else if a.name == "dangerous-unescaped-html" then RawHtml
    else Plain
  }

  /** The event an event entry names: the name without its prefix. */
  function EventName(a: Attr): string
    requires BranchOf(a) == OnEvent || BranchOf(a) == ServerEvent
  {
    if BranchOf(a) == OnEvent then a.name[2..] else a.name[|ServerEventPrefix|..]
  }

  /** The element record, its handler map (the `Map` in `registeredHandlers`) and the
      events it listens to, the sets `prevAttributes` / `prevHandlers` (empty when the
      element is not morphed), the pending `className`, `style` and `innerHTML`, and the
      DOM calls made so far. */
  datatype AttrPass = AttrPass(
    el: Node,
    handlers: map<string, Callback>,
    listening: set<string>,
    prevAttributes: set<string>,
    prevHandlers: set<string>,
    className: Option<string>,
    style: Option<string>,
    innerHtml: Option<Value>,
    writes: multiset<Mutation>)

  /** The state before the loop: on a morph the previous attribute names and handler
      names are remembered. */
  function Start(el: Node, handlers: map<string, Callback>, listening: set<string>, canMorph: bool): (p: AttrPass)
    requires el.ElementNode?
    ensures p.el == el && p.handlers == handlers && p.listening == listening
    ensures p.prevAttributes == (if canMorph then el.attributes.Keys else {})
    ensures p.prevHandlers == (if canMorph then handlers.Keys else {})
    ensures p.className.None? && p.style.None? && p.innerHtml.None? && p.writes == multiset{}
  {
    AttrPass(el, handlers, listening,
             if canMorph then el.attributes.Keys else {},
             if canMorph then handlers.Keys else {},
             None, None, None, multiset{})
  }

  function SetAttr(id: NodeId, p: AttrPass, name: string, value: string): (r: AttrPass)
    requires p.el.ElementNode?
  {
    p.(el := p.el.(attributes := p.el.attributes[name := value]),
       writes := p.writes + multiset{AttributeSet(id, name, value)})
  }

  function SetProp(id: NodeId, p: AttrPass, name: string, value: Value): (r: AttrPass)
    requires p.el.ElementNode?
  {
    p.(el := p.el.(properties := p.el.properties[name := value]),
       writes := p.writes + multiset{PropertySet(id, name, value)})
  }

  /** Attach the listener unless the event is registered already, then (always) store
      the callback. */
  function Listen(id: NodeId, p: AttrPass, event: string, callback: Callback): (r: AttrPass)
    ensures r == p.(handlers := r.handlers, listening := r.listening, writes := r.writes)
    ensures r.handlers == p.handlers[event := callback]
    ensures r.writes == if event in p.handlers then p.writes else p.writes + multiset{ListenerAdded(id, event)}
  {
    var q := if event in p.handlers then p
             else p.(listening := p.listening + {event},
                     writes := p.writes + multiset{ListenerAdded(id, event)});
    q.(handlers := q.handlers[event := callback])
  }

  lemma ListenFacts(id: NodeId, p: AttrPass, event: string, callback: Callback)
    ensures var r := Listen(id, p, event, callback);
            && r.handlers.Keys == p.handlers.Keys + {event}
            && r.listening == p.listening + (r.handlers.Keys - p.handlers.Keys)
            && r.el == p.el && r.prevHandlers == p.prevHandlers && r.prevAttributes == p.prevAttributes
  {
    var r := Listen(id, p, event, callback);
    if event in p.handlers {
      assert r.handlers.Keys - p.handlers.Keys == {};
    } else {
      assert r.handlers.Keys - p.handlers.Keys == {event};
    }
  }

  /** One turn of the attribute loop. */
  function Step(id: NodeId, canMorph: bool, p: AttrPass, a: Attr): (r: AttrPass)
    requires p.el.ElementNode?
    ensures r.el.ElementNode? && r.el.childNodes == p.el.childNodes && r.el.innerHtml == p.el.innerHtml
    ensures r.el.localName == p.el.localName && r.el.namespaceUri == p.el.namespaceUri
  {
    var name := a.name;
    var value := a.Payload();
    match BranchOf(a)
    case AsProperty => PropertyStep(id, canMorph, p, name, value)
    case OnEvent =>
      var q := Listen(id, p, EventName(a), Dispatch(value));
      if canMorph then q.(prevHandlers := q.prevHandlers - {EventName(a)}) else q
    case ServerEvent =>
      SetAttr(id, Listen(id, p, EventName(a), DispatchServerEvent), name, Stringify(value))
    case ClassName =>
      p.(className := Some(if p.className.None? then Stringify(value)
                           else p.className.value + " " + Stringify(value)))
    case StyleText =>
      p.(style := Some(if p.style.None? then Stringify(value) else p.style.value + Stringify(value)))
    case RawHtml =>
      p.(innerHtml := Some(value))
    case Plain => PlainStep(id, canMorph, p, name, value)
  }

  /** A property entry: the property is set unless it holds the value already. Only the
      element's properties, the stale attribute names and the writes change. */
  function PropertyStep(id: NodeId, canMorph: bool, p: AttrPass, name: string, value: Value): (r: AttrPass)
    requires p.el.ElementNode?
    ensures r.el.ElementNode? && r.el == p.el.(properties := r.el.properties)
    ensures r.handlers == p.handlers && r.listening == p.listening && r.prevHandlers == p.prevHandlers
    ensures r.className == p.className && r.style == p.style && r.innerHtml == p.innerHtml
    ensures r.prevAttributes == p.prevAttributes - if canMorph then {name} else {}
    ensures r.writes == p.writes || r.writes == p.writes + multiset{PropertySet(id, name, value)}
    ensures forall e :: r.writes[ListenerAdded(id, e)] == p.writes[ListenerAdded(id, e)]
  {
    var q := if name in p.el.properties && p.el.properties[name] == value then p
             else SetProp(id, p, name, value);
    if canMorph then q.(prevAttributes := q.prevAttributes - {name}) else q
  }

  /** A plain attribute: `setAttribute` for a string value, and for `value` and
      `selected` the property too. Only the element's attributes and properties, the
      stale attribute names and the writes change. */
  function PlainStep(id: NodeId, canMorph: bool, p: AttrPass, name: string, value: Value): (r: AttrPass)
    requires p.el.ElementNode?
    ensures r.el.ElementNode? && r.el == p.el.(attributes := r.el.attributes, properties := r.el.properties)
    ensures r.el.attributes == if value.Str? then p.el.attributes[name := value.s] else p.el.attributes
    ensures r.handlers == p.handlers && r.listening == p.listening && r.prevHandlers == p.prevHandlers
    ensures r.className == p.className && r.style == p.style && r.innerHtml == p.innerHtml
    ensures r.prevAttributes == p.prevAttributes - if canMorph then {name} else {}
    ensures r.writes <= p.writes + multiset{PropertySet(id, name, value)}
                                 + (if value.Str? then multiset{AttributeSet(id, name, value.s)} else multiset{})
    ensures forall e :: r.writes[ListenerAdded(id, e)] == p.writes[ListenerAdded(id, e)]
  {
    var q := if value.Str? then SetAttr(id, p, name, value.s) else p;
    var q' := if name == "value" || name == "selected" then SetProp(id, q, name, value) else q;
    if canMorph then q'.(prevAttributes := q'.prevAttributes - {name}) else q'
  }

  /** The loop over all of `attrs`, in order. */
  function Loop(id: NodeId, canMorph: bool, p: AttrPass, attrs: seq<Attr>): (r: AttrPass)
    requires p.el.ElementNode?
    ensures r.el.ElementNode? && r.el.childNodes == p.el.childNodes && r.el.innerHtml == p.el.innerHtml
    ensures r.el.localName == p.el.localName && r.el.namespaceUri == p.el.namespaceUri
  {
    if attrs == [] then p
    else Step(id, canMorph, Loop(id, canMorph, p, attrs[..|attrs| - 1]), attrs[|attrs| - 1])
  }

  /** One `removeAttribute` per name. */
  function AttributeRemovals(id: NodeId, names: set<string>): multiset<Mutation>
  {
    multiset(set n | n in names :: AttributeRemoved(id, n))
  }

  /** One `removeEventListener` per event name. */
  function ListenerRemovals(id: NodeId, events: set<string>): multiset<Mutation>
  {
    multiset(set e | e in events :: ListenerRemoved(id, e))
  }

  /** After the loop, `class` or `style` (`name`) is written once with the collected
      text, if there was any, and crossed off `prevAttributes` on a morph. */
  function WritePending(id: NodeId, canMorph: bool, p: AttrPass, name: string, pending: Option<string>): (r: AttrPass)
    requires p.el.ElementNode?
    ensures r.el.ElementNode? && r.el.childNodes == p.el.childNodes && r.el.innerHtml == p.el.innerHtml
    ensures r.el.localName == p.el.localName && r.el.namespaceUri == p.el.namespaceUri
    ensures r.handlers == p.handlers && r.listening == p.listening && r.prevHandlers == p.prevHandlers
    ensures r.className == p.className && r.style == p.style && r.innerHtml == p.innerHtml
    ensures pending.None? ==> r == p
    ensures pending.Some? ==> r.el.attributes == p.el.attributes[name := pending.value]
    ensures r.prevAttributes == p.prevAttributes - (if canMorph && pending.Some? then {name} else {})
  {
    if pending.None? then p
    else
      var q := SetAttr(id, p, name, pending.value);
      if canMorph then q.(prevAttributes := q.prevAttributes - {name}) else q
  }

  /** On a morph: every attribute and handler still in `prevAttributes` /
      `prevHandlers` is removed, the handler together with its listener. */
  function Strip(id: NodeId, p: AttrPass): (r: AttrPass)
    requires p.el.ElementNode?
    ensures r.el.ElementNode? && r.el.childNodes == p.el.childNodes && r.el.innerHtml == p.el.innerHtml
    ensures r.el.localName == p.el.localName && r.el.namespaceUri == p.el.namespaceUri
    ensures r.innerHtml == p.innerHtml
    ensures forall n | n in p.prevAttributes :: n !in r.el.attributes && AttributeRemoved(id, n) in r.writes
    ensures forall n | n in p.el.attributes && n !in p.prevAttributes :: n in r.el.attributes
    ensures r.handlers.Keys == p.handlers.Keys - p.prevHandlers
    ensures r.listening == p.listening - p.prevHandlers
  {
    var r := p.(el := p.el.(attributes := p.el.attributes - p.prevAttributes),
                handlers := p.handlers - p.prevHandlers,
                listening := p.listening - p.prevHandlers,
                writes := p.writes + AttributeRemovals(id, p.prevAttributes)
                                   + ListenerRemovals(id, p.prevHandlers));
    assert forall n | n in p.prevAttributes ::
      AttributeRemoved(id, n) in (set m | m in p.prevAttributes :: AttributeRemoved(id, m));
    r
  }

  /** After the loop: `class`, then `style`, each written once; on a morph, the stale
      attributes and handlers are stripped. */
  function Finish(id: NodeId, canMorph: bool, p: AttrPass): (r: AttrPass)
    requires p.el.ElementNode?
    ensures r.el.ElementNode? && r.el.childNodes == p.el.childNodes && r.el.innerHtml == p.el.innerHtml
    ensures r.el.localName == p.el.localName && r.el.namespaceUri == p.el.namespaceUri
    ensures r.innerHtml == p.innerHtml
  {
    var withClass := WritePending(id, canMorph, p, "class", p.className);
    var withStyle := WritePending(id, canMorph, withClass, "style", withClass.style);
    if canMorph then Strip(id, withStyle) else withStyle
  }

  /** The whole attribute phase. */
  function Pass(id: NodeId, canMorph: bool, start: AttrPass, attrs: seq<Attr>): (r: AttrPass)
    requires start.el.ElementNode?
    ensures r.el.ElementNode? && r.el.childNodes == start.el.childNodes
    ensures r.el.innerHtml == start.el.innerHtml
    ensures r.el.localName == start.el.localName && r.el.namespaceUri == start.el.namespaceUri
  {
    Finish(id, canMorph, Loop(id, canMorph, start, attrs))
  }

  // ---------------------------------------------------------------------------------
  // What the phase guarantees

  /** The texts of the entries that take branch `b`, in order. */
  function Texts(attrs: seq<Attr>, b: Branch): seq<string>
  {
    if attrs == [] then []
    else Texts(attrs[..|attrs| - 1], b)
         + (if BranchOf(attrs[|attrs| - 1]) == b then [Stringify(attrs[|attrs| - 1].Payload())] else [])
  }

  /** `parts` joined with `sep` between consecutive parts. */
  function Join(parts: seq<string>, sep: string): string
  {
    if |parts| == 0 then ""
    else if |parts| == 1 then parts[0]
    else Join(parts[..|parts| - 1], sep) + sep + parts[|parts| - 1]
  }

  lemma JoinSnoc(parts: seq<string>, x: string, sep: string)
    ensures Join(parts + [x], sep) == if parts == [] then x else Join(parts, sep) + sep + x
  {
    assert (parts + [x])[..|parts|] == parts;
  }

  // What one turn of the loop does to each piece of bookkeeping.

  lemma StepHandlers(id: NodeId, canMorph: bool, p: AttrPass, a: Attr)
    requires p.el.ElementNode?
    ensures var r := Step(id, canMorph, p, a);
            var b := BranchOf(a);
            r.handlers.Keys == p.handlers.Keys + (if b == OnEvent || b == ServerEvent then {EventName(a)} else {})
  {
  }

  lemma StepListening(id: NodeId, canMorph: bool, p: AttrPass, a: Attr)
    requires p.el.ElementNode?
    ensures var r := Step(id, canMorph, p, a);
            r.listening == p.listening + (r.handlers.Keys - p.handlers.Keys)
  {
    match BranchOf(a)
    case OnEvent => ListenFacts(id, p, EventName(a), Dispatch(a.Payload()));
    case ServerEvent => ListenFacts(id, p, EventName(a), DispatchServerEvent);
    case _ =>
  }

  lemma StepPrevHandlers(id: NodeId, canMorph: bool, p: AttrPass, a: Attr)
    requires p.el.ElementNode?
    ensures var r := Step(id, canMorph, p, a);
            var b := BranchOf(a);
            r.prevHandlers == p.prevHandlers - (if canMorph && b == OnEvent then {EventName(a)} else {})
  {
  }

  lemma StepPrevAttributes(id: NodeId, canMorph: bool, p: AttrPass, a: Attr)
    requires p.el.ElementNode?
    ensures var r := Step(id, canMorph, p, a);
            var b := BranchOf(a);
            r.prevAttributes == p.prevAttributes - (if canMorph && (b == AsProperty || b == Plain) then {a.name} else {})
  {
  }

  lemma StepAttributesGrow(id: NodeId, canMorph: bool, p: AttrPass, a: Attr)
    requires p.el.ElementNode?
    ensures var r := Step(id, canMorph, p, a);
            var b := BranchOf(a);
            r.el.attributes.Keys >= p.el.attributes.Keys
  {
  }

  lemma StepClass(id: NodeId, canMorph: bool, p: AttrPass, a: Attr)
    requires p.el.ElementNode?
    ensures Step(id, canMorph, p, a).className ==
              if BranchOf(a) != ClassName then p.className
              else if p.className.None? then Some(Stringify(a.Payload()))
              else Some(p.className.value + " " + Stringify(a.Payload()))
  {
  }

  lemma StepStyle(id: NodeId, canMorph: bool, p: AttrPass, a: Attr)
    requires p.el.ElementNode?
    ensures Step(id, canMorph, p, a).style ==
              if BranchOf(a) != StyleText then p.style
              else if p.style.None? then Some(Stringify(a.Payload()))
              else Some(p.style.value + Stringify(a.Payload()))
  {
  }

  lemma StepRawHtml(id: NodeId, canMorph: bool, p: AttrPass, a: Attr)
    requires p.el.ElementNode?
    ensures Step(id, canMorph, p, a).innerHtml ==
              if BranchOf(a) == RawHtml then Some(a.Payload()) else p.innerHtml
  {
  }

  /** Repeated `class` entries are joined with one space. */
  lemma {:induction false} LoopClass(id: NodeId, canMorph: bool, start: AttrPass, attrs: seq<Attr>)
    requires start.el.ElementNode? && start.className.None?
    ensures var r := Loop(id, canMorph, start, attrs);
            && (r.className.Some? <==> Texts(attrs, ClassName) != [])
            && (r.className.Some? ==> r.className.value == Join(Texts(attrs, ClassName), " "))
  {
    if attrs != [] {
      var init, a := attrs[..|attrs| - 1], attrs[|attrs| - 1];
      LoopClass(id, canMorph, start, init);
      var p := Loop(id, canMorph, start, init);
      assert Loop(id, canMorph, start, attrs) == Step(id, canMorph, p, a);
      StepClass(id, canMorph, p, a);
      if BranchOf(a) == ClassName {
        assert Texts(attrs, ClassName) == Texts(init, ClassName) + [Stringify(a.Payload())];
        JoinSnoc(Texts(init, ClassName), Stringify(a.Payload()), " ");
      } else {
        assert Texts(attrs, ClassName) == Texts(init, ClassName);
      }
    }
  }

  /** Repeated `style` entries are concatenated with no separator. */
  lemma {:induction false} LoopStyle(id: NodeId, canMorph: bool, start: AttrPass, attrs: seq<Attr>)
    requires start.el.ElementNode? && start.style.None?
    ensures var r := Loop(id, canMorph, start, attrs);
            && (r.style.Some? <==> Texts(attrs, StyleText) != [])
            && (r.style.Some? ==> r.style.value == Join(Texts(attrs, StyleText), ""))
  {
    if attrs != [] {
      var init, a := attrs[..|attrs| - 1], attrs[|attrs| - 1];
      LoopStyle(id, canMorph, start, init);
      var p := Loop(id, canMorph, start, init);
      assert Loop(id, canMorph, start, attrs) == Step(id, canMorph, p, a);
      StepStyle(id, canMorph, p, a);
      if BranchOf(a) == StyleText {
        assert Texts(attrs, StyleText) == Texts(init, StyleText) + [Stringify(a.Payload())];
        JoinSnoc(Texts(init, StyleText), Stringify(a.Payload()), "");
        var styles := Join(Texts(init, StyleText), "");
        assert styles + "" == styles;
      } else {
        assert Texts(attrs, StyleText) == Texts(init, StyleText);
      }
    }
  }

  /** The raw HTML is that of the last `dangerous-unescaped-html` entry. */
  lemma {:induction false} LoopRawHtml(id: NodeId, canMorph: bool, start: AttrPass, attrs: seq<Attr>)
    requires start.el.ElementNode? && start.innerHtml.None?
    ensures var r := Loop(id, canMorph, start, attrs);
            && (r.innerHtml.Some? <==> Texts(attrs, RawHtml) != [])
            && (r.innerHtml.Some? ==>
                  Stringify(r.innerHtml.value) == Texts(attrs, RawHtml)[|Texts(attrs, RawHtml)| - 1])
  {
    if attrs != [] {
      var init, a := attrs[..|attrs| - 1], attrs[|attrs| - 1];
      LoopRawHtml(id, canMorph, start, init);
      StepRawHtml(id, canMorph, Loop(id, canMorph, start, init), a);
    }
  }

  /** The names `Loop` takes out of `prevAttributes`: properties, plain attributes. */
  function Declared(attrs: seq<Attr>): set<string>
  {
    if attrs == [] then {}
    else Declared(attrs[..|attrs| - 1])
         + (if BranchOf(attrs[|attrs| - 1]) in {AsProperty, Plain} then {attrs[|attrs| - 1].name} else {})
  }

  /** The events declared by entries taking branch `b` (`on…` or `data-lustre-on-…`). */
  function Events(attrs: seq<Attr>, b: Branch): set<string>
    requires b == OnEvent || b == ServerEvent
  {
    if attrs == [] then {}
    else Events(attrs[..|attrs| - 1], b)
         + (if BranchOf(attrs[|attrs| - 1]) == b then {EventName(attrs[|attrs| - 1])} else {})
  }

  /** During the loop the handler names only grow, by exactly the declared events, and
      a listener is attached for each new one. */
  lemma {:induction false} LoopHandlers(id: NodeId, canMorph: bool, start: AttrPass, attrs: seq<Attr>)
    requires start.el.ElementNode?
    ensures var r := Loop(id, canMorph, start, attrs);
            && r.handlers.Keys == start.handlers.Keys + Events(attrs, OnEvent) + Events(attrs, ServerEvent)
            && r.listening == start.listening + (r.handlers.Keys - start.handlers.Keys)
  {
    if attrs != [] {
      var init := attrs[..|attrs| - 1];
      var a := attrs[|attrs| - 1];
      LoopHandlers(id, canMorph, start, init);
      var p := Loop(id, canMorph, start, init);
      var r := Loop(id, canMorph, start, attrs);
      StepHandlers(id, canMorph, p, a);
      StepListening(id, canMorph, p, a);
      EventsSnoc(attrs);
      ListeningChain(start.handlers.Keys, p.handlers.Keys, r.handlers.Keys, start.listening, p.listening, r.listening);
    }
  }

  /** The events declared by all entries are those of all but the last, and the last's. */
  lemma EventsSnoc(attrs: seq<Attr>)
    requires attrs != []
    ensures var a := attrs[|attrs| - 1];
            var init := attrs[..|attrs| - 1];
            Events(attrs, OnEvent) + Events(attrs, ServerEvent)
            == Events(init, OnEvent) + Events(init, ServerEvent)
               + if BranchOf(a) == OnEvent || BranchOf(a) == ServerEvent then {EventName(a)} else {}
  {
  }

  /** Listening to every name added at each of two stages is listening to every name
      added overall. */
  lemma ListeningChain<T>(k0: set<T>, k1: set<T>, k2: set<T>, l0: set<T>, l1: set<T>, l2: set<T>)
    requires k0 <= k1 <= k2 && l1 == l0 + (k1 - k0) && l2 == l1 + (k2 - k1)
    ensures l2 == l0 + (k2 - k0)
  {
  }

  /** During the loop, on a morph, an `on…` event is crossed off `prevHandlers` and a
      property or plain attribute name off `prevAttributes`; a server event and its
      `data-lustre-on-…` attribute are not. Without a morph both sets stay as they were.
      Attributes are only ever added. */
  lemma {:induction false} LoopStrips(id: NodeId, canMorph: bool, start: AttrPass, attrs: seq<Attr>)
    requires start.el.ElementNode?
    ensures var r := Loop(id, canMorph, start, attrs);
            && r.prevHandlers == start.prevHandlers - (if canMorph then Events(attrs, OnEvent) else {})
            && r.prevAttributes == start.prevAttributes - (if canMorph then Declared(attrs) else {})
            && r.el.attributes.Keys >= start.el.attributes.Keys
  {
    if attrs != [] {
      var init := attrs[..|attrs| - 1];
      var a := attrs[|attrs| - 1];
      LoopStrips(id, canMorph, start, init);
      var p := Loop(id, canMorph, start, init);
      var r := Loop(id, canMorph, start, attrs);
      StepPrevHandlers(id, canMorph, p, a);
      StepPrevAttributes(id, canMorph, p, a);
      StepAttributesGrow(id, canMorph, p, a);
      if canMorph {
        assert Events(attrs, OnEvent) == Events(init, OnEvent) + if BranchOf(a) == OnEvent then {EventName(a)} else {};
        assert Declared(attrs) == Declared(init) + if BranchOf(a) in {AsProperty, Plain} then {a.name} else {};
        MinusChain(start.prevHandlers, Events(init, OnEvent), if BranchOf(a) == OnEvent then {EventName(a)} else {},
                   p.prevHandlers, r.prevHandlers);
        MinusChain(start.prevAttributes, Declared(init), if BranchOf(a) in {AsProperty, Plain} then {a.name} else {},
                   p.prevAttributes, r.prevAttributes);
      }
    }
  }

  /** Crossing off two batches of names is crossing off both at once. */
  lemma MinusChain<T>(s0: set<T>, e1: set<T>, e2: set<T>, s1: set<T>, s2: set<T>)
    requires s1 == s0 - e1 && s2 == s1 - e2
    ensures s2 == s0 - (e1 + e2)
  {
  }

  /** Every registered event keeps its listener: if the listener set matched the
      registered names before the phase, it matches them after. */
  lemma ListenersMatchHandlers(id: NodeId, canMorph: bool, start: AttrPass, attrs: seq<Attr>)
    requires start.el.ElementNode? && start.listening == start.handlers.Keys
    requires canMorph ==> start.prevHandlers <= start.handlers.Keys
    ensures var r := Pass(id, canMorph, start, attrs); r.listening == r.handlers.Keys
  {
    LoopHandlers(id, canMorph, start, attrs);
    LoopStrips(id, canMorph, start, attrs);
  }

  /** On a morph, the handlers left are the `on…` events declared now, and the server
      events declared now that were not registered before (or are also declared with
      `on…`); every other previously registered event is dropped with its listener. */
  lemma MorphHandlers(id: NodeId, el: Node, handlers: map<string, Callback>, attrs: seq<Attr>)
    requires el.ElementNode?
    ensures var r := Pass(id, true, Start(el, handlers, handlers.Keys, true), attrs);
            var on := Events(attrs, OnEvent);
            var server := Events(attrs, ServerEvent);
            && r.handlers.Keys == on + (server - (handlers.Keys - on))
            && r.listening == r.handlers.Keys
  {
    LoopHandlers(id, true, Start(el, handlers, handlers.Keys, true), attrs);
    LoopStrips(id, true, Start(el, handlers, handlers.Keys, true), attrs);
  }

  /** Whether entry `a` declares a handler for `event`, with `on…` or `data-lustre-on-…`. */
  predicate Declares(a: Attr, event: string)
  {
    (BranchOf(a) == OnEvent || BranchOf(a) == ServerEvent) && EventName(a) == event
  }

  /** The callback an event entry stores: `dispatch` of its own value for `on…`, the
      server-event relay for `data-lustre-on-…`. */
  function CallbackOf(a: Attr): Callback
    requires BranchOf(a) == OnEvent || BranchOf(a) == ServerEvent
  {
    if BranchOf(a) == OnEvent then Dispatch(a.Payload()) else DispatchServerEvent
  }

  /** The callback of the last entry that declares `event`, if any entry does. */
  function LastCallback(attrs: seq<Attr>, event: string): Option<Callback>
  {
    if attrs == [] then None
    else if Declares(attrs[|attrs| - 1], event) then Some(CallbackOf(attrs[|attrs| - 1]))
    else LastCallback(attrs[..|attrs| - 1], event)
  }

  /** One turn stores the entry's callback under its event, replacing any earlier one. */
  lemma StepStores(id: NodeId, canMorph: bool, p: AttrPass, a: Attr)
    requires p.el.ElementNode?
    ensures Step(id, canMorph, p, a).handlers ==
              if BranchOf(a) == OnEvent || BranchOf(a) == ServerEvent
              then p.handlers[EventName(a) := CallbackOf(a)] else p.handlers
  {
    match BranchOf(a)
    case OnEvent =>
      var q := Listen(id, p, EventName(a), Dispatch(a.Payload()));
      assert q.handlers == p.handlers[EventName(a) := CallbackOf(a)];
    case ServerEvent =>
      var q := Listen(id, p, EventName(a), DispatchServerEvent);
      assert q.handlers == p.handlers[EventName(a) := CallbackOf(a)];
    case AsProperty =>
    case ClassName =>
    case StyleText =>
    case RawHtml =>
    case Plain =>
  }

  /** One turn logs `addEventListener` for an event only when it declares the event and
      no handler is registered for it yet. */
  lemma StepAttaches(id: NodeId, canMorph: bool, p: AttrPass, a: Attr, event: string)
    requires p.el.ElementNode?
    ensures Step(id, canMorph, p, a).writes[ListenerAdded(id, event)] ==
              p.writes[ListenerAdded(id, event)] + if Declares(a, event) && event !in p.handlers then 1 else 0
  {
    var x := ListenerAdded(id, event);
    match BranchOf(a)
    case OnEvent =>
      var q := Listen(id, p, EventName(a), Dispatch(a.Payload()));
      assert q.writes[x] == p.writes[x] + if Declares(a, event) && event !in p.handlers then 1 else 0;
    case ServerEvent =>
      var q := Listen(id, p, EventName(a), DispatchServerEvent);
      assert q.writes[x] == p.writes[x] + if Declares(a, event) && event !in p.handlers then 1 else 0;
      assert AttributeSet(id, a.name, Stringify(a.Payload())) != x;
    case AsProperty =>
    case ClassName =>
    case StyleText =>
    case RawHtml =>
    case Plain =>
  }

  /** The loop leaves under each event the callback of the last entry that declares it
      (an earlier handler is replaced, not kept), and attaches a listener for the event
      once if it had no handler before, never if it had one. */
  lemma {:induction false} LoopCallbacks(id: NodeId, canMorph: bool, start: AttrPass, attrs: seq<Attr>, event: string)
    requires start.el.ElementNode?
    ensures var r := Loop(id, canMorph, start, attrs);
            var last := LastCallback(attrs, event);
            && (last.Some? ==> event in r.handlers && r.handlers[event] == last.value)
            && (last.None? ==> (event in r.handlers <==> event in start.handlers))
            && (last.None? && event in start.handlers ==> r.handlers[event] == start.handlers[event])
            && r.writes[ListenerAdded(id, event)] ==
                 start.writes[ListenerAdded(id, event)] + if last.Some? && event !in start.handlers then 1 else 0
  {
    if attrs != [] {
      var init := attrs[..|attrs| - 1];
      var a := attrs[|attrs| - 1];
      LoopCallbacks(id, canMorph, start, init, event);
      var p := Loop(id, canMorph, start, init);
      StepStores(id, canMorph, p, a);
      StepAttaches(id, canMorph, p, a, event);
    }
  }

  /** The whole phase: an event an `on…` entry declares (or, without a morph or when it
      was not registered before, any declared event) ends with the callback of its last
      entry; `addEventListener` is logged for it exactly once when it had no handler
      before and never when it had one. */
  lemma PassCallbacks(id: NodeId, canMorph: bool, start: AttrPass, attrs: seq<Attr>, event: string)
    requires start.el.ElementNode?
    ensures var r := Pass(id, canMorph, start, attrs);
            var last := LastCallback(attrs, event);
            && ((last.Some? && (!canMorph || event in Events(attrs, OnEvent) || event !in start.prevHandlers))
                ==> event in r.handlers && r.handlers[event] == last.value)
            && r.writes[ListenerAdded(id, event)] ==
                 start.writes[ListenerAdded(id, event)] + if last.Some? && event !in start.handlers then 1 else 0
  {
    LoopCallbacks(id, canMorph, start, attrs, event);
    LoopStrips(id, canMorph, start, attrs);
    var p := Loop(id, canMorph, start, attrs);
    var withClass := WritePending(id, canMorph, p, "class", p.className);
    var withStyle := WritePending(id, canMorph, withClass, "style", withClass.style);
    FinishAttachesNothing(id, canMorph, p, withClass, withStyle, event);
  }

  /** Writing `class` and `style` and stripping stale names attach no listener. */
  lemma FinishAttachesNothing(id: NodeId, canMorph: bool, p: AttrPass, withClass: AttrPass, withStyle: AttrPass,
                              event: string)
    requires p.el.ElementNode?
    requires withClass == WritePending(id, canMorph, p, "class", p.className)
    requires withStyle == WritePending(id, canMorph, withClass, "style", withClass.style)
    ensures Finish(id, canMorph, p).writes[ListenerAdded(id, event)] == p.writes[ListenerAdded(id, event)]
    ensures Finish(id, canMorph, p).handlers == if canMorph then p.handlers - p.prevHandlers else p.handlers
  {
    var x := ListenerAdded(id, event);
    assert withClass.writes[x] == p.writes[x];
    assert withStyle.writes[x] == p.writes[x];
    if canMorph {
      assert x !in (set n | n in withStyle.prevAttributes :: AttributeRemoved(id, n));
      assert x !in (set e | e in withStyle.prevHandlers :: ListenerRemoved(id, e));
    }
  }

  /** On a morph, a previous attribute that no property, plain attribute, `class` or
      `style` entry declares is removed, even one the `data-lustre-on-…` branch just
      wrote. */
  lemma MorphStripsUndeclared(id: NodeId, el: Node, handlers: map<string, Callback>, attrs: seq<Attr>, name: string)
    requires el.ElementNode? && name in el.attributes
    requires name !in Declared(attrs)
    requires name == "class" ==> Texts(attrs, ClassName) == []
    requires name == "style" ==> Texts(attrs, StyleText) == []
    ensures var r := Pass(id, true, Start(el, handlers, handlers.Keys, true), attrs);
            name !in r.el.attributes && AttributeRemoved(id, name) in r.writes
  {
    var start := Start(el, handlers, handlers.Keys, true);
    LoopStrips(id, true, start, attrs);
    LoopClass(id, true, start, attrs);
    LoopStyle(id, true, start, attrs);
    var r := Loop(id, true, start, attrs);
    var withClass := WritePending(id, true, r, "class", r.className);
    var withStyle := WritePending(id, true, withClass, "style", withClass.style);
    assert name in withStyle.prevAttributes;
  }

  /** A `data-lustre-on-` entry takes the server-event branch and names its event. */
  lemma ServerEntry(event: string, value: Value)
    ensures var a := Attribute(ServerEventPrefix + event, value, false);
            BranchOf(a) == ServerEvent && EventName(a) == event
  {
    var a := Attribute(ServerEventPrefix + event, value, false);
    assert a.name[1] == 'a';
    assert a.name[..|ServerEventPrefix|] == ServerEventPrefix;
    assert a.name[|ServerEventPrefix|..] == event;
  }

  /** The `data-lustre-on-` quirk: re-rendering an element with the same server event
      entry loses both the attribute and the handler on the second render. */
  lemma ServerEventLostOnMorph(id: NodeId, el: Node, handlers: map<string, Callback>, event: string, value: string)
    requires el.ElementNode? && ServerEventPrefix + event in el.attributes && event in handlers
    ensures var attrs := [Attribute(ServerEventPrefix + event, Str(value), false)];
            var r := Pass(id, true, Start(el, handlers, handlers.Keys, true), attrs);
            ServerEventPrefix + event !in r.el.attributes && event !in r.handlers
  {
    var a := Attribute(ServerEventPrefix + event, Str(value), false);
    ServerEntry(event, Str(value));
    var attrs := [a];
    assert attrs[..0] == [];
    assert Declared(attrs) == {};
    assert Texts(attrs, ClassName) == [];
    assert Texts(attrs, StyleText) == [];
    assert Events(attrs, OnEvent) == {};
    assert Events(attrs, ServerEvent) == Events([], ServerEvent) + {event} == {event};
    MorphStripsUndeclared(id, el, handlers, attrs, a.name);
    MorphHandlers(id, el, handlers, attrs);
  }
}
