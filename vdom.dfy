/** Lustre's virtual nodes: the immutable tree `view` returns and `morph` brings the
    page in line with. */
module Vdom {

  /** A JavaScript value carried by an attribute or a handler: a string, or any other
      value, known by its identity and by the text JavaScript's string conversion
      (`String(v)`, string concatenation, `setAttribute`) gives it. */
  datatype Value = Str(s: string) | NonString(id: nat, text: string)

  /** The value as JavaScript turns it into text. */
  function Stringify(v: Value): string
  {
    match v
    case Str(s) => s
    case NonString(_, t) => t
  }

  /** An entry of an element's `attrs`. `Attribute(name, value, asProperty)` is a plain
      attribute or, with `asProperty`, a live property. `Event(name, handler)` is built by
      `on`, whose name carries the `on` prefix. Both are told apart by their name and
      flag only, exactly as the reconciler does. */
  datatype Attr =
    | Attribute(name: string, value: Value, asProperty: bool)
    | Event(name: string, handler: Value)
  {
    /** `attr[1]`: the value of an attribute, the handler of an event. */
    function Payload(): Value
    {
      match this
      case Attribute(_, v, _) => v
      case Event(_, h) => h
    }

    /** `attr.as_property`, which an `Event` does not have. */
    predicate IsProperty()
    {
      Attribute? && asProperty
    }
  }

  /** `Text`, `Element` and a fragment: a node whose `elements` stand in its place among
      its parent's children. `morph` and `iterateElement` accept fragments; no
      constructor in this program builds one. Children and attributes, Gleam lists in
      the program, are sequences here. */
  datatype VNode =
    | Text(content: string)
    | Element(key: string, namespace: string, tag: string, attrs: seq<Attr>,
              children: seq<VNode>, selfClosing: bool, isVoid: bool)
    | Fragment(elements: seq<VNode>)

  /** The HTML elements that never have children. */
  const VoidTags: set<string> :=
    {"area", "base", "br", "col", "embed", "hr", "img", "input", "link", "meta",
     "param", "source", "track", "wbr"}

  /** `attribute(name, value)`: a plain attribute holding the string `value`. */
  function AttributeOf(name: string, value: string): (a: Attr)
    ensures a.Attribute? && !a.IsProperty()
    ensures a.name == name && Stringify(a.Payload()) == value
  {
    Attribute(name, Str(value), false)
  }

  /** `on(name, handler)`: an event entry whose name is `name` behind the `on` prefix. */
  function On(name: string, handler: Value): (a: Attr)
    ensures a.Event? && !a.IsProperty() && a.Payload() == handler
    ensures |a.name| >= 2 && a.name[..2] == "on" && a.name[2..] == name
  {
    Event("on" + name, handler)
  }

  /** `element(tag, attrs, children)`: an unkeyed element in the default namespace. A
      void tag is marked `void` and loses the children it was given. */
  function ElementOf(tag: string, attrs: seq<Attr>, children: seq<VNode>): (v: VNode)
    ensures v.Element? && v.key == "" && v.namespace == "" && v.tag == tag
    ensures v.attrs == attrs && !v.selfClosing
    ensures v.isVoid <==> tag in VoidTags
    ensures tag in VoidTags ==> v.children == []
    ensures tag !in VoidTags ==> v.children == children
  {
    if tag == "area" then Element("", "", tag, attrs, [], false, true)
    else if tag == "base" then Element("", "", tag, attrs, [], false, true)
    else if tag == "br" then Element("", "", tag, attrs, [], false, true)
    else if tag == "col" then Element("", "", tag, attrs, [], false, true)
    else if tag == "embed" then Element("", "", tag, attrs, [], false, true)
    else if tag == "hr" then Element("", "", tag, attrs, [], false, true)
    else if tag == "img" then Element("", "", tag, attrs, [], false, true)
    else if tag == "input" then Element("", "", tag, attrs, [], false, true)
    else if tag == "link" then Element("", "", tag, attrs, [], false, true)
    else if tag == "meta" then Element("", "", tag, attrs, [], false, true)
    else if tag == "param" then Element("", "", tag, attrs, [], false, true)
    else if tag == "source" then Element("", "", tag, attrs, [], false, true)
    else if tag == "track" then Element("", "", tag, attrs, [], false, true)
    else if tag == "wbr" then Element("", "", tag, attrs, [], false, true)
    else Element("", "", tag, attrs, children, false, false)
  }

  /** The number of vnodes in a tree; it bounds the work `morph` does. */
  function Size(v: VNode): nat
  {
    match v
    case Text(_) => 1
    case Element(_, _, _, _, children, _, _) => 1 + SizeOfAll(children)
    case Fragment(elements) => 1 + SizeOfAll(elements)
  }

  function SizeOfAll(vs: seq<VNode>): nat
  {
    if vs == [] then 0 else Size(vs[0]) + SizeOfAll(vs[1..])
  }

  lemma {:induction false} SizeOfAllAppend(a: seq<VNode>, b: seq<VNode>)
    ensures SizeOfAll(a + b) == SizeOfAll(a) + SizeOfAll(b)
  {
    if a == [] {
      assert a + b == b;
    } else {
      assert (a + b)[1..] == a[1..] + b;
      SizeOfAllAppend(a[1..], b);
    }
  }

  /** `iterateElement`: the vnodes a child stands for, a fragment's elements (one level)
      or the child itself. */
  function Expand(v: VNode): (r: seq<VNode>)
    ensures v.Fragment? ==> r == v.elements
    ensures !v.Fragment? ==> r == [v]
    ensures SizeOfAll(r) <= Size(v)
    ensures v.Fragment? ==> SizeOfAll(r) < Size(v)
  {
    match v
    case Fragment(elements) => elements
    case _ =>
      assert [v][1..] == [];
      [v]
  }
}
