/** Gleam's immutable `Dict`: an optional trie root and a cached size. Every operation
    returns a dict and leaves its argument as it was; one that changes nothing returns
    its argument itself. */
module Dict {
  import opened Prelude
  import opened HamtBits
  import opened HamtNode
  import opened HamtShape
  import opened HamtFind
  import opened HamtAssoc
  import opened HamtWithout

  datatype Dict<K, V> = Dict(root: Option<Node<K, V>>, size: int)

  /** What a dict holds: nothing without a root, the root's entries otherwise. */
  function Contents<K(==), V>(d: Dict<K, V>): map<K, V>
  {
    match d.root
    case None => map[]
    case Some(n) => Elements(n)
  }

  /** A root is a well-formed trie node at shift 0 and the size counts its keys. */
  predicate Valid<K(==), V>(h: K -> bv32, d: Dict<K, V>)
  {
    match d.root
    case None => d.size == 0
    case Some(n) => !n.Entry? && WF(h, n, 0) && d.size == |Elements(n)|
  }

  /** The size of a valid dict is the number of keys it holds. */
  lemma SizeIsCount<K, V>(h: K -> bv32, d: Dict<K, V>)
    requires Valid(h, d)
    ensures d.size == |Contents(d).Keys|
  {
  }

  /** `Dict.new()`: no root and size 0. */
  function New<K(==), V>(): (r: Dict<K, V>)
    ensures Contents(r) == map[]
    ensures r.size == |Contents(r)|
  {
    Dict(None, 0)
  }

  /** `get(key, notFound)`: the value bound to `key`, or `notFound`. */
  function Get<K(==), V>(h: K -> bv32, d: Dict<K, V>, key: K, notFound: V): (r: V)
    requires Valid(h, d)
    ensures key in Contents(d) ==> r == Contents(d)[key]
    ensures key !in Contents(d) ==> r == notFound
  {
    match d.root
    case None => notFound
    case Some(n) =>
      var found := Find(h, n, 0, h(key), key);
      if found.None? then notFound else found.value.v
  }

  /** `has(key)`: whether `key` is bound. */
  function Has<K(==), V>(h: K -> bv32, d: Dict<K, V>, key: K): (r: bool)
    requires Valid(h, d)
    ensures r <==> key in Contents(d)
  {
    match d.root
    case None => false
    case Some(n) => Find(h, n, 0, h(key), key).Some?
  }

  /** `set(key, val)`: the dict with `key` bound to `val`, one larger exactly when `key`
      was new, and the very same dict exactly when `key` was already bound to `val`. */
  function Set<K(==), V(==)>(h: K -> bv32, d: Dict<K, V>, key: K, val: V): (r: Dict<K, V>)
    requires Valid(h, d)
    ensures Valid(h, r)
    ensures Contents(r) == Contents(d)[key := val]
    ensures r.size == if key in Contents(d) then d.size else d.size + 1
    ensures r == d <==> key in Contents(d) && Contents(d)[key] == val
  {
    var root := if d.root.None? then Empty() else d.root.value;
    EmptyWF<K, V>(h, 0);
    var ins := Assoc(h, root, 0, h(key), key, val);
    if Some(ins.node) == d.root then d
    else
      Dict(Some(ins.node), if ins.added then d.size + 1 else d.size)
  }

  /** `delete(key)`: the dict without `key`, one smaller exactly when `key` was bound,
      and the very same dict exactly when it was not. */
  function Delete<K(==), V(==)>(h: K -> bv32, d: Dict<K, V>, key: K): (r: Dict<K, V>)
    requires Valid(h, d)
    ensures Valid(h, r)
    ensures Contents(r) == Contents(d) - {key}
    ensures r.size == if key in Contents(d) then d.size - 1 else d.size
    ensures r == d <==> key !in Contents(d)
  {
    match d.root
    case None => d
    case Some(n) =>
      var out := Without(h, n, 0, h(key), key);
      if out == d.root then d
      else if out.None? then
        assert Contents(d) == map[key := Contents(d)[key]];
        New()
      else
        Dict(out, d.size - 1)
  }


  /** A key just set reads back the value set; every other key reads as before. */
  lemma SetThenGet<K, V>(h: K -> bv32, d: Dict<K, V>, key: K, val: V, other: K, notFound: V)
    requires Valid(h, d)
    ensures Get(h, Set(h, d, key, val), key, notFound) == val
    ensures other != key ==> Get(h, Set(h, d, key, val), other, notFound) == Get(h, d, other, notFound)
  {
  }

  /** A key just deleted is absent; every other key reads as before. */
  lemma DeleteThenGet<K, V>(h: K -> bv32, d: Dict<K, V>, key: K, other: K, notFound: V)
    requires Valid(h, d)
    ensures !Has(h, Delete(h, d, key), key)
    ensures other != key ==> Get(h, Delete(h, d, key), other, notFound) == Get(h, d, other, notFound)
  {
  }
}
