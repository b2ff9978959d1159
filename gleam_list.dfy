/** Gleam's immutable cons list, as the JavaScript prelude defines it (`Empty` / `NonEmpty`),
    and the list helpers of `gleam/list` that the bundle uses. The helpers are compiled
    tail loops over rebinding variables, so each is a method with a `while` loop proved
    against `Elements`, the front-to-back sequence of a list. */
module GleamList {
  import opened Prelude

  datatype List<T> = Empty | NonEmpty(head: T, tail: List<T>)

  /** The elements of a list, front to back: what the list iterator yields. */
  function Elements<T>(l: List<T>): seq<T>
  {
    match l
    case Empty => []
    case NonEmpty(h, t) => [h] + Elements(t)
  }

  /** The list holding exactly the elements of `s`. */
  function FromSeq<T>(s: seq<T>): (l: List<T>)
    ensures Elements(l) == s
  {
    if s == [] then Empty else NonEmpty(s[0], FromSeq(s[1..]))
  }

  /** A list is determined by its elements. */
  lemma {:induction false} ElementsInjective<T>(a: List<T>, b: List<T>)
    requires Elements(a) == Elements(b)
    ensures a == b
  {
    match a
    case Empty =>
    case NonEmpty(h, t) =>
      assert Elements(b)[0] == h;
      assert Elements(t) == Elements(a)[1..] == Elements(b)[1..] == Elements(b.tail);
      ElementsInjective(t, b.tail);
  }

  /** Reference definition of reversal, independent of the accumulator loops below. */
  function Reversed<T>(s: seq<T>): seq<T>
  {
    if s == [] then [] else Reversed(s[1..]) + [s[0]]
  }

  lemma {:induction false} ReversedLength<T>(s: seq<T>)
    ensures |Reversed(s)| == |s|
  {
    if s != [] { ReversedLength(s[1..]); }
  }

  /** Reversal turns a concatenation around. */
  lemma {:induction false} ReversedAppend<T>(a: seq<T>, b: seq<T>)
    ensures Reversed(a + b) == Reversed(b) + Reversed(a)
  {
    if a == [] {
      assert a + b == b;
    } else {
      assert (a + b)[1..] == a[1..] + b;
      assert (a + b)[0] == a[0];
      ReversedAppend(a[1..], b);
    }
  }

  /** Reversing twice gives back the original sequence. */
  lemma {:induction false} ReversedInvolution<T>(s: seq<T>)
    ensures Reversed(Reversed(s)) == s
  {
    if s != [] {
      ReversedAppend(Reversed(s[1..]), [s[0]]);
      assert Reversed([s[0]]) == [s[0]];
      ReversedInvolution(s[1..]);
    }
  }

  /** Element-wise application of `f`. */
  function MapSeq<A, B>(s: seq<A>, f: A -> B): (r: seq<B>)
    ensures |r| == |s|
  {
    seq(|s|, i requires 0 <= i < |s| => f(s[i]))
  }

  /** The concatenation of the elements of every list in `ls`, in order. */
  function Concat<T>(ls: seq<List<T>>): seq<T>
  {
    if ls == [] then [] else Elements(ls[0]) + Concat(ls[1..])
  }

  lemma {:induction false} ConcatSnoc<T>(ls: seq<List<T>>, l: List<T>)
    ensures Concat(ls + [l]) == Concat(ls) + Elements(l)
  {
    if ls == [] {
      assert [] + [l] == [l];
      assert Concat([l]) == Elements(l) + Concat([]);
    } else {
      assert (ls + [l])[1..] == ls[1..] + [l];
      ConcatSnoc(ls[1..], l);
    }
  }

  lemma PrependStep<T>(a: seq<T>, i: nat, t: List<T>, tail: List<T>)
    requires i < |a| && Elements(t) == a[i + 1..] + Elements(tail)
    ensures Elements(NonEmpty(a[i], t)) == a[i..] + Elements(tail)
  {
    assert a[i..] == [a[i]] + a[i + 1..];
  }

  /** `List.fromArray`: walks the array from its last index down, prepending, so the
      result holds the array's elements followed by those of `tail`, or of the empty
      list when no tail is given. */
  method FromArray<T>(a: seq<T>, tail: Option<List<T>>) returns (t: List<T>)
    ensures tail.Some? ==> Elements(t) == a + Elements(tail.value)
    ensures tail.None? ==> Elements(t) == a
  {
    var base := if tail.Some? then tail.value else Empty;
    t := base;
    var i: int := |a| - 1;
    while i >= 0
      invariant -1 <= i < |a|
      invariant Elements(t) == a[i + 1..] + Elements(base)
    {
      PrependStep(a, i, t, base);
      t := NonEmpty(a[i], t);
      i := i - 1;
    }
    assert a[0..] == a;
  }

  /** `List.toArray`: drains the list iterator into an array. */
  method ToArray<T>(l: List<T>) returns (s: seq<T>)
    ensures s == Elements(l)
  {
    s := [];
    var current := l;
    while current.NonEmpty?
      invariant s + Elements(current) == Elements(l)
      decreases current
    {
      s := s + [current.head];
      current := current.tail;
    }
  }

  /** `atLeastLength`: true exactly when the list holds at least `desired` elements
      (always true for a non-positive `desired`). */
  method AtLeastLength<T>(l: List<T>, desired: int) returns (b: bool)
    ensures b <==> |Elements(l)| >= desired
  {
    var d := desired;
    var current := l;
    ghost var seen := 0;
    while current.NonEmpty?
      invariant 0 <= seen <= |Elements(l)|
      invariant Elements(l) == Elements(l)[..seen] + Elements(current)
      invariant d == desired - seen
      decreases current
    {
      if d <= 0 {
        return true;
      }
      d := d - 1;
      seen := seen + 1;
      current := current.tail;
    }
    b := d <= 0;
  }

  /** `hasLength`: true exactly when the list holds exactly `desired` elements. */
  method HasLength<T>(l: List<T>, desired: int) returns (b: bool)
    ensures b <==> |Elements(l)| == desired
  {
    var d := desired;
    var current := l;
    ghost var seen := 0;
    while current.NonEmpty?
      invariant 0 <= seen <= |Elements(l)|
      invariant Elements(l) == Elements(l)[..seen] + Elements(current)
      invariant d == desired - seen
      invariant seen > 0 ==> d >= 0
      decreases current
    {
      if d <= 0 {
        return false;
      }
      d := d - 1;
      seen := seen + 1;
      current := current.tail;
    }
    b := d == 0;
  }

  /** `countLength`: the number of elements. */
  method CountLength<T>(l: List<T>) returns (n: nat)
    ensures n == |Elements(l)|
  {
    n := 0;
    var current := l;
    while current.NonEmpty?
      invariant n + |Elements(current)| == |Elements(l)|
      decreases current
    {
      n := n + 1;
      current := current.tail;
    }
  }

  /** `do_reverse`: moves the elements of `remaining` one by one onto the front of the
      accumulator. */
  method DoReverse<T>(remaining: List<T>, accumulator: List<T>) returns (r: List<T>)
    ensures Elements(r) == Reversed(Elements(remaining)) + Elements(accumulator)
  {
    var rest := remaining;
    var acc := accumulator;
    while true
      invariant Reversed(Elements(rest)) + Elements(acc)
             == Reversed(Elements(remaining)) + Elements(accumulator)
      decreases rest
    {
      var isEmpty := HasLength(rest, 0);
      if isEmpty {
        return acc;
      }
      var item, tail := rest.head, rest.tail;
      assert Elements(rest)[1..] == Elements(tail);
      rest := tail;
      acc := NonEmpty(item, acc);
    }
  }

  /** `reverse`: the elements in the opposite order. */
  method Reverse<T>(xs: List<T>) returns (r: List<T>)
    ensures Elements(r) == Reversed(Elements(xs))
  {
    r := DoReverse(xs, Empty);
  }

  /** `map` (`do_map`): applies `fun` to every element, collecting the results in reverse
      and reversing them at the end. */
  method Map<A, B>(list: List<A>, fun: A -> B) returns (r: List<B>)
    ensures Elements(r) == MapSeq(Elements(list), fun)
  {
    var rest := list;
    var acc: List<B> := Empty;
    ghost var done: seq<A> := [];
    while true
      invariant Elements(list) == done + Elements(rest)
      invariant Elements(acc) == Reversed(MapSeq(done, fun))
      decreases rest
    {
      var isEmpty := HasLength(rest, 0);
      if isEmpty {
        assert done == Elements(list);
        r := Reverse(acc);
        ReversedInvolution(MapSeq(done, fun));
        return;
      }
      var x, xs := rest.head, rest.tail;
      assert MapSeq(done + [x], fun) == MapSeq(done, fun) + [fun(x)];
      ReversedAppend(MapSeq(done, fun), [fun(x)]);
      assert Reversed([fun(x)]) == [fun(x)];
      done := done + [x];
      rest := xs;
      acc := NonEmpty(fun(x), acc);
    }
  }

  /** `reverse_and_prepend`: the reversed prefix in front of the suffix. */
  method ReverseAndPrepend<T>(prefix: List<T>, suffix: List<T>) returns (r: List<T>)
    ensures Elements(r) == Reversed(Elements(prefix)) + Elements(suffix)
  {
    var rest := prefix;
    var acc := suffix;
    while true
      invariant Reversed(Elements(rest)) + Elements(acc)
             == Reversed(Elements(prefix)) + Elements(suffix)
      decreases rest
    {
      var isEmpty := HasLength(rest, 0);
      if isEmpty {
        return acc;
      }
      var first, tail := rest.head, rest.tail;
      assert Elements(rest)[1..] == Elements(tail);
      rest := tail;
      acc := NonEmpty(first, acc);
    }
  }

  /** `concat` (`do_concat`): the elements of every list of `lists`, in order. Each list is
      reversed onto an accumulator, which is reversed once at the end. */
  method Concat2<T>(lists: List<List<T>>) returns (r: List<T>)
    ensures Elements(r) == Concat(Elements(lists))
  {
    var rest := lists;
    var acc: List<T> := Empty;
    ghost var done: seq<List<T>> := [];
    while true
      invariant Elements(lists) == done + Elements(rest)
      invariant Elements(acc) == Reversed(Concat(done))
      decreases rest
    {
      var isEmpty := HasLength(rest, 0);
      if isEmpty {
        assert done == Elements(lists);
        r := Reverse(acc);
        ReversedInvolution(Concat(done));
        return;
      }
      var list, further := rest.head, rest.tail;
      acc := ReverseAndPrepend(list, acc);
      ConcatSnoc(done, list);
      ReversedAppend(Concat(done), Elements(list));
      done := done + [list];
      rest := further;
    }
  }
}
