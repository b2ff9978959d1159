/** The copy-on-write array helpers of the hash trie: `cloneAndSet`, `spliceIn` and
    `spliceOut`. Each is a function on sequences, used by the trie operations, and a
    method that fills a fresh array index by index with a loop, proved to produce the
    function's result. */
module HamtArrays {

  /** `cloneAndSet(arr, at, val)`: a copy with `val` at `at`; writing at the length
      appends, as a JavaScript array grows. */
  function CloneAndSet<T>(arr: seq<T>, at: nat, val: T): (r: seq<T>)
    requires at <= |arr|
    ensures |r| == if at < |arr| then |arr| else |arr| + 1
    ensures r[at] == val && forall i :: 0 <= i < |arr| && i != at ==> r[i] == arr[i]
  {
    if at < |arr| then arr[at := val] else arr + [val]
  }

  /** `spliceIn(arr, at, val)`: `val` inserted before position `at`. */
  function SpliceIn<T>(arr: seq<T>, at: nat, val: T): (r: seq<T>)
    requires at <= |arr|
    ensures |r| == |arr| + 1 && r[at] == val
    ensures forall i :: 0 <= i < at ==> r[i] == arr[i]
    ensures forall i :: at < i <= |arr| ==> r[i] == arr[i - 1]
  {
    arr[..at] + [val] + arr[at..]
  }

  /** `spliceOut(arr, at)`: position `at` removed. */
  function SpliceOut<T>(arr: seq<T>, at: nat): (r: seq<T>)
    requires at < |arr|
    ensures |r| == |arr| - 1
    ensures forall i :: 0 <= i < at ==> r[i] == arr[i]
    ensures forall i :: at <= i < |r| ==> r[i] == arr[i + 1]
  {
    arr[..at] + arr[at + 1..]
  }

  /** Splicing an element in and out again gives the array back. */
  lemma SpliceOutIn<T>(arr: seq<T>, at: nat, val: T)
    requires at <= |arr|
    ensures SpliceOut(SpliceIn(arr, at, val), at) == arr
  {
    var r := SpliceOut(SpliceIn(arr, at, val), at);
    assert |r| == |arr|;
    forall i | 0 <= i < |arr|
      ensures r[i] == arr[i]
    {
    }
  }

  /** A kept element moves one place down when it sat above the removed one. */
  lemma SpliceOutAt<T>(arr: seq<T>, at: nat, o: nat)
    requires at < |arr| && o < |arr| && o != at
    ensures (if o < at then o else o - 1) < |SpliceOut(arr, at)|
    ensures SpliceOut(arr, at)[if o < at then o else o - 1] == arr[o]
  {
  }

  /** A kept element moves one place up when it sat at or above the insertion point. */
  lemma SpliceInAt<T>(arr: seq<T>, at: nat, val: T, o: nat)
    requires at <= |arr| && o < |arr|
    ensures (if o < at then o else o + 1) < |SpliceIn(arr, at, val)|
    ensures SpliceIn(arr, at, val)[if o < at then o else o + 1] == arr[o]
  {
  }

  method CloneAndSetLoop<T>(arr: seq<T>, at: nat, val: T) returns (r: seq<T>)
    requires at <= |arr|
    ensures r == CloneAndSet(arr, at, val)
  {
    var len := |arr|;
    var out := new T[if at < len then len else len + 1](_ => val);
    for i := 0 to len
      invariant forall j :: 0 <= j < i ==> out[j] == arr[j]
      invariant forall j :: i <= j < out.Length ==> out[j] == val
    {
      out[i] := arr[i];
    }
    out[at] := val;
    r := out[..];
    assert r == CloneAndSet(arr, at, val);
  }

  method SpliceInLoop<T>(arr: seq<T>, at: nat, val: T) returns (r: seq<T>)
    requires at <= |arr|
    ensures r == SpliceIn(arr, at, val)
  {
    var len := |arr|;
    var out := new T[len + 1](_ => val);
    var i, g := 0, 0;
    while i < at
      invariant 0 <= i <= at && g == i
      invariant forall j :: 0 <= j < g ==> out[j] == arr[j]
    {
      out[g] := arr[i];
      g, i := g + 1, i + 1;
    }
    out[g] := val;
    g := g + 1;
    while i < len
      invariant at <= i <= len && g == i + 1
      invariant forall j :: 0 <= j < at ==> out[j] == arr[j]
      invariant out[at] == val
      invariant forall j :: at < j < g ==> out[j] == arr[j - 1]
    {
      out[g] := arr[i];
      g, i := g + 1, i + 1;
    }
    r := out[..];
    assert r == SpliceIn(arr, at, val);
  }

  method SpliceOutLoop<T>(arr: seq<T>, at: nat) returns (r: seq<T>)
    requires at < |arr|
    ensures r == SpliceOut(arr, at)
  {
    var len := |arr|;
    var out := new T[len - 1](_ => arr[at]);
    var i, g := 0, 0;
    while i < at
      invariant 0 <= i <= at && g == i
      invariant forall j :: 0 <= j < g ==> out[j] == arr[j]
    {
      out[g] := arr[i];
      g, i := g + 1, i + 1;
    }
    i := i + 1;
    while i < len
      invariant at + 1 <= i <= len && g == i - 1
      invariant forall j :: 0 <= j < at ==> out[j] == arr[j]
      invariant forall j :: at <= j < g ==> out[j] == arr[j + 1]
    {
      out[g] := arr[i];
      g, i := g + 1, i + 1;
    }
    r := out[..];
    assert r == SpliceOut(arr, at);
  }
}
