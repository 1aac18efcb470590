/**
 The iterator adapters the filter variants are built from, as functions on
 sequences: `filter`, `map`, and pushing every item into a vector (what both
 `for_each(|e| v.push(e))` and `collect` into a fresh `Vec` do).
 */
module Iterators {
  import opened U64
  import opened Vecs

  /** `iter.filter(p)`: the items satisfying `p`, in order. */
  function FilterWith<T(==)>(s: seq<T>, p: T -> bool): (r: seq<T>)
    ensures |r| <= |s|
    ensures forall i :: 0 <= i < |r| ==> p(r[i]) && r[i] in s
  {
    if |s| == 0 then []
    else (if p(s[0]) then [s[0]] else []) + FilterWith(s[1..], p)
  }

  /** `iter.map(f)`: `f` applied to every item, in order. */
  function MapWith<T, U>(s: seq<T>, f: T -> U): (r: seq<U>)
    ensures |r| == |s|
    ensures forall i :: 0 <= i < |s| ==> r[i] == f(s[i])
  {
    if |s| == 0 then [] else [f(s[0])] + MapWith(s[1..], f)
  }

  /**
   Pushes the items of `s` onto `v` one after another. The vector ends up
   holding its old elements followed by `s`, and when `v` already had room
   for all of them no reallocation took place.
   */
  function PushAll(v: Vec, s: seq<u64>): (w: Vec)
    requires v.Valid()
    ensures w.Valid()
    ensures w.elems == v.elems + s
    ensures w.cap >= v.cap
    ensures |v.elems| + |s| <= v.cap ==> w.cap == v.cap
    decreases |s|
  {
    if |s| == 0 then v
    else
      var w := PushAll(Push(v, s[0]), s[1..]);
      assert v.elems + s == (v.elems + [s[0]]) + s[1..];
      w
  }
}
