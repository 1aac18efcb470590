/**
 A value model of Rust's `Vec<u64>`: the elements in order and the capacity
 of the buffer behind them. Only what the filter variants use is modelled:
 `Vec::new`, `Vec::with_capacity` and `push`.
 */
module Vecs {
  import opened U64

  /** Smallest non-zero capacity the standard library allocates for 8-byte elements. */
  const MIN_NON_ZERO_CAP: nat := 4

  datatype Vec = Vec(elems: seq<u64>, cap: nat) {
    /** The buffer always holds every element. */
    ghost predicate Valid() {
      |elems| <= cap
    }

    function Len(): (n: nat) {
      |elems|
    }
  }

  /** `Vec::new()`: no elements and no buffer. */
  function New(): (v: Vec)
    ensures v.Valid() && v.elems == [] && v.cap == 0
  {
    Vec([], 0)
  }

  /** `Vec::with_capacity(n)`: no elements, room for `n` of them. */
  function WithCapacity(n: nat): (v: Vec)
    ensures v.Valid() && v.elems == [] && v.cap == n
  {
    Vec([], n)
  }

  /**
   Capacity after an amortised grow of a full buffer of capacity `cap` that
   must now hold `required` elements.
   */
  function Grown(cap: nat, required: nat): (c: nat)
    ensures c >= required && c >= 2 * cap && c >= MIN_NON_ZERO_CAP
  {
    var doubled := if 2 * cap > required then 2 * cap else required;
    if doubled > MIN_NON_ZERO_CAP then doubled else MIN_NON_ZERO_CAP
  }

  /**
   `v.push(x)`: appends `x`; the buffer is reallocated only when it is full.
   */
  function Push(v: Vec, x: u64): (w: Vec)
    requires v.Valid()
    ensures w.Valid()
    ensures w.elems == v.elems + [x]
    ensures v.Len() < v.cap ==> w.cap == v.cap
    ensures v.Len() == v.cap ==> w.cap > v.cap
  {
    if v.Len() < v.cap then
      v.(elems := v.elems + [x])
    else
      Vec(v.elems + [x], Grown(v.cap, v.Len() + 1))
  }
}
