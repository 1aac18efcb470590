/**
 The three variants of "remove every occurrence of `id` from `ids`, keeping
 order" and the random input generator, each proved against the shared
 contract `Filtering.Filter`.
 */
module Lib {
  import opened U64
  import opened Vecs
  import opened Filtering
  import opened Iterators

  /** The `filter` adapter with the closure the variants pass to it. */
  lemma {:induction false} FilterWithIsFilter(s: seq<u64>, p: u64 -> bool, id: u64)
    requires forall e :: p(e) == (e != id)
    ensures FilterWith(s, p) == Filter(s, id)
    decreases |s|
  {
    if |s| > 0 {
      FilterWithIsFilter(s[1..], p, id);
    }
  }

  /**
   `idiomatic`: `ids.iter().filter(|e| e != id).map(deref).collect()`,
   collected into a vector that starts empty.
   */
  function Idiomatic(ids: seq<u64>, id: u64): (r: Vec)
    ensures r.elems == Filter(ids, id)
    ensures r.Valid()
  {
    var kept := FilterWith(ids, e => e != id);
    var owned := MapWith(kept, e => e);
    FilterWithIsFilter(ids, e => e != id, id);
    assert owned == kept;
    PushAll(New(), owned)
  }

  /**
   `idiomatic_with_reservation`: reserves `ids.len()` slots, then pushes
   every kept element from `for_each`. The reservation is never exceeded.
   */
  function IdiomaticWithReservation(ids: seq<u64>, id: u64): (r: Vec)
    ensures r.elems == Filter(ids, id)
    ensures r.cap == |ids|
  {
    var kept := FilterWith(ids, e => e != id);
    FilterWithIsFilter(ids, e => e != id, id);
    PushAll(WithCapacity(|ids|), kept)
  }

  /**
   `foo`: reserves `ids.len()` slots and walks `ids`, pushing each element
   that is not `id`. The reservation is never exceeded.
   */
  method Foo(ids: seq<u64>, id: u64) returns (elementsToBeKept: Vec)
    ensures elementsToBeKept.elems == Filter(ids, id)
    ensures elementsToBeKept.cap == |ids|
  {
    elementsToBeKept := WithCapacity(|ids|);
    var i := 0;
    while i < |ids|
      invariant 0 <= i <= |ids|
      invariant elementsToBeKept.elems == Filter(ids[..i], id)
      invariant elementsToBeKept.cap == |ids|
    {
      var element := ids[i];
      if element != id {
        elementsToBeKept := Push(elementsToBeKept, element);
      }
      FilterSnoc(ids[..i], element, id);
      assert ids[..i + 1] == ids[..i] + [element];
      i := i + 1;
    }
    assert ids[..i] == ids;
  }

  /** The reserving variant returns the same elements as the plain one. */
  lemma ReservationAgreesWithIdiomatic(ids: seq<u64>, id: u64)
    ensures IdiomaticWithReservation(ids, id).elems == Idiomatic(ids, id).elems
  {
  }

  /**
   The cross-check the tests make for a given input: `foo` and `idiomatic`
   return equal vectors (equality of `Vec` compares elements, not capacity).
   */
  method CompareFooToIdiomatic(ids: seq<u64>, id: u64) returns (equal: bool)
    ensures equal
  {
    var resultFoo := Foo(ids, id);
    var resultIdiomatic := Idiomatic(ids, id);
    equal := resultFoo.elems == resultIdiomatic.elems;
  }

  /**
   The benchmark's cross-check between `foo` and `idiomatic_with_reservation`,
   made when either runs first: both return equal vectors (equality of `Vec`
   compares elements, not capacity).
   */
  method CompareFooToReservation(ids: seq<u64>, id: u64) returns (equal: bool)
    ensures equal
  {
    var resultFoo := Foo(ids, id);
    var resultReservation := IdiomaticWithReservation(ids, id);
    equal := resultFoo.elems == resultReservation.elems;
  }

  /**
   `get_random_ids_vector(length)`: `length` numbers, the k-th being the k-th
   value drawn from the random source reduced modulo 10. The draws are a
   parameter.
   */
  function RandomIdsVector(length: u64, draws: seq<u64>): (r: seq<u64>)
    requires |draws| == length as int
    ensures |r| == length as int
    ensures forall i :: 0 <= i < |r| ==> r[i] < 10 && r[i] == draws[i] % 10
  {
    MapWith(draws, (x: u64) => x % 10)
  }

  /**
   Every vector of `length` numbers below 10 is something the generator can
   produce: drawing exactly those numbers yields them back.
   */
  lemma RandomIdsVectorCoversRange(length: u64, target: seq<u64>)
    requires |target| == length as int
    requires forall i :: 0 <= i < |target| ==> target[i] < 10
    ensures RandomIdsVector(length, target) == target
  {
  }

  /** The sample input of the tests. */
  function SampleInput(): (s: seq<u64>) {
    [6, 6, 1, 2, 3, 6, 4, 5]
  }

  /** The sample input with id 6 filters to `[1, 2, 3, 4, 5]`. */
  lemma SampleFilter()
    ensures Filter(SampleInput(), 6) == [1, 2, 3, 4, 5]
  {
  }

  /** `test_idiomatic`: filtering the sample with id 6. */
  lemma TestIdiomatic()
    ensures Idiomatic(SampleInput(), 6).elems == [1, 2, 3, 4, 5]
  {
    SampleFilter();
  }

  /** `test_foo`: filtering the sample with id 6. */
  method TestFoo() returns (result: seq<u64>)
    ensures result == [1, 2, 3, 4, 5]
  {
    var v := Foo(SampleInput(), 6);
    SampleFilter();
    result := v.elems;
  }
}
