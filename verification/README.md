# Filtering an id out of a vector of u64

This project models the library of a small Rust repository that compares
ways of writing one operation: given a vector of `u64` ids and one id,
return a new vector holding every element that is not that id, in the
original order. The library has three implementations of it:
- `idiomatic` builds an iterator pipeline: `filter`, then `map` to dereference, then `collect`.
- `idiomatic_with_reservation` reserves `ids.len()` slots, filters, and pushes each item from `for_each`.
- `foo` reserves `ids.len()` slots and loops over `ids`, pushing every element that differs from `id`.

It also has `get_random_ids_vector`, which builds benchmark input out of
random numbers reduced modulo 10.

The Dafny modules are:
- `U64`: the `u64` newtype.
- `Vecs`: a value model of the standard library's `Vec<u64>`, holding the elements and the capacity. It covers `Vec::new`, `Vec::with_capacity` and `push`, including the standard library's amortised growth when a full vector is pushed. A push reallocates only when the buffer is full.
- `Filtering`: the shared contract `Filter(s, id)` and what is known about it. A subsequence-and-multiset characterisation pins it down uniquely. The module also holds the boundary cases and idempotence.
- `Iterators`: the iterator adapters the variants use, as functions on sequences. These are `filter`, `map`, and pushing every item into a vector.
- `Lib`: the three variants, the random generator, agreement between the variants, and the repository's unit tests as lemmas and methods.

Every variant is proved to return exactly `Filter(ids, id)`, so the variants
agree with each other for every input. The two variants that reserve
capacity are also proved never to outgrow their reservation: the result's
capacity is still `ids.len()`.

## Model

| member | source | states |
|---|---|---|
| `Filtering.Filter` | src/lib.rs:2-9 | the contract of every variant; its result is never longer than the input and holds no element equal to `id` |
| `Filtering.FilterAppend` | src/lib.rs:24-28 | filtering a concatenation is the concatenation of the filtered parts, so the elements can be processed one at a time |
| `Filtering.FilterSnoc` | src/lib.rs:24-28 | one loop step: filtering a prefix extended by `x` appends `x` exactly when `x != id` |
| `Filtering.FilterMultiset` | src/lib.rs:5 | every occurrence of `id` is removed, and every other element keeps its multiplicity |
| `Filtering.FilterMembership` | src/lib.rs:5 | a value occurs in the result if and only if it occurs in the input and differs from `id` |
| `Filtering.FilterLength` | src/lib.rs:13 | the result has the input's length minus the number of occurrences of `id`, so `ids.len()` bounds it |
| `Filtering.FilterIsSubsequence` | src/lib.rs:3-7 | the result keeps the input's relative order: it is a subsequence of the input |
| `Filtering.FilterUnique` | src/lib.rs:2-9 | any subsequence of the input that has no `id` and keeps every other multiplicity is the filter result |
| `Filtering.FilterCharacterisation` | src/lib.rs:2-9 | a sequence is the filter result if and only if it is an order-preserving subsequence of the input with no `id` and the same count of every other value |
| `Filtering.FilterUnchangedIff` | src/lib.rs:24-28 | the input comes back unchanged if and only if `id` does not occur in it |
| `Filtering.FilterEmptyIff` | src/lib.rs:24-28 | the result is empty if and only if every input element equals `id`; this includes empty input |
| `Filtering.FilterIdempotent` | src/lib.rs:2-9 | filtering the result again with the same id returns it unchanged |
| `Vecs.New` | src/lib.rs:7 | `collect` starts from an empty vector with no buffer: no elements and capacity 0 |
| `Vecs.WithCapacity` | src/lib.rs:13 | `Vec::with_capacity(n)` is an empty vector with room for exactly `n` elements (also at src/lib.rs:23) |
| `Vecs.Push` | src/lib.rs:26 | a push appends the element; when there is spare capacity the capacity stays the same, otherwise it grows |
| `Iterators.FilterWith` | src/lib.rs:5 | the `filter` adapter yields only items satisfying the predicate, each from the input, and never more items than the input |
| `Iterators.MapWith` | src/lib.rs:6 | the `map` adapter yields one image per item, position by position |
| `Iterators.PushAll` | src/lib.rs:14-16 | pushing a sequence of items appends them in order; a vector that already has room for all of them is never reallocated |
| `Lib.FilterWithIsFilter` | src/lib.rs:15 | the `filter` adapter with the closure `element != id` computes `Filter` |
| `Lib.Idiomatic` | src/lib.rs:2-9 | `idiomatic` returns exactly the elements of `ids` that differ from `id`, in order |
| `Lib.IdiomaticWithReservation` | src/lib.rs:12-18 | `idiomatic_with_reservation` returns exactly the elements that differ from `id`, and its reservation of `ids.len()` is never exceeded |
| `Lib.Foo` | src/lib.rs:21-30 | `foo` returns exactly the elements that differ from `id`, and its reservation of `ids.len()` is never exceeded; the loop keeps the result equal to the filtered prefix of `ids` |
| `Lib.ReservationAgreesWithIdiomatic` | src/lib.rs:12-18 | `idiomatic_with_reservation` and `idiomatic` return equal vectors for every input |
| `Lib.CompareFooToIdiomatic` | src/lib.rs:80-95 | the tests' cross-check that `foo` and `idiomatic` return equal vectors succeeds for every input and id |
| `Lib.CompareFooToReservation` | src/main.rs:35-39 | the benchmark's cross-check between `foo` and `idiomatic_with_reservation` succeeds for every input and id; the two results hold the same elements in the same order, which is what `assert_eq!` on vectors compares |
| `Lib.RandomIdsVector` | src/lib.rs:33-37 | `get_random_ids_vector(length)` returns exactly `length` numbers, each below 10 and equal to the matching draw modulo 10 |
| `Lib.RandomIdsVectorCoversRange` | src/lib.rs:32-36 | every vector of `length` numbers from 0 to 9 is a possible output of the generator |
| `Lib.SampleFilter` | src/lib.rs:44-46 | filtering the sample `[6, 6, 1, 2, 3, 6, 4, 5]` with id 6 gives `[1, 2, 3, 4, 5]` |
| `Lib.TestIdiomatic` | src/lib.rs:63-69 | `test_idiomatic`: `idiomatic` on the sample with id 6 gives `[1, 2, 3, 4, 5]` |
| `Lib.TestFoo` | src/lib.rs:71-77 | `test_foo`: `foo` on the sample with id 6 gives `[1, 2, 3, 4, 5]` |

## Left out

- The benchmark program in src/main.rs is not modelled. It does wall-clock timing, prints durations and walks a table of function pointers. Its only logical content is the check that every variant matches the first one (src/main.rs:35-39). `Lib.ReservationAgreesWithIdiomatic`, `Lib.CompareFooToIdiomatic` and `Lib.CompareFooToReservation` cover that check for every pair of variants.
- The `println!` in `get_random_ids_vector` (src/lib.rs:34) is output only, so it is not modelled.
- `rand::random::<u64>()` (src/lib.rs:36) is a foreign call. Its results are the `draws` parameter of `Lib.RandomIdsVector`, one draw per element, in order.
- Lib.RandomIdsVector: does not state that the values are uniformly distributed. Probability is outside the model, which only proves that every vector over 0 to 9 is reachable.
- src/lib.rs has exactly these three filter variants. There is no variant that removes elements in place, so none is modelled.
- `Vecs` models the standard library's `Vec::new`, `Vec::with_capacity` and `push`. A push onto a full vector grows it as the current standard library does: to twice the capacity, or the required length if larger, and at least 4 slots for 8-byte elements. No element result depends on this growth rule.
- Vecs.WithCapacity: gives a capacity of exactly `n`. That is what the current standard library stores, but `Vec::with_capacity` documents only "at least `n`". The `cap == |ids|` ensures of `Lib.IdiomaticWithReservation` and `Lib.Foo` rely on this exactness. Under the documented promise alone, they would read as "the first reservation is never reallocated".
- The panics on capacity overflow (more than `isize::MAX` bytes) and on allocation failure are not modelled. Sequences here are unbounded.
- `for element in ids` in `foo` is modelled as a loop over indices `0..ids.len()`. It visits the same elements in the same order.
