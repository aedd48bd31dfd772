# Fixed-capacity and adaptive containers, modelled in Dafny

This project models three header-only C++ containers:

- `boost::fixed_vector<T, N>` (`vector.hpp`) is a bounded sequence. It holds an inline array of N slots and a live length `size_`. `push_back` signals Overflow, `pop_back` signals Underflow, and `at` signals an out-of-range index. `find`, `erase` and `count` are linear scans, and `erase` compacts the survivors leftward in place.
- `boost::unordered_flat_multiset<T>` (`flat_sets.hpp`) is a multiset kept as a `key -> count` hash map with no zero counts. Its `flattened_iterator` is a state machine over (map position, remaining repeats). It yields each key `count` times without building the expanded sequence.
- `boost::unordered_flat_smallpolyset<T, threshold>` (`flat_sets.hpp`) is a set that lives in a `fixed_vector<T, threshold>`. When an insert arrives while it already holds `threshold` elements, it promotes itself, once and for good, to a hash set.

Modules and files:

- `limits.dfy` (`Limits`): `SIZE_MAX`, the largest `std::size_t`, where the source's unsigned arithmetic wraps.
- `sequences.dfy` (`Sequences`): value filtering, which is what `erase` computes; duplicate-freedom; the element set of a sequence.
- `fixed_vector.dfy` (`FixedVectors`): the class `FixedVector`. It has a `const data: array<T>` of length N and a field `size`. The thrown `std::out_of_range` becomes an `Outcome`/`Result` value, with errors `Overflow`, `Underflow` and `IndexOutOfRange`.
- `flat_multiset.dfy` (`FlatMultisets`): the hash map is the datatype `FlatMap(counts: map<T, nat>, order: seq<T>)`. `order` lists the distinct keys in the map's iteration order, which the source leaves unspecified. The class `UnorderedFlatMultiset` holds one `FlatMap` and reassigns it on `insert` and `erase`.
  - The iterator is the datatype `FlatIter(pos, remaining)`, and `Advance` is `operator++`.
  - `Locate(j)` is the iterator state for offset `j` of the flattened sequence `Expand(order, counts)`.
  - `FlattenedWalk` proves the walk: from `begin()`, exactly `size()` applications of `++` reach `end()`, and step `k` yields element `k` of the flattened sequence. That sequence is each key repeated by its count, one run per key, in map order.
- `small_polyset.dfy` (`SmallPolySets`): the class `UnorderedFlatSmallPolySet`. It has the source's fields `tranformed`, `reserveN`, `data` (the promoted store, a Dafny `set`) and `vect` (a `FixedVector` with N = `threshold`).
  - `Contents()` is `data` once promoted; before that it is the set of the vector's live prefix.
  - The iterator is the tag datatype `ArrayPos | SetPos`. `begin()`/`end()` pick the tag from `tranformed`.

Two behaviours of the code worth knowing:

- The smallpolyset's `insert` runs the promotion check (flat_sets.hpp:159) before the duplicate check, so re-inserting an element already present in a full array still promotes the set.
- On an empty `fixed_vector` the `erase` bound `size_ - 1u` wraps around (see Findings); the corrected `Erase` is a no-op there.

## Model

| member | source | states |
|---|---|---|
| `Sequences.FilterMultiset` | vector.hpp:71-81 | erasing `v` removes every occurrence of `v` and keeps every other element with its multiplicity |
| `Sequences.FilterLength` | vector.hpp:71-81 | erasing `v` shortens the live prefix by exactly the number of occurrences of `v` |
| `Sequences.FilterAppend` | vector.hpp:71-81 | erasing distributes over concatenation, so survivors keep their original relative order |
| `Sequences.FilterAbsent` | vector.hpp:71-81 | erasing a value that does not occur leaves the sequence as it was |
| `Sequences.NoDuplicatesCard` | flat_sets.hpp:194-196 | a duplicate-free vector has as many elements as its set, so the array-mode `size()` is the set's size |
| `Sequences.FilterNoDuplicates` | flat_sets.hpp:222-229 | erasing from a duplicate-free vector keeps it duplicate-free, removes `v` from its set, and shrinks it by 1 exactly when `v` was present |
| `Sequences.AppendNoDuplicates` | flat_sets.hpp:169-173 | pushing an element that the scan did not find keeps the vector duplicate-free and adds that element to its set |
| `Sequences.IndexOf` | flat_sets.hpp:80-86 | the position of a present key in the map order holds that key, and no earlier position does |
| `FixedVectors.FixedVector.constructor` | vector.hpp:10-12 | a new vector has N slots and an empty live prefix |
| `FixedVectors.FixedVector.Size` | vector.hpp:20-22 | `size()` is the length of the live prefix and never exceeds N |
| `FixedVectors.FixedVector.Empty` | vector.hpp:23-25 | `empty()` holds exactly when the live prefix is empty |
| `FixedVectors.FixedVector.PushBack` | vector.hpp:26-39 | with `size_ < N`, writes `v` at slot `size_`, grows by one and leaves every other slot unchanged; otherwise fails with Overflow and changes nothing, so `size_ <= N` is kept |
| `FixedVectors.FixedVector.Find` | vector.hpp:40-47 | returns `(i, true)` with `i` the first live position holding `v`, or `(0, false)` when no live slot holds `v` |
| `FixedVectors.FixedVector.PopBack` | vector.hpp:48-54 | fails with Underflow on an empty vector; otherwise drops the last live element and keeps the earlier ones |
| `FixedVectors.FixedVector.At` | vector.hpp:55-66 | fails with IndexOutOfRange if and only if `idx >= size_`; otherwise returns live element `idx` |
| `FixedVectors.FixedVector.Clear` | vector.hpp:67-70 | the live prefix becomes empty; the slots are untouched (the method may not modify `data`) |
| `FixedVectors.FixedVector.Erase` | vector.hpp:71-81 | the new live prefix is the old one with every `v` filtered out, survivors in order; on an empty vector it is a no-op (scan bound corrected, see Findings) |
| `FixedVectors.FixedVector.Count` | vector.hpp:82-88 | returns the number of occurrences of `v` in the live prefix (scan range corrected, see Findings) |
| `FixedVectors.FixedVector.CountAsWritten` | vector.hpp:82-88 | the count as written: the occurrences of `v` among all N slots, dead ones included |
| `FixedVectors.FixedVector.Get` | vector.hpp:89-94 | `operator[]` on a live index agrees with `at` |
| `FixedVectors.FixedVector.Begin` | vector.hpp:96-98 | the slots from `begin()` up to `size_` are the live prefix |
| `FixedVectors.FixedVector.End` | vector.hpp:99-101 | the slots from `begin()` to `end()` are exactly the live prefix |
| `FixedVectors.EraseAsWritten` | vector.hpp:71-81 | the erase as written: an out-of-range read on an empty vector, and otherwise a result shorter than the live length |
| `FixedVectors.EraseAsWrittenDropsLast` | vector.hpp:73 | the erase as written differs from filtering the live prefix whenever the last live element is not `v` |
| `FixedVectors.EraseAsWrittenExample` | vector.hpp:73 | with live prefix [1, 2], erasing 3 as written leaves [1] where filtering leaves [1, 2] |
| `FixedVectors.CountAsWrittenSeesDeadSlots` | vector.hpp:84-86 | counting all N slots exceeds the live count whenever a dead slot holds `v` |
| `FixedVectors.CountAfterPopExample` | vector.hpp:82-88 | after `push_back(7); pop_back()` the live count of 7 is 0 and the as-written count is 1 |
| `FlatMultisets.FlatMap.Inserted` | flat_sets.hpp:13-16 | `++data[value]` raises the count of `v` by exactly 1, gives a missing `v` an entry, leaves every other count as it was, and keeps the map free of zero counts |
| `FlatMultisets.FlatMap.Erased` | flat_sets.hpp:18-26 | a present count drops by 1 and the entry is removed when the count reaches 0, so no zero count remains; an absent key leaves the map unchanged; every other count is kept |
| `FlatMultisets.FlatMap.Find` | flat_sets.hpp:80-93 | `find` returns `end()` exactly when `v` is absent; otherwise it returns an iterator that points at `v` with all `count(v)` repeats left |
| `FlatMultisets.FlatMap.Count` | flat_sets.hpp:28-31 | in a well-formed map, `count(v)` is positive exactly when `v` is a key of the iteration order, and is then its stored count (its multiplicity is `BagCount`) |
| `FlatMultisets.FlatMap.Begin` | flat_sets.hpp:59-61 | the iterator built from `data.begin()` (flat_sets.hpp:103-105) is the state for offset 0 of the flattened sequence, and equals `end()` exactly when that sequence is empty |
| `FlatMultisets.FlatMap.End` | flat_sets.hpp:62-64 | the iterator built from `data.end()` is the state for the offset just past the flattened sequence |
| `FlatMultisets.Deref` | flat_sets.hpp:107-109 | `operator*` yields a key of the map; which key, per offset, is `LocateDeref` |
| `FlatMultisets.Advance` | flat_sets.hpp:114-123 | `++` at `end()` is a no-op; elsewhere it stays on the current key or moves to the next one |
| `FlatMultisets.LocateAdvance` | flat_sets.hpp:114-123 | `++` takes the iterator state for offset `j` to the state for offset `j + 1` |
| `FlatMultisets.LocateDeref` | flat_sets.hpp:107-109 | the iterator for an offset before the end dereferences to the flattened element at that offset |
| `FlatMultisets.LocateEnd` | flat_sets.hpp:62-63 | the iterator for the offset just past the last element is `end()` |
| `FlatMultisets.LocateInjective` | flat_sets.hpp:131-136 | distinct offsets give distinct (map position, repeat count) states, so comparing both fields tells offsets within one run apart |
| `FlatMultisets.StepsLocate` | flat_sets.hpp:114-123 | `k` applications of `++` from offset `j` reach offset `j + k` |
| `FlatMultisets.ExpandMultiset` | flat_sets.hpp:28-31 | in the flattened sequence each key occurs exactly its stored count times, and a key without an entry does not occur |
| `FlatMultisets.BagCount` | flat_sets.hpp:28-31 | in a well-formed map, the stored count of each key is its multiplicity |
| `FlatMultisets.WellFormedPositive` | flat_sets.hpp:18-26 | every key in the iteration order has a positive count |
| `FlatMultisets.FlattenedWalk` | flat_sets.hpp:103-123 | from `begin()`, exactly `size()` applications of `++` reach `end()`; every earlier state differs from `end()` and yields the element at its offset of the flattened sequence, which is each key repeated `count(k)` times consecutively in map order |
| `FlatMultisets.InsertedBag` | flat_sets.hpp:13-16 | `insert(v)` adds one occurrence of `v` to the multiset |
| `FlatMultisets.ErasedBag` | flat_sets.hpp:18-26 | `erase(v)` removes one occurrence of `v` if there is one |
| `FlatMultisets.InsertThenErase` | flat_sets.hpp:13-26 | `insert(v)` followed by `erase(v)` restores every count entry; the iteration order is restored too, in the model, which never rehashes |
| `FlatMultisets.InsertThenEraseNew` | flat_sets.hpp:13-26 | for a key without an entry, the new entry is removed again and the counts are restored; in the model, which never rehashes, so is the order |
| `FlatMultisets.UnorderedFlatMultiset.constructor` | flat_sets.hpp:96 | a new multiset is empty |
| `FlatMultisets.UnorderedFlatMultiset.Insert` | flat_sets.hpp:13-16 | the map becomes the `Inserted` map and the multiset gains one `v` |
| `FlatMultisets.UnorderedFlatMultiset.Erase` | flat_sets.hpp:18-26 | the map becomes the `Erased` map and the multiset loses one `v`, if it had one |
| `FlatMultisets.UnorderedFlatMultiset.Count` | flat_sets.hpp:28-31 | `count(v)` is the multiplicity of `v`, which is 0 when `v` is absent |
| `FlatMultisets.UnorderedFlatMultiset.Size` | flat_sets.hpp:33-39 | the sum accumulated over the entries is the multiset's size, which is the length of the flattened sequence |
| `FlatMultisets.UnorderedFlatMultiset.Contains` | flat_sets.hpp:41-43 | `contains(v)` holds exactly when `count(v) > 0` |
| `FlatMultisets.UnorderedFlatMultiset.Empty` | flat_sets.hpp:51-53 | `empty()` holds exactly when the multiset is empty |
| `FlatMultisets.UnorderedFlatMultiset.Clear` | flat_sets.hpp:54-57 | after `clear()` the multiset is empty |
| `FlatMultisets.UnorderedFlatMultiset.InsertAll` | flat_sets.hpp:72-78 | the range insert adds every element of the range once per occurrence |
| `FlatMultisets.UnorderedFlatMultiset.Begin` | flat_sets.hpp:59-61 | `begin()` is the iterator state for offset 0 |
| `FlatMultisets.UnorderedFlatMultiset.End` | flat_sets.hpp:62-64 | `end()` is the iterator state for offset `size()` |
| `FlatMultisets.UnorderedFlatMultiset.Find` | flat_sets.hpp:80-86 | `find` returns `end()` exactly when `v` is absent; otherwise it returns an iterator on `v` with `count(v)` repeats left |
| `SmallPolySets.Next` | flat_sets.hpp:249-252 | `++` keeps the variant's alternative and always changes the position |
| `SmallPolySets.WalkIndex` | flat_sets.hpp:249-252 | `++` keeps the iterator's alternative and moves it one position |
| `SmallPolySets.UnorderedFlatSmallPolySet.constructor` | flat_sets.hpp:144-145 | a new set is unpromoted, empty, and has `reserve_n == 0` |
| `SmallPolySets.UnorderedFlatSmallPolySet.Singleton` | flat_sets.hpp:147-150 | seeding with one element inserts it; with `threshold == 0` that insert already promotes |
| `SmallPolySets.UnorderedFlatSmallPolySet.FromSeq` | flat_sets.hpp:151-156 | seeding from a range holds exactly the range's elements |
| `SmallPolySets.UnorderedFlatSmallPolySet.Size` | flat_sets.hpp:194-196 | `size()` is the number of elements in either mode and is at most `threshold` before promotion |
| `SmallPolySets.UnorderedFlatSmallPolySet.Empty` | flat_sets.hpp:197-199 | `empty()` holds exactly when the set has no elements |
| `SmallPolySets.UnorderedFlatSmallPolySet.Contains` | flat_sets.hpp:183-193 | the hash lookup or the scan of the live slots finds `v` exactly when it is an element |
| `SmallPolySets.UnorderedFlatSmallPolySet.Count` | flat_sets.hpp:200-205 | `count(v)` is 1 for an element and 0 otherwise, in either mode (the array-mode count relies on the corrected `fixed_vector::count`) |
| `SmallPolySets.UnorderedFlatSmallPolySet.Promote` | flat_sets.hpp:159-165 | promotion copies every element of the vector into the hash set, preserves the contents, and sets `tranformed` |
| `SmallPolySets.UnorderedFlatSmallPolySet.Insert` | flat_sets.hpp:158-174 | returns true iff `v` was new, contents become old contents plus `v`, and `size()` grows by 1 exactly when it returned true; `tranformed` afterwards is old `tranformed` or `size() + 1 > threshold`, even when `v` was already present, so it never goes back to false |
| `SmallPolySets.UnorderedFlatSmallPolySet.InsertPromoted` | flat_sets.hpp:166-168 | the hash set's insert reports whether `v` was new and adds it |
| `SmallPolySets.UnorderedFlatSmallPolySet.InsertInArray` | flat_sets.hpp:169-173 | after the promotion check, the vector holds fewer than `threshold` elements, so the `push_back` never overflows; it adds `v` only when the scan did not find it and keeps the vector duplicate-free |
| `SmallPolySets.UnorderedFlatSmallPolySet.InsertAll` | flat_sets.hpp:175-181 | the range insert adds every element of the range, and `tranformed` never reverts |
| `SmallPolySets.UnorderedFlatSmallPolySet.Reserve` | flat_sets.hpp:206-213 | before promotion, only `reserve_n` is set; after promotion, contents and `reserve_n` are unchanged (only the set's capacity is affected) |
| `SmallPolySets.UnorderedFlatSmallPolySet.Clear` | flat_sets.hpp:214-221 | empties the active store and leaves `tranformed` as it was, so a promoted set stays promoted |
| `SmallPolySets.UnorderedFlatSmallPolySet.Erase` | flat_sets.hpp:222-229 | returns the number removed (1 if `v` was an element, else 0) and removes `v` from the contents, in either mode (the array-mode erase relies on the corrected `fixed_vector::erase`) |
| `SmallPolySets.UnorderedFlatSmallPolySet.Begin` | flat_sets.hpp:298-300 | `begin()` carries the tag of the active store (`SetPos` exactly when promoted), at its start |
| `SmallPolySets.UnorderedFlatSmallPolySet.End` | flat_sets.hpp:302-304 | `end()` carries the tag of the active store and sits `size()` positions after `begin()` |
| `SmallPolySets.UnorderedFlatSmallPolySet.Iteration` | flat_sets.hpp:249-256 | from `begin()`, `k` steps reach `end()` exactly when `k == size()`; in array mode step `k` is live slot `k`, whose value is an element |

## Left out

- Hashing, load factor and capacity of `boost::unordered_flat_map` and `boost::unordered_flat_set`. They are abstracted as a Dafny `map` with a key order, and as a Dafny `set`. This drops `max_load_factor` and the multiset's `reserve` (flat_sets.hpp:44-50), which change capacity only. It also drops the capacity effect of the smallpolyset's `reserve` and of `set.reserve(reserve_n + threshold)` at promotion.
- FlatMultisets.FlatMap.Inserted: the model places a key without an entry at the end of the iteration order. In a real flat map the new key lands in a slot its hash decides, and a rehash on insert may reorder all keys; the model captures neither.
- FlatMultisets.InsertThenErase: the restored iteration order holds only in the model. In the source, `++data[value]` (flat_sets.hpp:14) may rehash and `erase` (flat_sets.hpp:22) does not undo that, so only the count entries are promised to come back.
- FlatMultisets.InsertThenEraseNew: the same as for `InsertThenErase`; only the restored counts carry over to the source.
- FlatMultisets.FlatMap.Inserted: does not model `std::size_t` wrap-around of a count at 2^64. Counts are unbounded `nat`s.
- `unordered_flat_smallpolyset::find` (flat_sets.hpp:286-297). It wraps the `std::pair` returned by `fixed_vector::find` in an iterator constructor. That does not type-check once instantiated, so it has no behaviour to model.
- Dereferencing a `SetPos` iterator. The hash set's iteration order is not modelled: a `SetPos` is only an index into it. `ArrayPos` iteration is modelled through the vector's slots.
- The const/non-const duplicates, `const_cast`, `operator->` and the postfix `operator++(int)` of the iterators. Postfix `++` leaves the iterator in the same state as prefix `++`.
- Writes through the mutable references and iterators that the non-const `at`, `operator[]`, `begin()` and `end()` return (vector.hpp:55-60, 89-91, 96-101). `FixedVector.At` and `FixedVector.Get` are read-only functions and positions are plain indices, so overwriting a slot in place from outside the class is not modelled.
- FixedVectors.FixedVector.constructor: fills the N slots with Dafny's default value of `T`. The source default-initialises `std::array<T, N>` (vector.hpp:10-12, 110), which leaves never-written scalar slots indeterminate. So `CountAsWritten(0)` on a fresh `FixedVector<int>` is N in the model, where the source reads indeterminate values.
- The move overload `push_back(T&&)` (vector.hpp:33-39). It behaves like the copy version.
- `fixed_vector::max_size()` and the `std::array` iterator types. N is `data.Length`, and iterator positions are slot indices.
- Iterator invalidation across a promotion, and the stale contents that `vect` keeps after promotion. These are lifetime concerns. `Contents()` ignores `vect` once promoted.
- C++ exceptions become `Outcome`/`Result` values. Element equality is Dafny's `==` standing for `T::operator==`. Integer widths other than the `size_t` wrap in `erase` and in `operator++` on a zero repeat count are not modelled.

## Findings

| source | as written | input that shows it | evidently intended | confidence | as-written member | corrected member |
|---|---|---|---|---|---|---|
| vector.hpp:73 | `erase` scans `i < size_ - 1u`, so it never visits the last live element; with `size_ == 0` the bound wraps to SIZE_MAX and the scan reads past the array | live prefix [1, 2], `erase(3)` leaves [1]; on an empty vector, `erase(x)` reads out of range. Through the smallpolyset's `erase` (flat_sets.hpp:226-228), with `threshold >= 2` and `vect` = [a, b], erasing an absent `c` drops `b` and returns 1, and erasing `a` empties the set and returns 2 | remove every live occurrence of the value, keep all others in order; a no-op on an empty vector | high; not executed | `FixedVectors.EraseAsWrittenDropsLast` | `FixedVectors.FixedVector.Erase` |
| vector.hpp:84 | `count` iterates over all N slots of `data`, including dead slots past `size_` | `push_back(7); pop_back(); count(7)` returns 1 on an empty vector; the same happens for the smallpolyset's `count` after `erase` or `clear` | count the occurrences in the live prefix only | high; not executed | `FixedVectors.CountAfterPopExample` | `FixedVectors.FixedVector.Count` |
