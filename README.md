# Flat sorted containers, modelled in Dafny

This project models the engine behind `tools::flat_map` and `tools::flat_set`:
`flat_sorted_container_base`, an associative container stored as one
contiguous vector (`body_`) kept strictly ascending under a comparator, so that
no two of its elements are equal. The model also covers the two layers that
instantiate the engine: `base_map_traits` and `flat_map_base::at` /
`operator[]` (tools/flat_map.h), and `set_compare` (tools/flat_set.h).

Modules, one per file:

- `Comparator` (comparator.dfy): the traits the engine is instantiated with.
  `Traits(cmp, keyFromValue)` orders keys with the user comparison and
  extracts the key of a stored element. Its `Equal` and `EqualKey` are the
  traits' `equal`: neither key is before the other. `ValidTraits` asks that
  `cmp` be a strict weak order, as the standard algorithms do.
- `SortedSequence` (sorted_sequence.dfy): the standard algorithms the engine
  uses, stated over the key order. `SortByKey` is `std::sort`. `Merge` is the
  stable `std::inplace_merge`. `Unique` is `std::unique` followed by the
  `erase` of its tail. `LowerBoundOf` and `UpperBoundOf` state what
  `std::lower_bound` and `std::upper_bound` return. `CountKey` and `Without`
  give `count(key)` and `erase(key)` their meaning.
- `Lexicographic` (lexicographic.dfy): `std::lexicographical_compare`. This is
  the `<` of `std::vector` (so of the containers) and of `std::string`.
- `FlatSortedContainerBase` (flat_sorted_container_base.dfy): the class
  `FlatSortedContainer` with its `body` field. It has the constructors, the
  binary-search lookups, single and bulk insertion, the three `erase`
  overloads, `clear`, `swap` and the comparison operators. The class
  `UnsafeRegion` is the scoped unsafe region: its `Close` runs
  `sort_and_unique` unless `Release` was called. Its `Valid()` invariant is
  the container invariant: `cmp` is a strict weak order and the body is
  strictly ascending.
- `FlatMap` (flat_map.dfy): the `cmp` overloads and `equal` of
  `base_map_traits`, key extraction as `.first`, and `at`, `operator[]`,
  and `m[k] = v`. `Lookup` is the reference meaning of a map lookup.
- `FlatSet` (flat_set.dfy): `set_compare`, with identity key extraction, and
  the set behaviour the unit tests check against `std::set`.

Positions (iterators) are indices into the body, and `end()` is `|body|`.

## Model

| member | source | states |
|---|---|---|
| Comparator.EquivalentIsEquivalence | tools/flat_map.h:36-39 | `equal` is symmetric for any `cmp`, reflexive for any irreflexive `cmp`, and transitive when `cmp` is a strict weak order |
| Comparator.EquivalentIsEqualityForTotalOrder | tools/flat_set.h:22-25 | under a strict total order, `equal` holds exactly for equal values |
| SortedSequence.SortByKey | tools/flat_sorted_container_base.h:18-21 | the result is ascending by key and is a permutation of the input |
| SortedSequence.Merge | tools/flat_sorted_container_base.h:138 | the merge of two runs has the length of both runs together |
| SortedSequence.MergeIsPermutation | tools/flat_sorted_container_base.h:138 | the merge is a permutation of the two runs |
| SortedSequence.MergeIsAscending | tools/flat_sorted_container_base.h:138 | merging two ascending runs gives an ascending sequence |
| SortedSequence.MergeKeepsFirstRunFirst | tools/flat_sorted_container_base.h:134-145 | the merge is stable: each element of a strictly ascending first run is the first of its key in the merge |
| SortedSequence.Unique | tools/flat_sorted_container_base.h:23-28 | the deduplicated sequence is no longer than the input and starts with the input's first element |
| SortedSequence.UniqueIsSubMultiset | tools/flat_sorted_container_base.h:23-28 | deduplication only removes elements |
| SortedSequence.UniqueCoversKeys | tools/flat_sorted_container_base.h:23-28 | every input element still has an equal element in the result, so no key is lost |
| SortedSequence.UniqueIsStrictlyAscending | tools/flat_sorted_container_base.h:12-30 | deduplicating an ascending sequence gives a strictly ascending one |
| SortedSequence.UniqueKeepsFirstOfKey | tools/flat_sorted_container_base.h:139-144 | the first element of each key survives deduplication |
| SortedSequence.UniqueOfStrictlyAscending | tools/flat_sorted_container_base.h:12-30 | deduplicating a strictly ascending sequence changes nothing |
| SortedSequence.AscendingPermutationOfStrict | tools/flat_sorted_container_base.h:12-30 | any ascending permutation of a strictly ascending sequence is that sequence, so sorting a normalised body gives it back |
| SortedSequence.InsertKeepsAscending | tools/flat_sorted_container_base.h:18-21 | inserting an element after everything not after it keeps a sequence ascending |
| SortedSequence.InsertKeepsStrictlyAscending | tools/flat_sorted_container_base.h:126 | inserting between strictly smaller and strictly larger elements keeps a sequence strictly ascending |
| SortedSequence.RemoveKeepsStrictlyAscending | tools/flat_sorted_container_base.h:161-167 | removing a run keeps a sequence strictly ascending |
| SortedSequence.LowerBoundDecidesKey | tools/flat_sorted_container_base.h:183-194 | in a strictly ascending body, the key is present exactly when the element at its lower bound is equal to it |
| SortedSequence.BoundsDelimitEqualRange | tools/flat_sorted_container_base.h:196-203 | between the lower and the upper bound lie exactly the elements equal to the key, at most one of them |
| SortedSequence.EqualRunIsCountedAndRemoved | tools/flat_sorted_container_base.h:169-181 | the length of the equal range is the count of the key, and removing it is removing the key |
| SortedSequence.WithoutRemovesOnlyKey | tools/flat_sorted_container_base.h:169-174 | after removal by key none of that key is left, the size drops by its count, and other elements are kept |
| SortedSequence.CountKeyZeroIffAbsent | tools/flat_sorted_container_base.h:178-181 | the count of a key is zero exactly when no element is equal to it |
| SortedSequence.StrictlyAscendingBySet | tools/flat_set.h:38-51 | two strictly ascending sequences with the same elements are equal |
| Lexicographic.LexLessIrreflexive | tools/flat_sorted_container_base.h:248-251 | no body is less than itself |
| Lexicographic.LexLessTransitive | tools/flat_sorted_container_base.h:248-251 | the body order is transitive |
| Lexicographic.LexLessConnected | tools/flat_sorted_container_base.h:248-251 | of two different bodies one is less than the other |
| Lexicographic.LexLessIsStrictTotalOrder | tools/flat_sorted_container_base.h:248-251 | the lexicographic order built from a strict total order is a strict total order |
| Lexicographic.LexLessTrichotomy | tools/flat_sorted_container_base.h:253-266 | not-after means before-or-equal, and the order is asymmetric |
| Lexicographic.ProperPrefixIsLess | flat_map_unittest.cc:335-346 | a proper prefix is less than the sequence it is taken from |
| Lexicographic.StringLessIsStrictTotalOrder | flat_map_unittest.cc:120-121 | `std::string`'s `<` is a strict total order |
| FlatSortedContainerBase.SortAndUnique | tools/flat_sorted_container_base.h:12-30 | the result is strictly ascending, is drawn from the input, keeps every key of the input, and is the input itself when that was already normalised |
| FlatSortedContainerBase.InsertAtLowerBound | tools/flat_sorted_container_base.h:122-127 | inserting at the lower bound when no equal element is there keeps the invariant |
| FlatSortedContainerBase.InsertOutcomeKeepsInvariant | tools/flat_sorted_container_base.h:122-127 | after an insert the invariant holds, an element equal to the value is at the returned index, the size grows by one exactly when it inserted, and no element is lost |
| FlatSortedContainerBase.InsertTwiceChangesNothing | tools/flat_sorted_container_base.h:122-125 | inserting the same value again returns the same index and `false` and leaves the body unchanged |
| FlatSortedContainerBase.FlatSortedContainer.Empty | tools/flat_sorted_container_base.h:76 | the default-constructed container is empty and valid |
| FlatSortedContainerBase.FlatSortedContainer.FromBody | tools/flat_sorted_container_base.h:78-87 | construction from a vector or a range normalises it: valid, drawn from the input, every input key present |
| FlatSortedContainerBase.FlatSortedContainer.UnsafeAccess | tools/flat_sorted_container_base.h:91-96 | a fresh open, unreleased region over this container |
| FlatSortedContainerBase.FlatSortedContainer.LowerBound | tools/flat_sorted_container_base.h:205-211 | the first index whose key is not before the key |
| FlatSortedContainerBase.FlatSortedContainer.UpperBound | tools/flat_sorted_container_base.h:213-219 | the first index whose key is after the key |
| FlatSortedContainerBase.FlatSortedContainer.EqualRange | tools/flat_sorted_container_base.h:196-203 | the pair of lower and upper bound, holding exactly the elements equal to the key, at most one |
| FlatSortedContainerBase.FlatSortedContainer.Find | tools/flat_sorted_container_base.h:183-194 | the index of the element equal to the key, at its lower bound, or `end()` exactly when there is none |
| FlatSortedContainerBase.FlatSortedContainer.Count | tools/flat_sorted_container_base.h:178-181 | the number of elements equal to the key, which is 0 or 1, and 1 exactly when the key is present |
| FlatSortedContainerBase.FlatSortedContainer.Insert | tools/flat_sorted_container_base.h:122-127 | keeps the invariant; returns the lower bound and `false` with the body unchanged when an equal element is there, else inserts the value there and returns `true` |
| FlatSortedContainerBase.FlatSortedContainer.InsertHint | tools/flat_sorted_container_base.h:129-132 | ignores the hint and does what insert(value) does, returning its index |
| FlatSortedContainerBase.FlatSortedContainer.Emplace | tools/flat_sorted_container_base.h:149-153 | does what insert(value) does |
| FlatSortedContainerBase.FlatSortedContainer.EmplaceHint | tools/flat_sorted_container_base.h:155-159 | does what insert(hint, value) does |
| FlatSortedContainerBase.FlatSortedContainer.InsertRange | tools/flat_sorted_container_base.h:134-145 | keeps the invariant; every old element survives unchanged, every element comes from the old body or the range, and every key of the range is present |
| FlatSortedContainerBase.FlatSortedContainer.Erase | tools/flat_sorted_container_base.h:161-164 | requires a position before `end()`; removes exactly that element, keeps the invariant, returns the same index |
| FlatSortedContainerBase.FlatSortedContainer.EraseRange | tools/flat_sorted_container_base.h:165-167 | removes exactly the run between the two positions and keeps the invariant |
| FlatSortedContainerBase.FlatSortedContainer.EraseKey | tools/flat_sorted_container_base.h:169-174 | returns the count of the key before the call (0 or 1), removes exactly the elements equal to it, and none is left |
| FlatSortedContainerBase.FlatSortedContainer.Clear | tools/flat_sorted_container_base.h:120 | the body is empty and valid |
| FlatSortedContainerBase.FlatSortedContainer.Swap | tools/flat_sorted_container_base.h:176 | the two bodies are exchanged; both stay valid when the containers share their traits |
| FlatSortedContainerBase.UnsafeRegion.constructor | tools/flat_sorted_container_base.h:72-74 | a region over its owner starts open and not released |
| FlatSortedContainerBase.UnsafeRegion.Assign | tools/flat_sorted_container_base.h:91-96 | raw mutation of the owner's body while the invariant is suspended |
| FlatSortedContainerBase.UnsafeRegion.Emplace | tools/flat_map.h:86-87 | the vector's emplace at a position through the region |
| FlatSortedContainerBase.UnsafeRegion.Release | tools/flat_sorted_container_base.h:94-95 | the region is marked released, so closing it leaves the body alone |
| FlatSortedContainerBase.UnsafeRegion.Close | tools/flat_sorted_container_base.h:12-30 | a released region leaves the body as it is; otherwise the body is normalised (valid, drawn from the old body, no key lost), and an already normalised body is unchanged |
| FlatSortedContainerBase.EqualTo | tools/flat_sorted_container_base.h:236-239 | equal exactly when the bodies agree element by element, mapped values included |
| FlatSortedContainerBase.NotEqualTo | tools/flat_sorted_container_base.h:241-244 | unequal exactly when the sizes differ or some element differs |
| FlatSortedContainerBase.LessThan | tools/flat_sorted_container_base.h:248-251 | the lexicographic order of the bodies, which is asymmetric under a strict total element order |
| FlatSortedContainerBase.AtMost | tools/flat_sorted_container_base.h:253-256 | less than or equal bodies |
| FlatSortedContainerBase.GreaterThan | tools/flat_sorted_container_base.h:258-261 | neither less nor equal |
| FlatSortedContainerBase.AtLeast | tools/flat_sorted_container_base.h:263-266 | greater than or equal bodies |
| FlatSortedContainerBase.EraseTailThenCompare | flat_map_unittest.cc:335-346 | erasing the tail of one of two equal containers makes it unequal, less and at most, and the other greater and at least |
| FlatMap.Cmp | tools/flat_map.h:20-34 | every overload (key/key, pair/key, key/pair, pair/pair) compares the two keys with the user comparison |
| FlatMap.MappedValueIsIgnored | tools/flat_map.h:20-39 | the mapped value never changes the outcome of `cmp` or `equal` |
| FlatMap.EqualIsEquivalence | tools/flat_map.h:36-39 | `equal` is symmetric for any comparison, reflexive when the comparison is irreflexive on the operand's key, and transitive under a strict weak order |
| FlatMap.MapTraits | tools/flat_map.h:41-45 | the key of a pair is its first component |
| FlatMap.MapTraitsAgree | tools/flat_map.h:14-46 | the engine's element and key comparisons under map traits are the pair/pair and pair/key overloads |
| FlatMap.Lookup | tools/flat_map.h:73-78 | a value is found exactly when some element is equal to the key, and it is that element's mapped value |
| FlatMap.LookupFindsTheElement | tools/flat_map.h:73-77 | in a normalised body, the element equal to the key is the one whose mapped value a lookup yields |
| FlatMap.LookupSkipsOtherKey | tools/flat_map.h:80-90 | an element whose key differs does not change a lookup |
| FlatMap.At | tools/flat_map.h:68-78 | the mapped value of the element equal to the key, or the out_of_range error "flat_map::at" exactly when there is none |
| FlatMap.Index | tools/flat_map.h:80-90 | keeps the invariant and returns the index of an element equal to the key; a present key leaves the body unchanged, an absent one is inserted with the default value at its lower bound |
| FlatMap.WriteMappedValue | tools/flat_map.h:80-84 | writing the mapped value through the returned reference keeps the body normalised; lookups of that key see the new value and lookups of other keys are unchanged |
| FlatMap.InsertedKeyIsInvisible | tools/flat_map.h:85-89 | inserting `(key, default)` does not change the lookup of any other key |
| FlatMap.Assign | flat_map_unittest.cc:251-261 | after `m[k] = v`, every key equal to k maps to v and every other key maps to what it mapped to before |
| FlatMap.LastWrite | flat_map_unittest.cc:251-261 | a key has a last write exactly when one of the writes is to an equal key |
| FlatMap.AssignAll | flat_map_unittest.cc:251-261 | after a sequence of `m[k] = v`, each written key maps to its last write, as in std::map, and other keys are unchanged |
| FlatMap.LastWriteStep | flat_map_unittest.cc:251-261 | one more write wins for its own key and leaves the last writes of other keys alone |
| FlatMap.LastWriteIsLatest | flat_map_unittest.cc:251-261 | a write that no later write to an equivalent key follows determines the key's final value |
| FlatMap.LastWriteWins | flat_map_unittest.cc:251-261 | assigning the test pairs into an empty map leaves every key with its last written value: "a" 7 rather than 3, "b" 5 rather than 3, "d" 12, "fa" 3, "fr" 3, "long" 1233 and "q" 0; no other key is present |
| FlatMap.LastWritesOfRegularPairs | flat_map_unittest.cc:251-261 | a body whose lookups follow the last writes of the test pairs holds those seven values and no other key |
| FlatMap.RegularLastWrites | flat_map_unittest.cc:123-137 | the last value the test pairs write to each of their seven keys |
| FlatMap.RegularLastWriteAt | flat_map_unittest.cc:123-137 | the writes at positions 1 and 3 to 8 of the test pairs are the last ones to their keys |
| FlatMap.RegularUnwrittenKey | flat_map_unittest.cc:123-137 | a key the test pairs never write has no last write |
| FlatSet.SetTraits | tools/flat_set.h:13-20 | set traits order values with the user comparison |
| FlatSet.SetTraitsAgree | tools/flat_set.h:18-31 | a value is its own key, `cmp` is the user comparison, and `equal` is mutual non-less |
| FlatSet.SetIsDeterminedByMembers | tools/flat_set.h:38-51 | under a strict total order two normalised sets with the same members are equal |
| FlatSet.NormalisedSetMembers | tools/flat_sorted_container_base.h:78-87 | a set normalised from some keys holds exactly those keys |
| FlatSet.RegularKeysNormalise | flat_map_unittest.cc:147-154 | any normalisation of the test keys is the sorted list of the distinct keys |
| FlatSet.BuildFromRepeatedKeys | flat_map_unittest.cc:276-289 | a set built from keys with repeats holds each key once, in order |
| FlatSet.BulkInsertKeys | flat_map_unittest.cc:193-200 | bulk insert of the test keys into an empty set gives the same set |

## Left out

- Iterators and reverse iterators (`begin`, `end`, `rbegin`, `cbegin` and so on), `size`, `empty`, `max_size` and `get_allocator`: positions are indices into `body` and the size is `|body|`.
- The accessors `key_comp`, `value_comp` and `key_value_comp`: they return the traits, which are the `traits` field.
- Copy, move and allocation, and the forwarding of `emplace` arguments: `emplace` takes the constructed value.
- The `std::unique_ptr` with a custom deleter behind the unsafe region, and unwinding on exceptions: the region is an object whose `Close` stands for the end of its scope, called explicitly on every path.
- The vector is not mutated in place: each step reassigns the `body` sequence. The sort, merge and deduplication are functions or methods over sequences, not over iterators into the vector.
- The `internal::std_unique_traits` and `std_sort_traits` that `flat_map_traits` mixes in are not part of this model. The engine reaches the traits through `operator()`; the model uses the single key order `cmp` for every comparison, as the traits' `cmp` overloads define it.
- `FlatSortedContainerBase.FlatSortedContainer.InsertRange`: which of several equal new elements survives is not stated, because `std::sort` is not stable. The same holds for `FlatSortedContainerBase.SortAndUnique` and the constructors.
- `FlatMap.Index`: returns the index of the element, not a reference to its mapped value. A write through that reference is `FlatMap.Assign`.
- `FlatMap.Index`: `mapped_type()` is the explicit `defaultValue` parameter, since the model has no value-initialisation.
- `FlatMap.At`: `std::out_of_range` is a `Failure` result, not an exception.
- The non-const `at` returns a mutable reference to the same element; it is modelled by the same `At`.
- The comparison operators take the element type's own `<` as a parameter (`lt`): for a map this is `std::pair`'s `<`, which compares mapped values too. The properties that need it assume that order is strict and total.
- The string order of the unit tests: `Lexicographic.CharLess` and `Lexicographic.StringLess` order `char`s as Unicode scalar values, while `std::string`'s `<` compares bytes as `unsigned char`. The two orders agree on the ASCII keys of the unit tests.
- type_erasure.cc is not part of this model: it is an unrelated demo with I/O.
- The test harness of flat_map_unittest.cc (logging, serialisation, `main`) is not modelled; a few of its scenarios are stated as lemmas and methods.
