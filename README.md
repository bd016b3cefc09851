# TVoxelMap in Dafny

A model of `TVoxelMap`, the hash map of the VoxelCore plugin. The map keeps
its entries in a dense array of elements, each holding a key, a value and
`NextElementIndex`. Beside the array sits `HashTable`, a power-of-two array of
bucket heads. A key's bucket is `Hash & (HashSize - 1)`. Its chain starts at
the bucket head and follows `NextElementIndex` until -1. Removal is a swap
removal: the last element moves into the freed index, so element order is
not preserved.

The model is imperative, like the source:

- `VoxelMaps.VoxelMap` is a class whose fields are the element array
  (`elements`) and the bucket table (`hashTable`). A ghost field `chains`
  lists the indices each bucket's chain visits, in walk order.
- The class invariant `Valid()` says four things:
  - the table is large enough for the element count (`CheckInvariants`);
  - its size is 0 or a power of two;
  - keys are unique;
  - every element is on the chain of its own bucket, with each link pointing
    at the chain's next entry (`HashChains.Linked`).
- `Contents()` is the key-to-value mapping the element array stands for.

Every lookup walks the chain with a loop. Every change to the map is a
method whose `ensures` gives the new element array, or the new contents, in
terms of the old one. Removal works on the source's `int32*` slots: the
`Slot` datatype names a bucket or an element's link field.

Modules:

| file | module | what it holds |
|---|---|---|
| hashing.dfy | Hashing | bucket selection, `GetHashSize`, the size Rehash picks |
| map_elements.dfy | MapElements | elements, their key/value pairs, the mapping they denote, swap removal |
| hash_chains.dfy | HashChains | the chain invariant, slots, and the lemmas that push, unlink and move one element |
| element_sort.dfy | ElementSort | orders, the sort the map delegates to, the adjacency check |
| voxel_map.dfy | VoxelMaps | the `VoxelMap` class and the Append fast-path finding |
| map_compare.dfy | MapComparisons | `OrderIndependentEqual`, `OrderDependentEqual`, `HasSameKeys` |
| map_iterator.dfy | MapIterators | the iterator and `RemoveCurrent` |

All source paths below are relative to the repository root. `VoxelMap.h`
stands for `Plugins/VoxelCore-master/Source/VoxelCore/Public/VoxelMinimal/Containers/VoxelMap.h`
in the prose; the table spells it out.

## Model

| member | source | states |
|---|---|---|
| Hashing.Bucket | Plugins/VoxelCore-master/Source/VoxelCore/Public/VoxelMinimal/Containers/VoxelMap.h:947-953 | `Hash & (HashSize - 1)` always selects a bucket inside the table |
| Hashing.BucketIsRemainder | Plugins/VoxelCore-master/Source/VoxelCore/Public/VoxelMinimal/Containers/VoxelMap.h:947-953 | for a power-of-two table the mask keeps exactly the remainder of the hash by the size |
| Hashing.GetHashSize | Plugins/VoxelCore-master/Source/VoxelCore/Public/VoxelMinimal/Containers/VoxelMap.h:928-938 | the size is a power of two an int32 table can hold, at least the formula's size and the allocator's MinHashSize |
| Hashing.GetHashSizeMonotone | Plugins/VoxelCore-master/Source/VoxelCore/Public/VoxelMinimal/Containers/VoxelMap.h:928-938 | more elements never get a smaller table |
| Hashing.RehashSize | Plugins/VoxelCore-master/Source/VoxelCore/Public/VoxelMinimal/Containers/VoxelMap.h:963-965 | max(HashTable.Num(), GetHashSize(n)) is a power of two, no smaller than the current table and large enough for n elements |
| MapElements.AppendFresh | Plugins/VoxelCore-master/Source/VoxelCore/Public/VoxelMinimal/Containers/VoxelMap.h:694 | appending the pair of an absent key keeps keys unique and adds exactly that entry to the mapping |
| MapElements.UpdateValue | Plugins/VoxelCore-master/Source/VoxelCore/Public/VoxelMinimal/Containers/VoxelMap.h:340-343 | overwriting one element's value rebinds exactly its key |
| MapElements.SwapRemove | Plugins/VoxelCore-master/Source/VoxelCore/Public/VoxelMinimal/Containers/VoxelMap.h:794-813 | swap-and-pop: one element shorter, the old last element at the removed index, every other index unchanged |
| MapElements.SwapRemoveDeletesKey | Plugins/VoxelCore-master/Source/VoxelCore/Public/VoxelMinimal/Containers/VoxelMap.h:793-813 | swap removal shortens the array by one, keeps keys unique, and removes exactly the removed key from the mapping |
| MapElements.SwapRemoveKeepsUnvisited | Plugins/VoxelCore-master/Source/VoxelCore/Public/VoxelMinimal/Containers/VoxelMap.h:880-886 | after swap-removing index i, the prefix before i is unchanged, the elements from i on are exactly the old elements after i, and the old last element sits at i |
| MapElements.PermutationKeepsMap | Plugins/VoxelCore-master/Source/VoxelCore/Public/VoxelMinimal/Containers/VoxelMap.h:590-601 | reordering pairs with unique keys keeps keys unique and the mapping unchanged |
| MapElements.CoveredSameSize | Plugins/VoxelCore-master/Source/VoxelCore/Public/VoxelMinimal/Containers/VoxelMap.h:242-259 | a mapping with as many entries as there are pairs, and holding every pair, is exactly the pairs' mapping |
| MapElements.KeysCoveredSameSize | Plugins/VoxelCore-master/Source/VoxelCore/Public/VoxelMinimal/Containers/VoxelMap.h:291-303 | a key set as large as the pair count and holding every key is exactly the key set |
| HashChains.SlotBeforeReads | Plugins/VoxelCore-master/Source/VoxelCore/Public/VoxelMinimal/Containers/VoxelMap.h:777-788 | on a linked table, the `int32*` slot before the j-th entry of a bucket's chain (the bucket itself, or the previous entry's NextElementIndex) is valid and reads that entry's index |
| HashChains.WriteSlot | Plugins/VoxelCore-master/Source/VoxelCore/Public/VoxelMinimal/Containers/VoxelMap.h:788-789 | a write through an `int32*` slot changes that bucket or that link and nothing else, and reads back |
| HashChains.PushFront | Plugins/VoxelCore-master/Source/VoxelCore/Public/VoxelMinimal/Containers/VoxelMap.h:972-979 | storing the bucket head in element i's link and i in the bucket extends the linked prefix to i + 1 |
| HashChains.AbsentFromChain | Plugins/VoxelCore-master/Source/VoxelCore/Public/VoxelMinimal/Containers/VoxelMap.h:427-444 | a key on no entry of its bucket's chain is held by no element, so one chain walk can answer null |
| HashChains.OnOneChain | Plugins/VoxelCore-master/Source/VoxelCore/Public/VoxelMinimal/Containers/VoxelMap.h:972-979 | every element is on the chain of bucket b exactly when b is its bucket, and there exactly once |
| HashChains.WalkFrom | Plugins/VoxelCore-master/Source/VoxelCore/Public/VoxelMinimal/Containers/VoxelMap.h:427-444 | the walk from any entry of a linked chain stays in the array and reports Missing only when no later entry holds the key |
| HashChains.ChainLookup | Plugins/VoxelCore-master/Source/VoxelCore/Public/VoxelMinimal/Containers/VoxelMap.h:428-444 | the walk along NextElementIndex: a Found index holds the key, and an OutOfRange index is neither -1 nor inside the array |
| HashChains.ChainLookupResult | Plugins/VoxelCore-master/Source/VoxelCore/Public/VoxelMinimal/Containers/VoxelMap.h:418-445 | with unique keys, the walk from a key's bucket reports exactly the index holding the key, or Missing when no element does |
| HashChains.ChainLookupAgrees | Plugins/VoxelCore-master/Source/VoxelCore/Public/VoxelMinimal/Containers/VoxelMap.h:418-445 | on a linked table the chain walk never leaves the element array, and it misses exactly when no element holds the key |
| HashChains.Unlink | Plugins/VoxelCore-master/Source/VoxelCore/Public/VoxelMinimal/Containers/VoxelMap.h:776-791 | storing the found element's next index in the slot that pointed at it drops the element from its chain and leaves every other entry linked |
| HashChains.PopUnlinked | Plugins/VoxelCore-master/Source/VoxelCore/Public/VoxelMinimal/Containers/VoxelMap.h:795-799 | popping the unlinked last element leaves a fully linked array |
| HashChains.MoveLast | Plugins/VoxelCore-master/Source/VoxelCore/Public/VoxelMinimal/Containers/VoxelMap.h:802-813 | pointing the slot of the last element at the freed index and moving the last element there leaves every chain linked, and the pairs are the swap-removed pairs |
| ElementSort.SortBy | Plugins/VoxelCore-master/Source/VoxelCore/Public/VoxelMinimal/Containers/VoxelMap.h:595-598 | the sort's result is a permutation of its input |
| ElementSort.SortBySorted | Plugins/VoxelCore-master/Source/VoxelCore/Public/VoxelMinimal/Containers/VoxelMap.h:595-598 | under a strict weak order no element of the result is less than an earlier one |
| ElementSort.KeyOrderIsWeak | Plugins/VoxelCore-master/Source/VoxelCore/Public/VoxelMinimal/Containers/VoxelMap.h:607-610 | KeySort's element comparison is a strict weak order when the key predicate is one |
| ElementSort.ValueOrderIsWeak | Plugins/VoxelCore-master/Source/VoxelCore/Public/VoxelMinimal/Containers/VoxelMap.h:619-622 | ValueSort's element comparison is a strict weak order when the value predicate is one |
| ElementSort.KeySortedIsAdjacent | Plugins/VoxelCore-master/Source/VoxelCore/Public/VoxelMinimal/Containers/VoxelMap.h:653-665 | unique keys sorted under a strict total order pass AreKeySorted: each key is less than the next |
| ElementSort.AdjacentIsSorted | Plugins/VoxelCore-master/Source/VoxelCore/Public/VoxelMinimal/Containers/VoxelMap.h:627-638 | passing the adjacency check under a strict weak order means every element is less than every later one |
| VoxelMaps.VoxelMap.constructor | Plugins/VoxelCore-master/Source/VoxelCore/Public/VoxelMinimal/Containers/VoxelMap.h:118 | a default map is valid, with no elements, no table and empty contents |
| VoxelMaps.VoxelMap.Num | Plugins/VoxelCore-master/Source/VoxelCore/Public/VoxelMinimal/Containers/VoxelMap.h:160-163 | the element count is the number of keys in the map |
| VoxelMaps.VoxelMap.FindHashed | Plugins/VoxelCore-master/Source/VoxelCore/Public/VoxelMinimal/Containers/VoxelMap.h:418-445 | -1 (null) exactly when the key is absent, and always on an empty table; otherwise the index of the key's element, which holds the key's value; on a non-empty table the result is what the chain walk `ChainLookup` from the key's bucket reports |
| VoxelMaps.VoxelMap.Find | Plugins/VoxelCore-master/Source/VoxelCore/Public/VoxelMinimal/Containers/VoxelMap.h:414-417 | as FindHashed with the key's own hash |
| VoxelMaps.VoxelMap.Contains | Plugins/VoxelCore-master/Source/VoxelCore/Public/VoxelMinimal/Containers/VoxelMap.h:500-503 | true exactly when the key is in the map |
| VoxelMaps.VoxelMap.FindChecked | Plugins/VoxelCore-master/Source/VoxelCore/Public/VoxelMinimal/Containers/VoxelMap.h:475-494 | for a present key the walk never reaches -1 and returns the key's value |
| VoxelMaps.VoxelMap.Rehash | Plugins/VoxelCore-master/Source/VoxelCore/Public/VoxelMinimal/Containers/VoxelMap.h:959-980 | the table becomes max(old size, GetHashSize(Num())) buckets and every element is linked on its bucket's chain; keys, values and order are unchanged |
| VoxelMaps.VoxelMap.Reserve | Plugins/VoxelCore-master/Source/VoxelCore/Public/VoxelMinimal/Containers/VoxelMap.h:214-231 | a no-op unless more than Num() elements are asked for; otherwise the table has at least GetHashSize(number) buckets, exactly that many when it grew; the contents never change |
| VoxelMaps.VoxelMap.ReserveGrow | Plugins/VoxelCore-master/Source/VoxelCore/Public/VoxelMinimal/Containers/VoxelMap.h:232-235 | Reserve(Num() + number): a no-op when number is 0 or the table already has GetHashSize(Num() + number) buckets; otherwise the table grows to exactly that size; the contents do not change |
| VoxelMaps.VoxelMap.Append | Plugins/VoxelCore-master/Source/VoxelCore/Public/VoxelMinimal/Containers/VoxelMap.h:306-349 | the contents become the old contents overridden by Other's; the old keys keep their positions; into an empty map the table and the elements are Other's |
| VoxelMaps.VoxelMap.CopyFrom | Plugins/VoxelCore-master/Source/VoxelCore/Public/VoxelMinimal/Containers/VoxelMap.h:316-331 | the fast path with links copied: a valid map with Other's table, pairs and contents |
| VoxelMaps.VoxelMap.AppendEach | Plugins/VoxelCore-master/Source/VoxelCore/Public/VoxelMinimal/Containers/VoxelMap.h:333-348 | after ReserveGrow and one pass over Other, the contents are old + Other's, with the old keys in place |
| VoxelMaps.VoxelMap.EnterAll | Plugins/VoxelCore-master/Source/VoxelCore/Public/VoxelMinimal/Containers/VoxelMap.h:335-348 | the loop over Other, started from Append's loop state with nothing entered, ends with every element of Other entered |
| VoxelMaps.VoxelMap.EnterElement | Plugins/VoxelCore-master/Source/VoxelCore/Public/VoxelMinimal/Containers/VoxelMap.h:335-348 | one loop pass keeps Append's loop state, with one more element of Other entered |
| VoxelMaps.VoxelMap.EnterPair | Plugins/VoxelCore-master/Source/VoxelCore/Public/VoxelMinimal/Containers/VoxelMap.h:337-347 | the key is bound to the value, with at most one element added and the table size unchanged |
| VoxelMaps.VoxelMap.SetValue | Plugins/VoxelCore-master/Source/VoxelCore/Public/VoxelMinimal/Containers/VoxelMap.h:340-343 | writing through the found value pointer rebinds that key only; keys and table stay |
| VoxelMaps.VoxelMap.AddHashed_CheckNew | Plugins/VoxelCore-master/Source/VoxelCore/Public/VoxelMinimal/Containers/VoxelMap.h:686-709 | the new pair is last, the other pairs keep their place and values, the table is large enough afterwards, either rehashed to GetHashSize or with only the key's bucket changed to the new index |
| VoxelMaps.VoxelMap.PushOnChain | Plugins/VoxelCore-master/Source/VoxelCore/Public/VoxelMinimal/Containers/VoxelMap.h:703-705 | linking the new last element on the front of its chain makes the map valid, changing only its bucket |
| VoxelMaps.VoxelMap.AddHashed_CheckNew_CheckNoRehash | Plugins/VoxelCore-master/Source/VoxelCore/Public/VoxelMinimal/Containers/VoxelMap.h:710-728 | with room reserved, the pair is appended and only the key's bucket changes |
| VoxelMaps.VoxelMap.AddHashed_EnsureNew | Plugins/VoxelCore-master/Source/VoxelCore/Public/VoxelMinimal/Containers/VoxelMap.h:672-685 | a present key is a soft failure that changes nothing and returns the existing element; otherwise the pair (k, v) is appended last with the old pairs in place, and the table is either rehashed to GetHashSize or changed only in the key's bucket, as in AddHashed_CheckNew |
| VoxelMaps.VoxelMap.FindOrAdd | Plugins/VoxelCore-master/Source/VoxelCore/Public/VoxelMinimal/Containers/VoxelMap.h:515-531 | a present key changes nothing; an absent one is added last with the default value, the old pairs keeping their places; either way the key is then present |
| VoxelMaps.VoxelMap.RemoveHashedChecked | Plugins/VoxelCore-master/Source/VoxelCore/Public/VoxelMinimal/Containers/VoxelMap.h:768-814 | the pairs are the old pairs swap-removed at the key's index, the key is gone, every other key keeps its value, and the map stays valid |
| VoxelMaps.VoxelMap.UnlinkKey | Plugins/VoxelCore-master/Source/VoxelCore/Public/VoxelMinimal/Containers/VoxelMap.h:776-791 | the key's element is unlinked from its chain and its index returned; the pairs do not change |
| VoxelMaps.VoxelMap.SlotOfKey | Plugins/VoxelCore-master/Source/VoxelCore/Public/VoxelMinimal/Containers/VoxelMap.h:778-786 | the walk ends at the slot that holds the key's element index |
| VoxelMaps.VoxelMap.SlotOfIndex | Plugins/VoxelCore-master/Source/VoxelCore/Public/VoxelMinimal/Containers/VoxelMap.h:803-807 | the walk ends at the slot that holds the last element's index |
| VoxelMaps.VoxelMap.PopLast | Plugins/VoxelCore-master/Source/VoxelCore/Public/VoxelMinimal/Containers/VoxelMap.h:795-799 | removing the unlinked last element leaves a valid map |
| VoxelMaps.VoxelMap.MoveLastInto | Plugins/VoxelCore-master/Source/VoxelCore/Public/VoxelMinimal/Containers/VoxelMap.h:802-813 | the last element takes the freed index, its chain now points there, and the map is valid |
| VoxelMaps.VoxelMap.RemoveChecked | Plugins/VoxelCore-master/Source/VoxelCore/Public/VoxelMinimal/Containers/VoxelMap.h:764-767 | as RemoveHashedChecked with the key's own hash |
| VoxelMaps.VoxelMap.Remove | Plugins/VoxelCore-master/Source/VoxelCore/Public/VoxelMinimal/Containers/VoxelMap.h:753-763 | false with nothing changed for an absent key; otherwise true, Num() one less, the key gone and the others unchanged |
| VoxelMaps.VoxelMap.RemoveAndCopyValue | Plugins/VoxelCore-master/Source/VoxelCore/Public/VoxelMinimal/Containers/VoxelMap.h:737-750 | as Remove, also returning the removed key's value |
| VoxelMaps.VoxelMap.Sort | Plugins/VoxelCore-master/Source/VoxelCore/Public/VoxelMinimal/Containers/VoxelMap.h:590-601 | the pairs are a permutation of the old ones, sorted under a strict weak order, with the same contents, and the table rehashed |
| VoxelMaps.VoxelMap.KeySort | Plugins/VoxelCore-master/Source/VoxelCore/Public/VoxelMinimal/Containers/VoxelMap.h:602-613 | Sort by keys: a permutation with the same contents, sorted by key under a strict weak order; with a strict total order AreKeySorted holds afterwards |
| VoxelMaps.VoxelMap.ValueSort | Plugins/VoxelCore-master/Source/VoxelCore/Public/VoxelMinimal/Containers/VoxelMap.h:614-625 | Sort by values: a permutation with the same contents, sorted by value under a strict weak order |
| VoxelMaps.VoxelMap.AreKeySorted | Plugins/VoxelCore-master/Source/VoxelCore/Public/VoxelMinimal/Containers/VoxelMap.h:627-638 | true exactly when every key is less than the next |
| VoxelMaps.VoxelMap.AreValueSorted | Plugins/VoxelCore-master/Source/VoxelCore/Public/VoxelMinimal/Containers/VoxelMap.h:639-650 | true exactly when every value is less than the next |
| VoxelMaps.VoxelMap.Reset | Plugins/VoxelCore-master/Source/VoxelCore/Public/VoxelMinimal/Containers/VoxelMap.h:177-181 | no elements and no table |
| VoxelMaps.VoxelMap.ResetKeepHashSize | Plugins/VoxelCore-master/Source/VoxelCore/Public/VoxelMinimal/Containers/VoxelMap.h:182-186 | no elements; the table keeps its size (at least GetHashSize(0)) with every bucket -1 |
| VoxelMaps.VoxelMap.Shrink | Plugins/VoxelCore-master/Source/VoxelCore/Public/VoxelMinimal/Containers/VoxelMap.h:192-213 | an empty map drops its table; otherwise the table has exactly GetHashSize(Num()) buckets; contents unchanged |
| VoxelMaps.VoxelMap.Load | Plugins/VoxelCore-master/Source/VoxelCore/Public/VoxelMinimal/Containers/VoxelMap.h:400-411 | loading stores the pairs as read and rehashes, leaving a valid map with exactly those contents |
| VoxelMaps.CopiedWithoutLinks | Plugins/VoxelCore-master/Source/VoxelCore/Public/VoxelMinimal/Containers/VoxelMap.h:321-328 | the fast path's copies keep every pair and carry link -16 |
| VoxelMaps.SharedBucketMap | Plugins/VoxelCore-master/Source/VoxelCore/Public/VoxelMinimal/Containers/VoxelMap.h:686-709 | a one-bucket map into which AddHashed_CheckNew adds key 1 and then key 2 is valid and holds element 1 (link -1) and element 2 (link 0) with table [1] |
| VoxelMaps.SharedBucketIsLinked | Plugins/VoxelCore-master/Source/VoxelCore/Public/VoxelMinimal/Containers/VoxelMap.h:686-706 | the state SharedBucketMap reaches, two keys sharing one bucket with the chain 1 -> 0, is well linked |
| VoxelMaps.AppendFastPathLosesLinks | Plugins/VoxelCore-master/Source/VoxelCore/Public/VoxelMinimal/Containers/VoxelMap.h:316-331 | on the fast path's copy of a valid map, the walk for a present key leaves the array at index -16; on the original it finds the key |
| MapComparisons.OrderIndependentEqual | Plugins/VoxelCore-master/Source/VoxelCore/Public/VoxelMinimal/Containers/VoxelMap.h:237-260 | true exactly when Num() agrees and every key of Other is found with an equal value, which is exactly equal contents |
| MapComparisons.OrderDependentEqual | Plugins/VoxelCore-master/Source/VoxelCore/Public/VoxelMinimal/Containers/VoxelMap.h:261-284 | true exactly when both arrays hold the same pairs in the same order, which implies equal contents |
| MapComparisons.HasSameKeys | Plugins/VoxelCore-master/Source/VoxelCore/Public/VoxelMinimal/Containers/VoxelMap.h:286-304 | true exactly when Num() agrees and every key of Other is present, which is exactly equal key sets |
| MapIterators.MapIterator.constructor | Plugins/VoxelCore-master/Source/VoxelCore/Public/VoxelMinimal/Containers/VoxelMap.h:828-835 | the iterator starts at index 0, with an element exactly when the map is not empty |
| MapIterators.MapIterator.Next | Plugins/VoxelCore-master/Source/VoxelCore/Public/VoxelMinimal/Containers/VoxelMap.h:837-849 | ++ advances the index by one and has an element exactly while the index is inside the array |
| MapIterators.MapIterator.Key | Plugins/VoxelCore-master/Source/VoxelCore/Public/VoxelMinimal/Containers/VoxelMap.h:869-873 | the current element's key, which the map contains |
| MapIterators.MapIterator.Value | Plugins/VoxelCore-master/Source/VoxelCore/Public/VoxelMinimal/Containers/VoxelMap.h:874-878 | the value the map holds for the current key |
| MapIterators.MapIterator.RemoveCurrent | Plugins/VoxelCore-master/Source/VoxelCore/Public/VoxelMinimal/Containers/VoxelMap.h:880-886 | the current key is removed, the index steps back one and the pointer is cleared; the visited prefix is unchanged, the elements still to visit are exactly the old unvisited ones, and the moved-in last element is visited next |

## Left out

- The hash function `FVoxelUtilities::HashValue` and the formula `FVoxelUtilities::GetHashTableSize` are parameters of the map (`hash`, `SizePolicy`). `ValidPolicy` states what the map relies on: powers of two that fit in an int32, and monotone in the count.
- 32-bit arithmetic: element counts and indices are unbounded integers. The model does not capture an int32 count overflowing past 2^31 - 1 elements. Table sizes are bounded by `MaxHashSize`.
- Allocation and capacity are not modelled: `Elements.Reserve`, `Emplace_CheckNoGrow`, the `Shrink` of the underlying arrays, `Empty` (which is `Reset` plus freeing memory), `GetAllocatedSize`, and the inline allocator beyond its `MinHashSize`.
- `TVoxelArray::Sort` is not part of this model. `ElementSort.SortBy`, an insertion sort, stands in for it. The map relies only on the result being a permutation and, for a strict weak order, sorted.
- VoxelMaps.VoxelMap.Sort: the links the sort carries along are reset to -1 before `Rehash`. Rehash overwrites every link, so nothing observable differs.
- VoxelMaps.VoxelMap.Sort, VoxelMaps.VoxelMap.KeySort, VoxelMaps.VoxelMap.ValueSort: the contracts promise a sorted permutation, not the stand-in's exact order. The stand-in is stable, but `TVoxelArray::Sort` need not keep equal elements in their array order.
- VoxelMaps.VoxelMap.Append: Other must share the hash, the policy and the key and value types. Appending from another allocator or converting key and value types is not modelled. Appending a map to itself is excluded.
- VoxelMaps.VoxelMap.Load: the loaded pairs are required to have unique keys. The source trusts the archive and does not check.
- Serialization beyond loading is left out, because it is archive I/O: saving, and the element `operator<<` that writes key and value.
- `KeyArray`, `ValueArray`, `KeySet`, `ValueSet`, `GetElements`, `operator[]`, `FindRef` and `FindSharedPtr` are left out. Each is a thin wrapper over the element array, `FindChecked` or `Find`.
- Left out as one-line forwards to the modelled `AddHashed_*` methods with the key's own hash (and the default value where no value is given): the `Add_CheckNew`, `Add_EnsureNew` and `Add_CheckNew_CheckNoRehash` overloads.
- `AddHashed_CheckNew_EnsureNoRehash` (lines 729-733) is left out. It takes the hash as a parameter and soft-checks (`ensureVoxelSlow`, which execution continues past) that the table fits the current element count; the `AddHashed_CheckNew` it calls may still rehash. It then calls `AddHashed_CheckNew(Hash, Key)` with two arguments, but the only overload also takes a value and has no default for it. The member cannot compile once instantiated, so nothing in the model corresponds to it.
- Copy and move constructors and assignments, and the initializer-list constructor, are left out. The latter is Reserve plus FindOrAdd per pair.
- MapIterators.MapIterator: `ElementPtr` is modelled as a flag plus the index, so a pointer left dangling by a reallocation or a foreign removal is not modelled. The const and non-const iterators are one class. `begin`/`end` and `operator!=` are left out.
- `checkVoxelSlow` and `ensure` are preconditions or results of the model. Debug-only statistics counters (`VOXEL_FUNCTION_COUNTER`) are left out.

## Findings

| source | as written | input that shows it | evidently intended | confidence | as-written member | corrected member |
|---|---|---|---|---|---|---|
| Plugins/VoxelCore-master/Source/VoxelCore/Public/VoxelMinimal/Containers/VoxelMap.h:316-331 | Appending into an empty map with the same key type copies `HashTable` verbatim, but rebuilds each element from its key and value only. Every `NextElementIndex` is then the constructor's debug default -16, or uninitialised in release builds, while the copied bucket heads still point into chains. | Take a one-bucket map (every key hashing to 0) holding key 1, then key 2, so the chain is 1 -> 0 (the state `VoxelMaps.SharedBucketMap` builds with AddHashed_CheckNew), and append it to an empty map. `Find(1)` starts at element 1 (key 2) and follows its link -16 out of the array. The converting constructor at lines 143-146 takes the same path when only the value types differ. | copy each element's `NextElementIndex` with it (or copy `Elements` whole), so the reused table still describes the chains | high; not executed | VoxelMaps.AppendFastPathLosesLinks | VoxelMaps.VoxelMap.CopyFrom |
