# oxf containers in Dafny

This project models four in-memory containers of the `oxf` C++ library and
proves what each operation does to the container's abstract state:

- `oxf::vector<T>` (module `Vectors`, file `vector.dfy`) is a growable array
  over one owned buffer. The class `Vector` holds the buffer as an
  `array<T>` and `itemCounter` as `count`. The ghost `Elems()` is the live
  range `buf[..count]`, and every operation is stated as an equation on that
  sequence and on the capacity. Growth on a full buffer is
  `max(2, floor(1.6 * cap))`. `insert` grows through `reserve(count + 1)`.
  Element lifetimes of the non-trivially-destructible paths are modelled in
  module `Lifetimes` (`lifetimes.dfy`) as construct and destroy events
  replayed against per-slot liveness.
- `oxf::array<T, N>` (module `FixedArrays`, file `fixed_array.dfy`) is a fixed
  array. The class `FixedArray` holds an element buffer plus the `valid[N]`
  occupancy map. The trivially-destructible capability of `T` is the field
  `trivialDtor`.
- `oxf::heap<T>` (modules `HeapOrder`, `Heaps` and `HeapAsWritten`, files
  `heap_order.dfy`, `heap.dfy` and `heap_as_written.dfy`) is a binary heap
  stored in an `oxf::vector`.
  - The comparator is a function value `cond`, where `cond(a, b)` means "a
    belongs above b". It is required to be a strict weak order, as both
    `<` (the default) and `>` (`OXF_MAX_HEAP`) are.
  - `push` and `pop` are proved to keep the heap order of the standard
    0-indexed tree and to add, or remove, exactly one element of the multiset
    of contents.
  - The source's own position updates are modelled separately in
    `HeapAsWritten`, with concrete inputs on which they break the order.
- `oxf::disjoint_set<T>` (module `DisjointSets`, file `disjoint_set.dfy`) is
  union-find over a buffer of `{value, parent, children, isBase}` items.
  - The invariant `Linked` says three things. Every parent index is inside
    the buffer. An item is a base exactly when it is its own parent. A
    non-base item's parent counts strictly more children than the item.
    The last clause makes the parent links acyclic, so `find` terminates.
  - `RootOf` specifies the walk of `find`.
  - Union is proved to merge exactly the two sets involved.

Errors that the source throws are results in the model: `Status` for
operations that return nothing, `Result` for accessors, and `Option` for a
null pointer (module `Outcomes`, file `outcomes.dfy`). Byte comparison with
`memcmp` is modelled as equality on `T`.

## Model

| member | source | states |
|---|---|---|
| Vectors.AtLeastTwo | Data_Structures/Vector/Vector.hpp:27 | OXF_VECTOR_SIZE is at least 2 and at least its argument, and is one of the two |
| Vectors.GrownCapacity | Data_Structures/Vector/Vector.hpp:66-70 | the capacity after an overflow reallocation, floor(1.6 * cap) but at least 2, is strictly larger than the old one |
| Vectors.PushAllIntoFits | Data_Structures/Vector/Vector.hpp:176-181 | appending src one unchecked push at a time into a buffer with room for all of it yields exactly acc + src |
| Vectors.PushAllIntoOverflows | Data_Structures/Vector/Vector.hpp:176-181 | when the items outnumber the free slots, the unchecked pushes write past the buffer |
| Vectors.CopyAssignAsWrittenOverflows | Data_Structures/Vector/Vector.hpp:173-188 | with the reuse test as written, copy-assigning a vector with more elements than this capacity writes past the buffer |
| Vectors.CopyAssignCopies | Data_Structures/Vector/Vector.hpp:173-188 | with the corrected reuse test, copy assignment always succeeds, yields exactly the source's elements, and lands in a buffer large enough for them |
| Vectors.Vector.Size | Data_Structures/Vector/Vector.hpp:598 | size() is the number of live elements |
| Vectors.Vector.Capacity | Data_Structures/Vector/Vector.hpp:600 | capacity() always covers the live elements |
| Vectors.Vector.Empty | Data_Structures/Vector/Vector.hpp:596 | empty() holds exactly when there are no live elements |
| Vectors.Vector.Get | Data_Structures/Vector/Vector.hpp:520-522 | operator[] returns the element at position i of the live range |
| Vectors.Vector.constructor | Data_Structures/Vector/Vector.hpp:413 | vector() has capacity 2 and no elements |
| Vectors.Vector.WithCapacity | Data_Structures/Vector/Vector.hpp:419-420 | vector(n) has capacity max(2, n) and no elements |
| Vectors.Vector.FromList | Data_Structures/Vector/Vector.hpp:452-457 | the list constructor has capacity max(2, len) and holds the list in order |
| Vectors.Vector.Copy | Data_Structures/Vector/Vector.hpp:426-437 | the copy constructor gives a fresh buffer of the same capacity holding the same elements |
| Vectors.Vector.Moved | Data_Structures/Vector/Vector.hpp:443-445 | the move constructor takes over the source's buffer and count, and leaves the source with size 0 and capacity 0 |
| Vectors.Vector.InternalPushBack | Data_Structures/Vector/Vector.hpp:76-79 | internalPushBack appends the item in the same buffer |
| Vectors.Vector.InternalSimpleCopy | Data_Structures/Vector/Vector.hpp:127-138 | internalSimpleCopy appends every live element of this vector, in order, to dst's elements in dst's own buffer |
| Vectors.Vector.InternalResize | Data_Structures/Vector/Vector.hpp:57-61 | internalResize moves the elements unchanged into a fresh buffer of max(2, newSize) slots |
| Vectors.Vector.ResizeOnDemand | Data_Structures/Vector/Vector.hpp:66-70 | a full buffer is replaced by one of GrownCapacity slots; otherwise the buffer is kept; elements are unchanged and there is room for one more |
| Vectors.Vector.PushBack | Data_Structures/Vector/Vector.hpp:672-686 | push_back appends the item and keeps every earlier element; the buffer grows to GrownCapacity exactly when it was full |
| Vectors.Vector.PopBack | Data_Structures/Vector/Vector.hpp:326-334 | pop_back drops the last element and keeps the buffer |
| Vectors.Vector.Resize | Data_Structures/Vector/Vector.hpp:721-725 | resize(n) keeps the first n elements when there are more, and is a no-op otherwise; the buffer is kept |
| Vectors.Vector.Clear | Data_Structures/Vector/Vector.hpp:631-633 | clear leaves no elements and keeps the buffer |
| Vectors.Vector.Reserve | Data_Structures/Vector/Vector.hpp:609-613 | reserve(k) reallocates to max(2, k) slots only when k exceeds the capacity; the elements are unchanged |
| Vectors.Vector.ShrinkToFit | Data_Structures/Vector/Vector.hpp:618-622 | shrink_to_fit moves the elements unchanged into a fresh buffer of max(2, size) slots |
| Vectors.Vector.InternalShiftRight | Data_Structures/Vector/Vector.hpp:224-240 | internalShiftRight makes room for one more slot, then leaves s[..index + 1] + s[index..] in the first count + 1 slots |
| Vectors.Vector.InternalShiftLeft | Data_Structures/Vector/Vector.hpp:198-213 | internalShiftLeft leaves s[..index] + s[index + 1..] as the live range, in the same buffer |
| Vectors.Vector.Insert | Data_Structures/Vector/Vector.hpp:651-666 | insert fails unless i < size; otherwise the elements become s[..i] + [x] + s[i..], and a full buffer grows to exactly size + 1 |
| Vectors.Vector.Erase | Data_Structures/Vector/Vector.hpp:640-644 | erase fails unless i < size; otherwise the elements become s[..i] + s[i + 1..]; the buffer is kept |
| Vectors.InsertThenEraseRestores | Data_Structures/Vector/Vector.hpp:640-666 | erasing position i after inserting at i gives back the original elements |
| Vectors.Vector.Replace | Data_Structures/Vector/Vector.hpp:757-785 | replace fails unless i < size; otherwise only position i changes, to x |
| Vectors.Vector.SwapItems | Data_Structures/Vector/Vector.hpp:710-715 | swapItems fails unless both indices are below size; otherwise exactly positions a and b exchange their elements |
| Vectors.Vector.At | Data_Structures/Vector/Vector.hpp:539-554 | at(i) fails exactly when i >= size; otherwise it returns element i |
| Vectors.Vector.Swap | Data_Structures/Vector/Vector.hpp:699-703 | swap exchanges buffer, capacity and count with the other vector |
| Vectors.Vector.MoveAssign | Data_Structures/Vector/Vector.hpp:488-494 | move assignment takes the other vector's state, and the other takes this one's unless they are the same object |
| Vectors.Vector.CopyAssign | Data_Structures/Vector/Vector.hpp:475-481 | copy assignment ends in the capacity and elements that CopyAssignResult describes, so this vector holds exactly the source's elements |
| Vectors.Vector.AssignList | Data_Structures/Vector/Vector.hpp:501-509 | list assignment leaves exactly the list as elements and never shrinks the capacity |
| Vectors.Equal | Data_Structures/Vector/Vector.hpp:795-806 | operator== holds exactly when the two live ranges are equal sequences |
| Lifetimes.ReplayAppend | Data_Structures/Vector/Vector.hpp:252-258 | replaying two event runs one after the other is replaying their concatenation |
| Lifetimes.ShiftRightMovesHole | Data_Structures/Vector/Vector.hpp:224-231 | the non-trivial right shift moves the single raw slot from the top down to index, and every construct and destroy is legal |
| Lifetimes.InsertAsWrittenDestroysTwice | Data_Structures/Vector/Vector.hpp:252-258 | insert as written destroys the already-raw slot index, for every non-empty vector |
| Lifetimes.InsertLifetimes | Data_Structures/Vector/Vector.hpp:252-258 | without the extra destroy, insert makes only legal events and leaves the first count + 1 slots live |
| Lifetimes.ShiftLeftKeepsLive | Data_Structures/Vector/Vector.hpp:198-203 | each step of the non-trivial left shift destroys a live slot and reconstructs it, so liveness is unchanged |
| Lifetimes.EraseLifetimes | Data_Structures/Vector/Vector.hpp:198-205 | erase makes only legal events and leaves the first count - 1 slots live |
| FixedArrays.MarkOccupiedOverflows | Data_Structures/Array/Array.hpp:180-186 | setting occupancy flags up to a length beyond the flag map writes outside it |
| FixedArrays.MarkOccupiedFits | Data_Structures/Array/Array.hpp:180-186 | setting flags up to a length within the map sets exactly the flags below it and keeps the others |
| FixedArrays.ListConstructorAsWrittenOverflows | Data_Structures/Array/Array.hpp:180-186 | the list constructor writes past valid[N] for a list longer than N |
| FixedArrays.ListConstructorMarksPrefix | Data_Structures/Array/Array.hpp:180-186 | for a list of at most N items, exactly the first len flags end up set |
| FixedArrays.FixedArray.Size | Data_Structures/Array/Array.hpp:313 | size() is the number of slots in the buffer |
| FixedArrays.FixedArray.constructor | Data_Structures/Array/Array.hpp:147 | array() has size N and no occupied slot |
| FixedArrays.FixedArray.FromList | Data_Structures/Array/Array.hpp:180-186 | the list constructor has size len, slot i holds list[i], and exactly the first len slots are occupied |
| FixedArrays.FixedArray.Copy | Data_Structures/Array/Array.hpp:154-166 | the copy constructor has size N, copies every slot of the source's buffer, and marks exactly those slots occupied |
| FixedArrays.FixedArray.Moved | Data_Structures/Array/Array.hpp:172-174 | the move constructor takes the source's buffer and size through the swap of lines 353-356, with every slot of its own flags free; the source keeps its flags over an empty buffer of size 0 |
| FixedArrays.FixedArray.InternalCopyInsert | Data_Structures/Array/Array.hpp:78-141 | slot index becomes x and occupied; no other slot or flag changes |
| FixedArrays.FixedArray.Insert | Data_Structures/Array/Array.hpp:332-347 | insert fails exactly when i >= size; otherwise slot i becomes x and occupied and nothing else changes |
| FixedArrays.FixedArray.At | Data_Structures/Array/Array.hpp:264-268 | at(i) fails exactly when i >= size; otherwise it returns slot i |
| FixedArrays.FixedArray.Clear | Data_Structures/Array/Array.hpp:43-53 | clear frees every flag for a non-trivially-destructible T and changes nothing otherwise |
| FixedArrays.FixedArray.InternalCopyAssign | Data_Structures/Array/Array.hpp:59-67 | internalCopyAssign copies exactly the source's occupied slots and marks them occupied; other slots keep their values |
| FixedArrays.FixedArray.CopyAssign | Data_Structures/Array/Array.hpp:204-210 | copy assignment is internalCopyAssign, skipped on self-assignment |
| FixedArrays.FixedArray.MoveAssign | Data_Structures/Array/Array.hpp:217-223 | move assignment exchanges buffer and size with the other array unless they are the same object; each array keeps its own occupancy flags |
| FixedArrays.FixedArray.AssignList | Data_Structures/Array/Array.hpp:230-244 | list assignment fails with out_of_range when the list is longer than size; otherwise slots 0..len-1 hold the list, occupied, and later slots are unchanged |
| FixedArrays.FixedArray.Swap | Data_Structures/Array/Array.hpp:353-356 | the corrected swap exchanges buffer, size and occupancy |
| FixedArrays.FixedArray.SwapAsWritten | Data_Structures/Array/Array.hpp:353-356 | swap as written exchanges buffer and size only, and each array keeps its own flags |
| FixedArrays.Equal | Data_Structures/Array/Array.hpp:379-390 | operator== reads past the other buffer exactly when the other array is smaller; otherwise it holds exactly when the first size() slots of both buffers are equal |
| FixedArrays.EqualSized | Data_Structures/Array/Array.hpp:379-381 | operator== with the sizes compared first holds exactly when both arrays hold the same slots |
| FixedArrays.EqualAsWrittenReadsPastEnd | Data_Structures/Array/Array.hpp:379-381 | comparing an array of 2 slots with one of 1 slot reads past the smaller buffer |
| FixedArrays.EqualSizedRejects | Data_Structures/Array/Array.hpp:379-381 | with the sizes compared first, the same two arrays are unequal |
| FixedArrays.SwapAsWrittenLosesOccupancy | Data_Structures/Array/Array.hpp:353-356 | after the swap as written, an array holds the value 7 in a slot its flags call free |
| FixedArrays.SwapKeepsOccupancy | Data_Structures/Array/Array.hpp:353-356 | after the corrected swap, the same slot holds 7 and is occupied |
| HeapOrder.ChildrenOf | Data_Structures/Heap/Heap.hpp:60 | the parent of i is p exactly when i is 2p + 1 or 2p + 2 |
| HeapOrder.LeftChild | Data_Structures/Heap/Heap.hpp:85 | 2c + 1 is odd and is a child of c |
| HeapOrder.Asymmetric | Data_Structures/Heap/Heap.hpp:21-23 | under a strict weak order, cond(a, b) excludes cond(b, a) |
| HeapOrder.Swapped | Data_Structures/Vector/Vector.hpp:710-715 | exchanging positions a and b moves each item to the other place and keeps every other position |
| HeapOrder.SwappedContents | Data_Structures/Vector/Vector.hpp:710-715 | exchanging two positions keeps the multiset of items |
| HeapOrder.LessIsStrictWeakOrder | Data_Structures/Heap/Heap.hpp:21-23 | the default comparator t1 < t2 is a strict weak order |
| HeapOrder.GreaterIsStrictWeakOrder | Data_Structures/Heap/Heap.hpp:10 | the OXF_MAX_HEAP comparator t1 > t2 is a strict weak order |
| HeapOrder.RootIsBest | Data_Structures/Heap/Heap.hpp:165-175 | in a heap-ordered sequence no item belongs above the root |
| HeapOrder.RootIsBestAll | Data_Structures/Heap/Heap.hpp:165-175 | in a heap-ordered sequence no item belongs above the root, for all items at once |
| HeapOrder.SiftUpStart | Data_Structures/Heap/Heap.hpp:202-206 | appending an item to a heap-ordered sequence breaks at most the edge from the new item to its parent |
| HeapOrder.SiftUpStep | Data_Structures/Heap/Heap.hpp:60-64 | swapping the climbing item with a parent it belongs above moves the one broken edge up to the parent position |
| HeapOrder.SiftUpDone | Data_Structures/Heap/Heap.hpp:60 | when the climbing item does not belong above its parent, the sequence is heap-ordered |
| HeapOrder.PopStart | Data_Structures/Heap/Heap.hpp:221-223 | moving the last item to the root and dropping the last slot removes exactly the old root and breaks only the edges below the root |
| HeapOrder.SiftDownStep | Data_Structures/Heap/Heap.hpp:83-85 | swapping the sinking item with its best child moves the broken edges down to that child |
| HeapOrder.SiftDownDone | Data_Structures/Heap/Heap.hpp:83-84 | when no child belongs above the sinking item, the sequence is heap-ordered |
| HeapOrder.BestChild | Data_Structures/Heap/Heap.hpp:46-48 | the chosen child is a child of p and its sibling does not belong above it |
| HeapOrder.SiftDownStopAtBest | Data_Structures/Heap/Heap.hpp:83-84 | when the best child does not belong above the sinking item, the sequence is heap-ordered |
| HeapOrder.SiftDownLastChild | Data_Structures/Heap/Heap.hpp:87 | with a single child, one compare-and-swap restores heap order |
| HeapOrder.SiftDownNoChild | Data_Structures/Heap/Heap.hpp:83-87 | an item with no children leaves the sequence heap-ordered |
| HeapOrder.SiftDownRound | Data_Structures/Heap/Heap.hpp:83-85 | one round of the sift-down loop either restores heap order or moves the broken edges down to the chosen child |
| HeapOrder.SiftDownFinish | Data_Structures/Heap/Heap.hpp:87 | after the loop, the final single-child compare-and-swap leaves the sequence heap-ordered |
| Heaps.PrefixContents | Data_Structures/Heap/Heap.hpp:120-124 | extending a list prefix by one item adds that item to its multiset |
| Heaps.Heap.constructor | Data_Structures/Heap/Heap.hpp:91 | heap() and heap(f) are empty, with a two-slot vector |
| Heaps.Heap.WithCapacity | Data_Structures/Heap/Heap.hpp:97-106 | heap(size) and heap(size, f) are empty, with max(2, size) slots |
| Heaps.Heap.FromList | Data_Structures/Heap/Heap.hpp:120-137 | the list constructor holds exactly the multiset of the list, in heap order |
| Heaps.Heap.InternalSwapOnDemand | Data_Structures/Heap/Heap.hpp:32-38 | the two items are swapped exactly when the first belongs above the second, the result says whether they were, and the multiset is kept |
| Heaps.Heap.InternalGetCorrectChild | Data_Structures/Heap/Heap.hpp:46-48 | the result is i1 when its item belongs above i2's and i2 otherwise; under a strict weak order neither item belongs above the chosen one |
| Heaps.Heap.InternalPush | Data_Structures/Heap/Heap.hpp:53-66 | the sift-up loop, with the parent as the next position, restores heap order and keeps the multiset |
| Heaps.Heap.InternalRemoveProcedure | Data_Structures/Heap/Heap.hpp:71-88 | the sift-down loop, descending to the chosen child, restores heap order and keeps the multiset |
| Heaps.Heap.SwapWithBestChild | Data_Structures/Heap/Heap.hpp:83-84 | the loop condition swaps the better child with its parent when it belongs above it; a swap moves the sinking position to that child, no swap leaves the heap ordered, and the multiset is kept |
| Heaps.Heap.CompareLastChild | Data_Structures/Heap/Heap.hpp:87 | the compare of a lone left child after the loop leaves the heap ordered however the loop ended, and keeps the multiset |
| Heaps.Heap.Push | Data_Structures/Heap/Heap.hpp:202-216 | push keeps heap order, grows the size by one, and adds exactly the item to the multiset |
| Heaps.Heap.Pop | Data_Structures/Heap/Heap.hpp:221-226 | pop fails on an empty heap and leaves it unchanged; otherwise it keeps heap order, shrinks the size by one, and removes exactly the old root from the multiset |
| Heaps.Heap.Peak | Data_Structures/Heap/Heap.hpp:169-175 | peak returns a stored item, and no stored item belongs above it |
| Heaps.Heap.Clear | Data_Structures/Heap/Heap.hpp:194-196 | clear empties the heap and keeps the vector's buffer |
| Heaps.Heap.Size | Data_Structures/Heap/Heap.hpp:182 | size() is the number of stored items, counted with multiplicity |
| Heaps.Heap.Empty | Data_Structures/Heap/Heap.hpp:180 | empty() holds exactly when no item is stored |
| Heaps.Heap.AssignList | Data_Structures/Heap/Heap.hpp:152-160 | list assignment leaves exactly the multiset of the list, in heap order |
| HeapAsWritten.CompareIndexIsParent | Data_Structures/Heap/Heap.hpp:60 | the comparison index (pos >> 1) - (pos % 2 == 0) is the parent (pos - 1) / 2 for every pos >= 1 |
| HeapAsWritten.CompareIndexValues | Data_Structures/Heap/Heap.hpp:60 | the comparison index of 1 is 0 and that of 5 is 2 |
| HeapAsWritten.NextPosIsNotParent | Data_Structures/Heap/Heap.hpp:61-64 | the position update after a swap is not the parent: 1 wraps to SIZE_MAX, 2 goes to 1 and 5 goes to 1 |
| HeapAsWritten.SiftUp | Data_Structures/Heap/Heap.hpp:53-66 | the sift-up loop as written, which reads outside the sequence or ends with the items exchanged only among themselves |
| HeapAsWritten.PushAsWritten | Data_Structures/Heap/Heap.hpp:202-206 | push as written, when it stays inside the sequence, adds exactly the item to the multiset |
| HeapAsWritten.LastCompare | Data_Structures/Heap/Heap.hpp:87 | the closing single-child compare keeps the length |
| HeapAsWritten.LastCompareContents | Data_Structures/Heap/Heap.hpp:87 | the closing single-child compare only exchanges items |
| HeapAsWritten.SiftDown | Data_Structures/Heap/Heap.hpp:71-88 | the sift-down loop as written keeps the length |
| HeapAsWritten.SiftDownContents | Data_Structures/Heap/Heap.hpp:71-88 | the sift-down loop as written only exchanges items |
| HeapAsWritten.PopAsWritten | Data_Structures/Heap/Heap.hpp:221-226 | pop as written removes one item |
| HeapAsWritten.PopAsWrittenContents | Data_Structures/Heap/Heap.hpp:221-226 | pop as written removes exactly the old root from the multiset, so its defect is one of order only |
| HeapAsWritten.PushReadsPastEnd | Data_Structures/Heap/Heap.hpp:53-66 | with the default comparator, pushing 5 and then 3 compares at index SIZE_MAX |
| HeapAsWritten.SmallMinHeap | Data_Structures/Heap/Heap.hpp:21-23 | [2, 3, 4, 5, 6] is heap-ordered under the default comparator |
| HeapAsWritten.PushLeavesDisorder | Data_Structures/Heap/Heap.hpp:53-66 | push as written of 1 onto the heap [2, 3, 4, 5, 6] gives [2, 3, 1, 5, 6, 4], which is not heap-ordered |
| HeapAsWritten.SixMinHeap | Data_Structures/Heap/Heap.hpp:21-23 | [1, 2, 5, 4, 3, 6] is heap-ordered under the default comparator |
| HeapAsWritten.PopLeavesDisorder | Data_Structures/Heap/Heap.hpp:71-88 | pop as written on the heap [1, 2, 5, 4, 3, 6] gives [2, 4, 5, 6, 3], which is not heap-ordered |
| DisjointSets.MaxChildrenBound | Data_Structures/Disjoint_Set/Disjoint_Set.hpp:15 | every children count is at most the largest one |
| DisjointSets.RootOf | Data_Structures/Disjoint_Set/Disjoint_Set.hpp:47-51 | following parent links from any item reaches a base item inside the buffer |
| DisjointSets.FirstMatch | Data_Structures/Disjoint_Set/Disjoint_Set.hpp:39-44 | the result is absent exactly when no item holds v; otherwise it is an item holding v, and no earlier item holds v |
| DisjointSets.Lookup | Data_Structures/Disjoint_Set/Disjoint_Set.hpp:36-54 | the result is null exactly when no item holds v; otherwise it is a base item |
| DisjointSets.SizeDiff | Data_Structures/Disjoint_Set/Disjoint_Set.hpp:61 | the size_t difference of two counts is their difference when the first is larger, and wraps around to 2^64 minus the gap otherwise |
| DisjointSets.WeightedWinner | Data_Structures/Disjoint_Set/Disjoint_Set.hpp:63-73 | the first root stays the base exactly when it has at least as many children as the second |
| DisjointSets.FirstAlwaysWins | Data_Structures/Disjoint_Set/Disjoint_Set.hpp:61-63 | as written the test diff < 0 never holds, so the first root wins for every pair of counts |
| DisjointSets.AsWrittenIgnoresWeight | Data_Structures/Disjoint_Set/Disjoint_Set.hpp:61-73 | with 0 children against 3, the first root wins as written and the second with the weighted choice |
| DisjointSets.UnionAsWritten | Data_Structures/Disjoint_Set/Disjoint_Set.hpp:60-73 | to_union as written changes only the two roots, and when they differ the second always stops being a base |
| DisjointSets.Union | Data_Structures/Disjoint_Set/Disjoint_Set.hpp:60-73 | the weighted to_union changes only the two roots; when they differ the one with fewer children stops being a base, the second on a tie |
| DisjointSets.LinkKeepsLinked | Data_Structures/Disjoint_Set/Disjoint_Set.hpp:64-72 | linking one base below another keeps every parent link well formed, hence acyclic |
| DisjointSets.LinkRoots | Data_Structures/Disjoint_Set/Disjoint_Set.hpp:64-72 | after linking l below w, every item whose base was l has base w, and every other item keeps its base |
| DisjointSets.UnionByMerges | Data_Structures/Disjoint_Set/Disjoint_Set.hpp:56-75 | after a union, two items are in the same set exactly when they were before or one was in each of the two merged sets; whichever root wins, the links stay well formed |
| DisjointSets.UnionLinksLighter | Data_Structures/Disjoint_Set/Disjoint_Set.hpp:60-73 | with the weighted choice, the root with fewer children is linked below the other, the winner counts it and its children, nothing else changes, and the winner had at least as many children |
| DisjointSets.UnionAsWrittenLinksSecond | Data_Structures/Disjoint_Set/Disjoint_Set.hpp:60-73 | as written, the second root becomes a non-base pointing to the first, the first counts it and its children, and nothing else changes |
| DisjointSets.UnionAsWrittenIgnoresWeight | Data_Structures/Disjoint_Set/Disjoint_Set.hpp:60-73 | as written, a base with 0 children stays the base over one with 3 |
| DisjointSets.DisjointSet.constructor | Data_Structures/Disjoint_Set/Disjoint_Set.hpp:24-30 | the list constructor has size len and item i is {list[i], i, 0, true} |
| DisjointSets.DisjointSet.Find | Data_Structures/Disjoint_Set/Disjoint_Set.hpp:36-54 | find returns null exactly when no item holds v, and otherwise the base reached from the first item holding v |
| DisjointSets.DisjointSet.ToUnion | Data_Structures/Disjoint_Set/Disjoint_Set.hpp:56-75 | both values must be present; when they share a base nothing changes; otherwise the lighter base is linked below the heavier, and the links stay well formed |
| DisjointSets.DisjointSet.Size | Data_Structures/Disjoint_Set/Disjoint_Set.hpp:79 | size() is the number of items in the buffer |

## Left out

- Raw allocation, placement new and explicit destructor calls are not modelled as memory. A vector slot or array slot simply holds a value. The double destroy on the vector's insert path is exposed through the event model in `Lifetimes`.
- The `enable_if` dispatch on trivially-destructible and nothrow-movable types is not modelled. Both branches produce the same element values. The array's `Clear` keeps the distinction through `trivialDtor`, because there it decides whether the occupancy flags change.
- Exception-safety `try`/`catch` blocks that destroy and rethrow in the copy constructors are not modelled, and neither is the explicit `data.~vector()` call in the heap's destructor. That call destroys the vector once, and the implicit destruction of the member `data` after the destructor body destroys it a second time. Ending an object's lifetime twice is undefined behaviour in C++; in practice the second run frees nothing, because the vector's destructor (Vector.hpp:462-468) sets `buffer` to null after freeing it. Element copies cannot fail in the model.
- Destructors are not modelled. They release memory, which the model does not have.
- Vectors.GrownCapacity: the `1.6` floating-point multiply is modelled as the integer `cap * 8 / 5`. The two can differ by rounding for very large capacities.
- Vectors.Vector.PushBack: the capacity is unbounded; size_t overflow of the capacity or the count is not modelled.
- `memcmp` byte equality in the two `operator==` and in `find` is modelled as equality on `T`. For padded or indirect types the two differ.
- Iterators, reverse iterators, `data()` and `front`/`back` return addresses and are not modelled. `maxCapacity()` of the vector and of the heap returns the constant SIZE_MAX (`SizeMax`), and the heap's `capacity()` forwards to `data.Capacity()`; neither is a separate member.
- `operator!=` is the negation of `operator==` and is not a separate member.
- The debug `std::cout`/`typeid` prints in the array's move insert are I/O and are not modelled.
- `disjoint_set::operator=` is ill-formed: it applies `free` to an item and returns nothing. It is not modelled.
- `disjoint_set::data()` returns the raw buffer and is not modelled. The model exposes `items` directly.
- DisjointSets.DisjointSet.ToUnion: requires both values to be present. The source dereferences a null `find` result otherwise, which is undefined behaviour.
- DisjointSets.DisjointSet.ToUnion: size_t overflow of the `children` counts is not modelled.
- FixedArrays.FixedArray.FromList: requires a list of at most N items. For a longer list the source writes past `valid[N]`, as `ListConstructorAsWrittenOverflows` shows.
- FixedArrays.FixedArray.InternalCopyAssign: requires every occupied slot of the source to lie inside this buffer. The source writes there without a check.
- FixedArrays.FixedArray.CopyAssign: carries the same requirement as InternalCopyAssign, that every occupied slot of the source lies inside this buffer. A smaller target buffer, left by the list constructor or a move, is written past in the source; the model does not describe that write.
- Vectors.Vector.CopyAssign: models only the nothrow-destructible path with the corrected reuse test. The other path copies and swaps, and ends in the same elements.
- Heaps.Heap.constructor: requires the comparator to be a strict weak order. The source accepts any function but relies on that to order the heap.
- Heaps.Heap.Peak: requires a non-empty heap. The source reads `data[0]` without a check.
- Vectors.Vector.PopBack: requires a non-empty vector. The source decrements the count without a check.
- Heaps.Heap.InternalPush: uses the parent (i - 1) / 2 as the next position. The source's own update is modelled in `HeapAsWritten`.
- Heaps.Heap.InternalRemoveProcedure: descends to 2 * child + 1. The source's own update is modelled in `HeapAsWritten`.
- DisjointSets.DisjointSet.ToUnion: links the lighter base below the heavier one. The source's own rule is modelled by `UnionAsWritten`.
- The testing driver, the test object and the array tests are not part of this model.

## Findings

| source | as written | input that shows it | evidently intended | confidence | as-written member | corrected member |
|---|---|---|---|---|---|---|
| Data_Structures/Vector/Vector.hpp:176 | the buffer is reused when `bufferSize <= vec.itemCounter` | copy-assign a vector of 3 elements into one with capacity 2: the pushes write past the buffer | reuse the buffer only when `vec.itemCounter <= bufferSize` | high (proved on the model; not executed) | Vectors.CopyAssignAsWrittenOverflows | Vectors.CopyAssignCopies |
| Data_Structures/Vector/Vector.hpp:229, 255 | the non-trivial right shift destroys slot index, and insert destroys it again before constructing | insert into any non-empty vector of a type with a non-trivial destructor | construct into the slot the shift left raw, without a second destroy | high (proved on the model; not executed) | Lifetimes.InsertAsWrittenDestroysTwice | Lifetimes.InsertLifetimes |
| Data_Structures/Array/Array.hpp:180-186 | the list constructor sizes the buffer by the list but marks `valid[i]` for every item | `array<int, 1>{1, 2}` writes `valid[1]` | accept at most N items | high (proved on the model; not executed) | FixedArrays.ListConstructorAsWrittenOverflows | FixedArrays.ListConstructorMarksPrefix |
| Data_Structures/Array/Array.hpp:353-356 | swap exchanges buffer and size but not `valid`; the move constructor and move assignment swap the same way | swap a fresh `array<int, 1>` with `{7}`: the first holds 7 in a slot marked free | exchange the occupancy flags too | high (proved on the model; not executed) | FixedArrays.SwapAsWrittenLosesOccupancy | FixedArrays.SwapKeepsOccupancy |
| Data_Structures/Heap/Heap.hpp:61-64 | after a swap, `pos >>= 1` and then decrement when even | with `<`, pushing 1 onto [2, 3, 4, 5, 6] gives [2, 3, 1, 5, 6, 4]; pushing 5 then 3 compares at SIZE_MAX | move to the parent (pos - 1) / 2 | high (proved on the model; not executed) | HeapAsWritten.PushLeavesDisorder | Heaps.Heap.Push |
| Data_Structures/Heap/Heap.hpp:85 | the descent goes to `2 * pos + (pos + 1 == child)` | with `<`, popping [1, 2, 5, 4, 3, 6] gives [2, 4, 5, 6, 3] | descend to the left child of the chosen child, 2 * child + 1 | high (proved on the model; not executed) | HeapAsWritten.PopLeavesDisorder | Heaps.Heap.Pop |
| Data_Structures/Disjoint_Set/Disjoint_Set.hpp:61-63 | `size_t diff` is tested for `< 0`, which never holds | a union of a base with 0 children and one with 3 keeps the lighter one as base | the base with more children stays the base | high (proved on the model; not executed) | DisjointSets.UnionAsWrittenIgnoresWeight | DisjointSets.UnionLinksLighter |
| Data_Structures/Array/Array.hpp:380 | memcmp runs over this array's size() slots of both buffers without comparing sizes | compare an array built from {1, 2} with one built from {1}: the read passes the end of the second buffer | compare the sizes first, as the vector's operator== does | high (proved on the model; not executed) | FixedArrays.EqualAsWrittenReadsPastEnd | FixedArrays.EqualSized |
