# Javolution real-time collections, modelled in Dafny

This project models the sequential core of Javolution's real-time collections and proves properties of the model. It covers:

- **FastMap**: a hash map with linear probing over power-of-two slot tables.
  - A removed entry leaves a tombstone in its slot.
  - Live entries sit on one doubly-linked chain between a head and a tail sentinel, in insertion order. Spare entries are pooled after the tail.
  - A table that fills up is cleaned, doubled, or split into 64 sub-maps. Each sub-map is routed by the next 6-bit slice of the hash.
- **FastTable**: a two-level block array.
  - The low block holds up to 1024 elements; `_high` holds 1024-element blocks.
  - It supports positional insertion and removal by shifting, range removal, and an in-place quicksort.
- **FastSequence**: a doubly-linked list between head and tail sentinels. Free nodes are recycled on a chain after the tail.
- **FastBitSet**: a `long[]` bit set with a logical word length. It supports single-bit and range updates, set algebra, searches, and rank/select.
- **FastComparator**: the hashing, equality and ordering strategies.
- **CopyOnWriteArrayList**: a list whose every mutator installs a fresh array. Its iterators and sub lists are included.
- **Unmodifiable views**: `UnmodifiableCollectionImpl`, `FastUnmodifiableCollection` and `FastMap.Unmodifiable`.
- **Allocator**: the LIFO recycle queue of the allocation contexts.

Where the source works in place, the model is imperative Dafny:

- Classes have the source's fields. Arrays model the source's arrays, or `seq` fields where the source keeps linked records.
- Each method is proved against a reference definition.
  - Lists are proved against `ListSpec`: `InsertAt`, `RemoveSlice`, `IndexOf` and the like over `seq`.
  - Maps are proved against `MapSpec`: an association list of entries in insertion order, with `Put`, `Remove`, `Get` and `PutAll`.
  - Bit sets are proved against `BitWords.In`: bit `b` of a `long[]` word sequence.
- Lemmas state what the source promises of those definitions.

Java exceptions are modelled as `Result<T> = Ok(value) | Throw(ex)`. A method that throws leaves its object unchanged, unless noted otherwise.

Files:

| file | contents |
|---|---|
| `java_lang.dfy` | exceptions, 32-bit wrap-around, `System.arraycopy` |
| `list_spec.dfy` | reference list operations |
| `allocator.dfy` | `Allocator` |
| `comparators.dfy` | `FastComparator` |
| `unmodifiable.dfy` | the two unmodifiable collection views |
| `cow_list.dfy` | `CopyOnWriteArrayList` |
| `fast_table.dfy` | `FastTable` |
| `node_chains.dfy` | the next/prev link arena shared by FastSequence and the FastMap entry pool |
| `fast_sequence.dfy` | `FastSequence` |
| `bit_words.dfy` | word-level bit lemmas |
| `fast_bitset.dfy` | `FastBitSet` |
| `map_spec.dfy` | the reference map |
| `hash_slots.dfy` | probing a single slot table |
| `sub_maps.dfy` | the tree of sub-map tables and routing |
| `map_store.dfy` | the entry arena plus tables, with its invariant and transitions |
| `map_resize.dfy` | `resizeTable`, `newSubMaps`, `mapEntry`, `copyEntries` |
| `fast_map.dfy` | the `FastMap` class, its iterators and its unmodifiable view |

Inputs the model cannot see become parameters:

- the keys' `hashCode` is `hash: K -> int`;
- `allocate()` is the object it would return;
- `Text.hashCode` is `textHash`;
- `System.identityHashCode` is `identityHash`;
- the rehash flag is a boolean.

Keys are compared with `==`.

## Model

| member | source | states |
|---|---|---|
| ContextAllocator.Allocator.constructor | src/javolution/context/Allocator.java:35-43 | a new allocator has a 16-cell queue of nulls and `queueSize == 0` |
| ContextAllocator.Allocator.Next | src/javolution/context/Allocator.java:50-52 | with objects queued, it returns `queue[queueSize-1]`, pops it, and keeps the rest. With none queued, it returns the object `allocate()` gives and changes nothing. `0 <= queueSize <= queue.length` is kept |
| ContextAllocator.Allocator.Resize | src/javolution/context/Allocator.java:70-74 | the new queue is twice as long, holds every old slot at the same index and null in every new slot, and has the same queued objects |
| Comparators.NullSafeEqualsMeaning | src/javolution/util/internal/FastComparator.java:65-67 | DEFAULT/DIRECT/REHASH `areEqual`: true iff both are null, or neither is and `equals` holds (reference equality implies `equals`) |
| Comparators.HashConsistentWithEquals | src/javolution/util/internal/FastComparator.java:58-147 | DEFAULT, DIRECT and REHASH give objects they consider equal the same hash code. Null hashes to 0 |
| Comparators.StringHashCodeOf | src/javolution/util/internal/FastComparator.java:157-166 | the STRING hash of null and of the empty string is 0 |
| Comparators.StringHashSamplesOnly | src/javolution/util/internal/FastComparator.java:157-166 | the STRING hash reads only the characters at `0`, `n-1`, `n/2`, `n/4` and `n-1-n/4` |
| Comparators.StringCompare | src/javolution/util/internal/FastComparator.java:172-174 | STRING `compare` throws NullPointerException on null and is 0 exactly for equal strings |
| Comparators.PolyHashIsPolynomial | src/javolution/util/internal/FastComparator.java:231-243 | the `h = 31*h + c` accumulation on Java ints equals Σ `s[i]·31^(n-1-i)` mod 2^32 |
| Comparators.LexicalHashCodeOf | src/javolution/util/internal/FastComparator.java:231-243 | LEXICAL `hashCodeOf`: 0 for null, `Text.hashCode` for a Text, String's hash for a String, and otherwise the loop's value, which is the polynomial mod 2^32 |
| Comparators.SameChars | src/javolution/util/internal/FastComparator.java:272-283 | the length test and character loop return true iff the two sequences are equal |
| Comparators.LexicalAreEqual | src/javolution/util/internal/FastComparator.java:245-284 | LEXICAL `areEqual` is true iff both are null, or both are non-null with the same characters, for every String/CharSequence mix |
| Comparators.LexicalHashConsistent | src/javolution/util/internal/FastComparator.java:224-243 | when Text hashes with String's polynomial, LEXICAL-equal sequences get equal LEXICAL hashes |
| Comparators.CompareAntisymmetric | src/javolution/util/internal/FastComparator.java:286-315 | the lexical comparison of `t` with `s` is minus that of `s` with `t` |
| Comparators.CompareZeroIffEqual | src/javolution/util/internal/FastComparator.java:286-315 | the lexical comparison is 0 iff the sequences are equal |
| Comparators.CompareTransitive | src/javolution/util/internal/FastComparator.java:286-315 | the lexical order is transitive |
| Comparators.CompareLoop | src/javolution/util/internal/FastComparator.java:305-314 | the loop returns the difference of the first differing characters, or else the length difference |
| Comparators.LexicalCompare | src/javolution/util/internal/FastComparator.java:286-315 | LEXICAL `compare` throws on null. Otherwise it is the lexical comparison, also when only the right operand is a String and the code returns `-compare(right, left)` |
| UnmodifiableViews.Mutate | src/javolution/util/internal/collection/UnmodifiableCollectionImpl.java:26-44 | every mutator throws UnsupportedOperationException and the wrapped list keeps its elements |
| UnmodifiableViews.MutatorsChangeNothing | src/main/java/_templates/javolution/util/internal/collection/FastUnmodifiableCollection.java:25-39 | after any series of mutator calls, each has thrown UnsupportedOperationException and the view is the same, here for the template twin FastUnmodifiableCollection; UnmodifiableCollectionImpl has the same shape |
| UnmodifiableViews.Contains | src/javolution/util/internal/collection/UnmodifiableCollectionImpl.java:46-48 | true iff the wrapped list holds the element |
| UnmodifiableViews.ContainsAll | src/javolution/util/internal/collection/UnmodifiableCollectionImpl.java:50-52 | true iff every element of `c` is in the wrapped list |
| UnmodifiableViews.Get | src/javolution/util/internal/collection/UnmodifiableCollectionImpl.java:58-60 | the wrapped list's element, or IndexOutOfBoundsException outside `[0, size)` |
| UnmodifiableViews.Head | src/javolution/util/internal/collection/UnmodifiableCollectionImpl.java:62-64 | the record just before the first element |
| UnmodifiableViews.Tail | src/javolution/util/internal/collection/UnmodifiableCollectionImpl.java:132-134 | the record just after the last element |
| UnmodifiableViews.IndexOf | src/javolution/util/internal/collection/UnmodifiableCollectionImpl.java:66-68 | the first index of the element, or negative iff absent |
| UnmodifiableViews.LastIndexOf | src/javolution/util/internal/collection/UnmodifiableCollectionImpl.java:89-91 | the last index of the element, or negative iff absent |
| UnmodifiableViews.IsEmpty | src/javolution/util/internal/collection/UnmodifiableCollectionImpl.java:70-72 | true iff the size is 0 |
| UnmodifiableViews.Size | src/javolution/util/internal/collection/UnmodifiableCollectionImpl.java:124-126 | the wrapped list's length |
| UnmodifiableViews.ToArray | src/javolution/util/internal/collection/UnmodifiableCollectionImpl.java:136-142 | an array whose cells are the wrapped list's elements in order |
| UnmodifiableViews.ValueOf | src/javolution/util/internal/collection/UnmodifiableCollectionImpl.java:144-146 | the element at a record strictly between `head()` and `tail()` |
| UnmodifiableViews.ListIterator | src/javolution/util/internal/collection/UnmodifiableCollectionImpl.java:93-99 | both `listIterator` forms throw UnsupportedOperationException |
| UnmodifiableViews.SubList | src/javolution/util/internal/collection/UnmodifiableCollectionImpl.java:128-130 | `subList` throws UnsupportedOperationException |
| UnmodifiableViews.Iterator | src/javolution/util/internal/collection/UnmodifiableCollectionImpl.java:74-76 | the iterator starts at the first element of the wrapped list |
| UnmodifiableViews.Next | src/javolution/util/internal/collection/UnmodifiableCollectionImpl.java:80-82 | `next()` returns the next element and advances, or throws NoSuchElementException past the end |
| UnmodifiableViews.IterRemove | src/javolution/util/internal/collection/UnmodifiableCollectionImpl.java:83-85 | the iterator's `remove()` throws UnsupportedOperationException |
| UnmodifiableViews.DrainFrom | src/javolution/util/internal/collection/UnmodifiableCollectionImpl.java:77-82 | calling `next()` while `hasNext()` yields exactly the elements after the cursor |
| UnmodifiableViews.ReadsAreTheWrappedList | src/main/java/_templates/javolution/util/internal/collection/FastUnmodifiableCollection.java:40-60 | every read is the wrapped list's answer: contains, containsAll, get, indexOf, lastIndexOf, isEmpty, size, toArray and valueOf, here for the template twin FastUnmodifiableCollection; UnmodifiableCollectionImpl has the same shape |
| UnmodifiableViews.IteratorYieldsWrappedList | src/main/java/_templates/javolution/util/internal/collection/FastUnmodifiableCollection.java:61-74 | the view's iterator yields the wrapped list's elements in order, here for the template twin FastUnmodifiableCollection; UnmodifiableCollectionImpl has the same shape |
| CopyOnWrite.RangeCheck | src/main/java/_templates/javolution/util/concurrent/CopyOnWriteArrayList.java:702-705 | passes iff `0 <= index < length`, otherwise IndexOutOfBoundsException |
| CopyOnWrite.CopyOnWriteArrayList.constructor | src/main/java/_templates/javolution/util/concurrent/CopyOnWriteArrayList.java:107-109 | a new list is empty |
| CopyOnWrite.CopyOnWriteArrayList.FromCollection | src/main/java/_templates/javolution/util/concurrent/CopyOnWriteArrayList.java:115-121 | the list holds the collection's elements in iteration order, in a fresh array |
| CopyOnWrite.CopyOnWriteArrayList.CopyIn | src/main/java/_templates/javolution/util/concurrent/CopyOnWriteArrayList.java:142-145 | a negative `n` throws NegativeArraySizeException. A range outside `toCopyIn` throws IndexOutOfBoundsException after the new array is installed. Otherwise the list is `toCopyIn[first..first+n]` |
| CopyOnWrite.CopyOnWriteArrayList.Size | src/main/java/_templates/javolution/util/concurrent/CopyOnWriteArrayList.java:151-153 | the number of elements |
| CopyOnWrite.CopyOnWriteArrayList.IsEmpty | src/main/java/_templates/javolution/util/concurrent/CopyOnWriteArrayList.java:160-162 | true iff there are no elements |
| CopyOnWrite.CopyOnWriteArrayList.Contains | src/main/java/_templates/javolution/util/concurrent/CopyOnWriteArrayList.java:168-172 | true iff the element occurs |
| CopyOnWrite.CopyOnWriteArrayList.IndexIn | src/main/java/_templates/javolution/util/concurrent/CopyOnWriteArrayList.java:191-205 | the first index among the first `len` cells holding the element (null matched by `==`), or -1 |
| CopyOnWrite.CopyOnWriteArrayList.IndexOf | src/main/java/_templates/javolution/util/concurrent/CopyOnWriteArrayList.java:182-186 | the first index of the element, or -1 |
| CopyOnWrite.CopyOnWriteArrayList.IndexOfFrom | src/main/java/_templates/javolution/util/concurrent/CopyOnWriteArrayList.java:219-235 | throws iff `index < 0`; otherwise the first match at or after `index`, or -1 when there is none |
| CopyOnWrite.CopyOnWriteArrayList.LastIndexIn | src/main/java/_templates/javolution/util/concurrent/CopyOnWriteArrayList.java:249-263 | the last index among the first `len` cells holding the element, or -1 |
| CopyOnWrite.CopyOnWriteArrayList.LastIndexOf | src/main/java/_templates/javolution/util/concurrent/CopyOnWriteArrayList.java:244-248 | the last index of the element, or -1 |
| CopyOnWrite.CopyOnWriteArrayList.LastIndexOfFrom | src/main/java/_templates/javolution/util/concurrent/CopyOnWriteArrayList.java:274-290 | throws iff `index >= size`; otherwise the last match at or before `index`, or -1 when there is none |
| CopyOnWrite.CopyOnWriteArrayList.Clone | src/main/java/_templates/javolution/util/concurrent/CopyOnWriteArrayList.java:297-309 | a new list over a fresh copy of the same elements |
| CopyOnWrite.CopyOnWriteArrayList.ToArray | src/main/java/_templates/javolution/util/concurrent/CopyOnWriteArrayList.java:314-319 | a fresh array holding the elements in order |
| CopyOnWrite.CopyOnWriteArrayList.Get | src/main/java/_templates/javolution/util/concurrent/CopyOnWriteArrayList.java:360-364 | the element at `index`, or IndexOutOfBoundsException outside `[0, size)` |
| CopyOnWrite.CopyOnWriteArrayList.Set | src/main/java/_templates/javolution/util/concurrent/CopyOnWriteArrayList.java:375-387 | returns the old element and replaces it. A fresh array is installed only when the element differs; the old array is never written. Out of range it throws and nothing changes |
| CopyOnWrite.CopyOnWriteArrayList.Add | src/main/java/_templates/javolution/util/concurrent/CopyOnWriteArrayList.java:394-401 | appends the element in a fresh array and returns true |
| CopyOnWrite.CopyOnWriteArrayList.AddAt | src/main/java/_templates/javolution/util/concurrent/CopyOnWriteArrayList.java:412-421 | inserts at `index` in a fresh array; throws iff `index < 0` or `index > size`, changing nothing |
| CopyOnWrite.CopyOnWriteArrayList.RemoveAt | src/main/java/_templates/javolution/util/concurrent/CopyOnWriteArrayList.java:431-443 | returns and deletes the element at `index` in a fresh array; throws iff out of `[0, size)`, changing nothing |
| CopyOnWrite.CopyOnWriteArrayList.RemoveValue | src/main/java/_templates/javolution/util/concurrent/CopyOnWriteArrayList.java:456-481 | true iff the element occurs. Then only its first occurrence is deleted, in a fresh array; otherwise the array is untouched |
| CopyOnWrite.CopyOnWriteArrayList.ShiftCopy | src/main/java/_templates/javolution/util/concurrent/CopyOnWriteArrayList.java:467-470 | the copy loop yields the old elements without the one at `i` |
| CopyOnWrite.CopyOnWriteArrayList.RemoveRange | src/main/java/_templates/javolution/util/concurrent/CopyOnWriteArrayList.java:495-505 | removes exactly `[from, to)`. It throws iff `from < 0`, `from >= size` (even when `from == to`), `to > size` or `to < from` |
| CopyOnWrite.CopyOnWriteArrayList.AddIfAbsent | src/main/java/_templates/javolution/util/concurrent/CopyOnWriteArrayList.java:513-526 | appends iff the element is absent, and says whether it did; otherwise the array is untouched |
| CopyOnWrite.CopyOnWriteArrayList.ContainsAll | src/main/java/_templates/javolution/util/concurrent/CopyOnWriteArrayList.java:537-545 | true iff every element of `c` occurs |
| CopyOnWrite.CopyOnWriteArrayList.GatherKept | src/main/java/_templates/javolution/util/concurrent/CopyOnWriteArrayList.java:554-575 | the scratch loop keeps exactly the elements whose membership in `c` is `keep`, in order |
| CopyOnWrite.CopyOnWriteArrayList.FilterBy | src/main/java/_templates/javolution/util/concurrent/CopyOnWriteArrayList.java:554-602 | the list becomes the kept elements in order. True iff something was dropped, and only then is a new array installed |
| CopyOnWrite.CopyOnWriteArrayList.RemoveAll | src/main/java/_templates/javolution/util/concurrent/CopyOnWriteArrayList.java:554-575 | drops exactly the elements in `c`. True iff one was there |
| CopyOnWrite.CopyOnWriteArrayList.RetainAll | src/main/java/_templates/javolution/util/concurrent/CopyOnWriteArrayList.java:583-602 | keeps exactly the elements in `c`. True iff another was there |
| CopyOnWrite.CopyOnWriteArrayList.GatherOne | src/main/java/_templates/javolution/util/concurrent/CopyOnWriteArrayList.java:619-625 | one loop round keeps the scratch array equal to the new elements of `c[..i+1]` |
| CopyOnWrite.CopyOnWriteArrayList.GatherAbsent | src/main/java/_templates/javolution/util/concurrent/CopyOnWriteArrayList.java:612-635 | the scratch array holds the elements of `c` in order that are neither in the list nor repeated earlier in `c` |
| CopyOnWrite.CopyOnWriteArrayList.AddAllAbsent | src/main/java/_templates/javolution/util/concurrent/CopyOnWriteArrayList.java:612-635 | appends those elements and returns how many there were. The array is replaced iff there was at least one |
| CopyOnWrite.CopyOnWriteArrayList.Clear | src/main/java/_templates/javolution/util/concurrent/CopyOnWriteArrayList.java:640-642 | the list is empty, in a fresh array |
| CopyOnWrite.CopyOnWriteArrayList.FillFrom | src/main/java/_templates/javolution/util/concurrent/CopyOnWriteArrayList.java:650-663 | the iterator loop stores `c` from `dst[at]` on, and nothing else |
| CopyOnWrite.CopyOnWriteArrayList.AddAll | src/main/java/_templates/javolution/util/concurrent/CopyOnWriteArrayList.java:650-663 | appends `c`. True iff `c` is non-empty; an empty `c` leaves the array untouched |
| CopyOnWrite.CopyOnWriteArrayList.AddAllAt | src/main/java/_templates/javolution/util/concurrent/CopyOnWriteArrayList.java:678-697 | inserts `c` at `index`. It throws iff `index < 0` or `index > size`, before looking at `c`. True iff `c` is non-empty |
| CopyOnWrite.CopyOnWriteArrayList.Iterator | src/main/java/_templates/javolution/util/concurrent/CopyOnWriteArrayList.java:819-821 | the iterator is over the current array, at 0 |
| CopyOnWrite.CopyOnWriteArrayList.ListIterator | src/main/java/_templates/javolution/util/concurrent/CopyOnWriteArrayList.java:849-855 | the iterator is over the current array at `index`; throws iff `index` is outside `[0, size]` |
| CopyOnWrite.CopyOnWriteArrayList.SubList | src/main/java/_templates/javolution/util/concurrent/CopyOnWriteArrayList.java:939-945 | a sub list over `[from, to)` recording the current array; throws iff not `0 <= from <= to <= size` |
| CopyOnWrite.COWIterator.constructor | src/main/java/_templates/javolution/util/concurrent/CopyOnWriteArrayList.java:863-866 | the iterator holds the snapshot array and the cursor |
| CopyOnWrite.COWIterator.HasNext | src/main/java/_templates/javolution/util/concurrent/CopyOnWriteArrayList.java:867-869 | true iff the cursor is before the snapshot's end |
| CopyOnWrite.COWIterator.HasPrevious | src/main/java/_templates/javolution/util/concurrent/CopyOnWriteArrayList.java:870-872 | true iff the cursor is past 0 |
| CopyOnWrite.COWIterator.Next | src/main/java/_templates/javolution/util/concurrent/CopyOnWriteArrayList.java:873-880 | returns the snapshot's element at the cursor and advances. Past the end it throws NoSuchElementException, having advanced the cursor as the code does |
| CopyOnWrite.COWIterator.Previous | src/main/java/_templates/javolution/util/concurrent/CopyOnWriteArrayList.java:881-888 | steps back and returns the snapshot's element there, or throws NoSuchElementException |
| CopyOnWrite.COWIterator.NextIndex | src/main/java/_templates/javolution/util/concurrent/CopyOnWriteArrayList.java:889-891 | the cursor |
| CopyOnWrite.COWIterator.PreviousIndex | src/main/java/_templates/javolution/util/concurrent/CopyOnWriteArrayList.java:892-894 | the cursor minus one |
| CopyOnWrite.COWIterator.Remove | src/main/java/_templates/javolution/util/concurrent/CopyOnWriteArrayList.java:900-902 | throws UnsupportedOperationException |
| CopyOnWrite.COWIterator.Set | src/main/java/_templates/javolution/util/concurrent/CopyOnWriteArrayList.java:908-910 | throws UnsupportedOperationException |
| CopyOnWrite.COWIterator.Add | src/main/java/_templates/javolution/util/concurrent/CopyOnWriteArrayList.java:916-918 | throws UnsupportedOperationException |
| CopyOnWrite.COWSubList.constructor | src/main/java/_templates/javolution/util/concurrent/CopyOnWriteArrayList.java:970-975 | records the list, its current array, the offset and the size |
| CopyOnWrite.COWSubList.CheckForComodification | src/main/java/_templates/javolution/util/concurrent/CopyOnWriteArrayList.java:977-980 | throws ConcurrentModificationException iff the list's array is not the recorded one |
| CopyOnWrite.COWSubList.SubRangeCheck | src/main/java/_templates/javolution/util/concurrent/CopyOnWriteArrayList.java:982-985 | passes iff `0 <= index < size` |
| CopyOnWrite.COWSubList.Set | src/main/java/_templates/javolution/util/concurrent/CopyOnWriteArrayList.java:986-994 | checks the index, then comodification. On success it returns the old element at `offset+index`, replaces it, and records the new array |
| CopyOnWrite.COWSubList.Get | src/main/java/_templates/javolution/util/concurrent/CopyOnWriteArrayList.java:995-1001 | checks the index, then comodification, then returns the element at `offset+index` |
| CopyOnWrite.COWSubList.Size | src/main/java/_templates/javolution/util/concurrent/CopyOnWriteArrayList.java:1002-1007 | the size, after the comodification check |
| CopyOnWrite.COWSubList.AddAt | src/main/java/_templates/javolution/util/concurrent/CopyOnWriteArrayList.java:1008-1017 | checks comodification, then `0 <= index <= size`. Then it inserts at `offset+index`, grows the size and records the new array |
| CopyOnWrite.COWSubList.RemoveAt | src/main/java/_templates/javolution/util/concurrent/CopyOnWriteArrayList.java:1018-1027 | checks the index, then comodification. Then it returns and deletes the element at `offset+index`, shrinks the size and records the new array |
| CopyOnWrite.COWSubList.Iterator | src/main/java/_templates/javolution/util/concurrent/CopyOnWriteArrayList.java:1028-1033 | after the comodification check, an iterator over the backing array at `offset` |
| CopyOnWrite.COWSubList.ListIterator | src/main/java/_templates/javolution/util/concurrent/CopyOnWriteArrayList.java:1034-1041 | after the comodification check, an iterator at `offset+index`; throws iff `index` is outside `[0, size]` |
| CopyOnWrite.COWSubListIterator.constructor | src/main/java/_templates/javolution/util/concurrent/CopyOnWriteArrayList.java:1044-1046 | records the sub list and the backing iterator |
| CopyOnWrite.COWSubListIterator.HasNext | src/main/java/_templates/javolution/util/concurrent/CopyOnWriteArrayList.java:1047-1049 | true iff the sub-list index is below the size |
| CopyOnWrite.COWSubListIterator.Next | src/main/java/_templates/javolution/util/concurrent/CopyOnWriteArrayList.java:1050-1054 | throws NoSuchElementException at the sub list's end; otherwise the backing iterator's `next()` |
| CopyOnWrite.COWSubListIterator.HasPrevious | src/main/java/_templates/javolution/util/concurrent/CopyOnWriteArrayList.java:1055-1057 | true iff the previous sub-list index is not negative |
| CopyOnWrite.COWSubListIterator.Previous | src/main/java/_templates/javolution/util/concurrent/CopyOnWriteArrayList.java:1058-1062 | throws NoSuchElementException at the sub list's start; otherwise the backing iterator's `previous()` |
| CopyOnWrite.COWSubListIterator.NextIndex | src/main/java/_templates/javolution/util/concurrent/CopyOnWriteArrayList.java:1063-1065 | the backing cursor minus the offset |
| CopyOnWrite.COWSubListIterator.PreviousIndex | src/main/java/_templates/javolution/util/concurrent/CopyOnWriteArrayList.java:1066-1068 | the backing cursor minus one minus the offset |
| CopyOnWrite.COWSubListIterator.Remove | src/main/java/_templates/javolution/util/concurrent/CopyOnWriteArrayList.java:1069-1071 | throws UnsupportedOperationException |
| CopyOnWrite.COWSubListIterator.Set | src/main/java/_templates/javolution/util/concurrent/CopyOnWriteArrayList.java:1072-1074 | throws UnsupportedOperationException |
| CopyOnWrite.COWSubListIterator.Add | src/main/java/_templates/javolution/util/concurrent/CopyOnWriteArrayList.java:1075-1077 | throws UnsupportedOperationException |
| CopyOnWrite.COWSubList.SubList | src/main/java/_templates/javolution/util/concurrent/CopyOnWriteArrayList.java:1079-1086 | the corrected `subList`, which also rejects `from > to`: a sub list over `[offset+from, offset+to)` whose elements are this sub list's `[from..to]` |
| CopyOnWrite.SubSubListSizeAsWritten | src/main/java/_templates/javolution/util/concurrent/CopyOnWriteArrayList.java:1079-1086 | as written, `subList` checks only `from >= 0` and `to <= size`, and the size is `to - from` |
| CopyOnWrite.SubSubListNegativeSize | src/main/java/_templates/javolution/util/concurrent/CopyOnWriteArrayList.java:1079-1086 | `subList(2, 1)` of a size-3 sub list yields a sub list of size -1 |
| CopyOnWrite.FilterDropsExactly | src/main/java/_templates/javolution/util/concurrent/CopyOnWriteArrayList.java:554-602 | the filter changes the list exactly when it holds an element to drop, which is when `removeAll`/`retainAll` return true |
| FastTables.FastTable.constructor | src/javolution/util/FastTable.java:124-129 | a new table is empty, with 16 slots, or with at least `capacity` slots reached by `increaseCapacity` |
| FastTables.FastTable.Create | src/javolution/util/FastTable.java:93-98 | `FastTable()`: empty, with one low block of 16 slots |
| FastTables.FastTable.CopyOf | src/javolution/util/FastTable.java:136-139 | `FastTable(values)` holds `values` in order, with room for all of them |
| FastTables.FastTable.Load | src/javolution/util/FastTable.java:276-280 | `_high[i >> 10][i & 1023]` reads slot `i`, with `_high[0]` being the low block |
| FastTables.FastTable.Store | src/javolution/util/FastTable.java:292-299 | writing `_high[i >> 10][i & 1023]` changes slot `i` and no other |
| FastTables.FastTable.IncreaseCapacity | src/javolution/util/FastTable.java:680-702 | below 1024 slots the capacity doubles, copying only the low block into a fresh one. Otherwise exactly one 1024-slot block is added and `_high` is kept. No element changes, and the new slots are null |
| FastTables.FastTable.GrowLow | src/javolution/util/FastTable.java:683-689 | the low-block branch: a fresh low block of twice the capacity, holding the old slots and nulls |
| FastTables.FastTable.AddBlock | src/javolution/util/FastTable.java:690-699 | the high-block branch: one more null block, the low block kept |
| FastTables.FastTable.GrowHigh | src/javolution/util/FastTable.java:692-696 | a full block table is doubled with the same blocks, so there is room for the next block |
| FastTables.FastTable.Size | src/javolution/util/FastTable.java:160-162 | the number of elements |
| FastTables.FastTable.IsEmpty | src/javolution/util/FastTable.java:165-167 | true iff there are no elements |
| FastTables.FastTable.Get | src/javolution/util/FastTable.java:276-280 | the element at `index`, or IndexOutOfBoundsException when `index >= size` or negative |
| FastTables.FastTable.Set | src/javolution/util/FastTable.java:292-299 | returns the old element and replaces it; out of range it throws and nothing changes |
| FastTables.FastTable.Add | src/javolution/util/FastTable.java:192-199 | appends the element and returns true. The capacity grows only when the table was full |
| FastTables.FastTable.AddLast | src/javolution/util/FastTable.java:518-520 | appends the element |
| FastTables.FastTable.ShiftRight | src/javolution/util/FastTable.java:1092-1100 | after making room, elements from `index` move up by `shift` and earlier ones stay put |
| FastTables.FastTable.ShiftLeft | src/javolution/util/FastTable.java:1102-1107 | elements from `index` move down by `shift` |
| FastTables.FastTable.AddAt | src/javolution/util/FastTable.java:315-321 | inserts at `index`; throws iff `index < 0` or `index > size`, changing nothing |
| FastTables.FastTable.AddAllAt | src/javolution/util/FastTable.java:245-256 | inserts `values` at `index` and returns whether any were given; throws iff `index` is outside `[0, size]` |
| FastTables.FastTable.AddAll | src/javolution/util/FastTable.java:224-226 | appends `values`; true iff `values` is non-empty |
| FastTables.FastTable.RemoveAt | src/javolution/util/FastTable.java:337-343 | returns and deletes the element at `index`. The vacated last slot is null. Out of range it throws and nothing changes |
| FastTables.FastTable.RemoveRange | src/javolution/util/FastTable.java:553-563 | deletes exactly `[from, to)`; throws on bad bounds, changing nothing |
| FastTables.FastTable.RemoveLast | src/javolution/util/FastTable.java:527-535 | on an empty table it throws NoSuchElementException; otherwise it returns and removes the last element |
| FastTables.FastTable.GetFirst | src/javolution/util/FastTable.java:497-501 | the first element, or NoSuchElementException when empty |
| FastTables.FastTable.GetLast | src/javolution/util/FastTable.java:508-512 | the last element, or NoSuchElementException when empty |
| FastTables.FastTable.Clear | src/javolution/util/FastTable.java:259-266 | the table is empty and every used slot is null |
| FastTables.FastTable.ClearSlots | src/javolution/util/FastTable.java:259-266 | nulls exactly the slots in `[from, to)` |
| FastTables.FastTable.Reset | src/javolution/util/FastTable.java:537-540 | the table is empty |
| FastTables.FastTable.IndexOf | src/javolution/util/FastTable.java:353-365 | the first index of an equal element, or -1 |
| FastTables.FastTable.LastIndexOf | src/javolution/util/FastTable.java:375-387 | the last index of an equal element, or -1 |
| FastTables.FastTable.Contains | src/javolution/util/FastTable.java:170-172 | true iff an equal element occurs |
| FastTables.FastTable.Remove | src/javolution/util/FastTable.java:202-209 | true iff the element occurs; then its first occurrence is deleted |
| FastTables.FastTable.SetSize | src/javolution/util/FastTable.java:483-490 | the table is padded with nulls or cut to `n` elements. A negative `n` empties the table and throws NoSuchElementException |
| FastTables.FastTable.TrimToSize | src/javolution/util/FastTable.java:568-573 | drops trailing blocks until at most 1024 slots are free; the elements stay |
| FastTables.FastTable.WriteObject | src/javolution/util/FastTable.java:661-668 | writes the elements in index order |
| FastTables.FastTable.ReadObject | src/javolution/util/FastTable.java:646-659 | the table rebuilt from the written sequence holds exactly those elements |
| FastTables.FastTable.Unmodifiable | src/javolution/util/FastTable.java:637-639 | a separate, fresh table with the same elements |
| FastTables.FastTable.Shared | src/javolution/util/FastTable.java:642-644 | a separate, fresh table with the same elements |
| FastTables.FastTable.UnmodifiableView | src/javolution/util/FastList.java:14-17 | the corrected `unmodifiable()`: the read-only view `FastList` returns, which reads the table's elements. After any series of mutator calls, each has thrown UnsupportedOperationException and the view still reads those elements |
| FastTables.ModifiableCopy | src/javolution/util/FastTable.java:637-639 | the table {1}, then `unmodifiable()` as written and `add(2)` on the result: the add succeeds, so the "unmodifiable" table reads [1, 2] while the table reads [1] |
| FastTables.FastTable.Sort | src/javolution/util/FastTable.java:581-586 | the elements end up a permutation of the old ones, ordered smallest first by the comparator |
| FastTables.FastTable.Quicksort | src/javolution/util/FastTable.java:590-597 | the slots in `[first, last]` become a sorted permutation of themselves |
| FastTables.FastTable.Partition | src/javolution/util/FastTable.java:598-618 | the slots in `[f, l]` are permuted around a pivot: none before it is greater, none after it smaller |
| FastTables.FastTable.PartitionRound | src/javolution/util/FastTable.java:602-614 | one round of the scanning loop keeps the permutation and the split around the pivot |
| FastTables.FastTable.ScanUp | src/javolution/util/FastTable.java:603-605 | the upward scan stops at the first element greater than the pivot, or at `l` |
| FastTables.FastTable.ScanDown | src/javolution/util/FastTable.java:606-608 | the downward scan stops at the first element not greater than the pivot |
| FastTables.FastTable.Swap | src/javolution/util/FastTable.java:609-613 | exchanges two slots |
| FastTables.FastTable.Iterator | src/javolution/util/FastTable.java:181-183 | an iterator over the whole table, before the first element |
| FastTables.FastTable.ListIterator | src/javolution/util/FastTable.java:413-417 | an iterator over the whole table at `index`; throws iff `index` is outside `[0, size]` |
| FastTables.FastTable.SubList | src/javolution/util/FastTable.java:450-455 | a view of `[from, to)`; throws iff not `0 <= from <= to <= size` |
| FastTables.SubTable.constructor | src/javolution/util/FastTable.java:930-936 | records the table, the offset and the size |
| FastTables.SubTable.Size | src/javolution/util/FastTable.java:938-940 | the recorded size |
| FastTables.SubTable.Get | src/javolution/util/FastTable.java:960-964 | throws outside `[0, size)`; otherwise the table's element at `offset+index` |
| FastTables.SubTable.Set | src/javolution/util/FastTable.java:965-969 | throws outside `[0, size)`; otherwise it replaces the table's element at `offset+index` and returns the old one |
| FastTables.SubTable.AddAt | src/javolution/util/FastTable.java:970-972 | throws UnsupportedOperationException |
| FastTables.SubTable.AddAllAt | src/javolution/util/FastTable.java:957-959 | throws UnsupportedOperationException |
| FastTables.SubTable.RemoveAt | src/javolution/util/FastTable.java:973-975 | throws UnsupportedOperationException |
| FastTables.SubTable.Delete | src/javolution/util/FastTable.java:954-956 | throws UnsupportedOperationException |
| FastTables.SubTable.IndexOf | src/javolution/util/FastTable.java:976-983 | the first index in the view of an equal element, or -1. When the view runs past a table that shrank, it throws where `get` fails |
| FastTables.SubTable.LastIndexOf | src/javolution/util/FastTable.java:984-991 | the last index in the view of an equal element, or -1. It throws at the first access when the view runs past the table |
| FastTables.SubTable.ListIterator | src/javolution/util/FastTable.java:995-999 | an iterator over `[offset, offset+size)` at `offset+index`; throws iff `index` is outside `[0, size]` |
| FastTables.SubTable.SubList | src/javolution/util/FastTable.java:1000-1005 | a view of `[offset+from, offset+to)`; throws iff not `0 <= from <= to <= size` |
| FastTables.FastTableIterator.constructor | src/javolution/util/FastTable.java:1031-1041 | records the table, its current low and high arrays, the bounds, and `currentIndex == -1` |
| FastTables.FastTableIterator.Read | src/javolution/util/FastTable.java:1045-1050 | reads through the arrays taken at creation. While they are the table's, this is the table's element |
| FastTables.FastTableIterator.HasNext | src/javolution/util/FastTable.java:1042-1044 | true iff the next index is not the end |
| FastTables.FastTableIterator.HasPrevious | src/javolution/util/FastTable.java:1054-1056 | true iff the next index is not the start |
| FastTables.FastTableIterator.NextIndex | src/javolution/util/FastTable.java:1051-1053 | the next index |
| FastTables.FastTableIterator.PreviousIndex | src/javolution/util/FastTable.java:1063-1065 | the next index minus one |
| FastTables.FastTableIterator.Next | src/javolution/util/FastTable.java:1045-1050 | at the end it throws NoSuchElementException and nothing changes. Otherwise it returns the element at the next index and advances |
| FastTables.FastTableIterator.Previous | src/javolution/util/FastTable.java:1057-1062 | at the start it throws NoSuchElementException. Otherwise it steps back and returns that element |
| FastTables.FastTableIterator.Set | src/javolution/util/FastTable.java:1071-1077 | replaces the element last returned; IllegalStateException when there is none |
| FastTables.FastTableIterator.Remove | src/javolution/util/FastTable.java:1078-1089 | deletes the element last returned, shrinks the end, and moves the next index back when it was after it; IllegalStateException when there is none |
| FastTables.FastTableIterator.Add | src/javolution/util/FastTable.java:1066-1070 | the corrected `add`: inserts at the next index, advances it and the end, and takes the table's arrays again |
| FastTables.FastTableIterator.AddAsWritten | src/javolution/util/FastTable.java:1066-1070 | `add` as written: the insertion happens, but the iterator keeps the low block it was created with even when the table has replaced it |
| FastTables.StaleLowBlock | src/javolution/util/FastTable.java:1045-1070 | with the table 1..16 (capacity 16), `add(100)` through a new iterator, then `next()`, returns 2 while the table holds 1 at that index |
| FastTables.FreshLowBlock | src/javolution/util/FastTable.java:1045-1070 | the same calls with the corrected `add` return 1 |
| FastSequences.Values | src/javolution/util/FastSequence.java:73-77 | the values of a list are those of the `n` nodes after the head, in chain order |
| FastSequences.InsertKeepsInv | src/javolution/util/FastSequence.java:552-570 | linking a free node holding `v` before chain position `k` keeps the list invariant, and the values become `v` inserted at `k-1` |
| FastSequences.SetKeepsInv | src/javolution/util/FastSequence.java:282-289 | writing a node's value keeps the invariant and replaces exactly that element |
| FastSequences.DeleteKeepsInv | src/javolution/util/FastSequence.java:452-467 | nulling and unlinking the node at chain position `k` keeps the invariant, and the values lose exactly the element at `k-1` |
| FastSequences.FastSequence.constructor | src/javolution/util/FastSequence.java:117-127 | a new list is empty, with its two sentinels and `capacity` free nodes chained after the tail (none for a negative capacity) |
| FastSequences.FastSequence.Create | src/javolution/util/FastSequence.java:89-91 | `FastSequence()`: empty, with 4 free nodes |
| FastSequences.FastSequence.CopyOf | src/javolution/util/FastSequence.java:134-137 | `FastSequence(values)` holds `values` in order |
| FastSequences.FastSequence.AppendNode | src/javolution/util/FastSequence.java:617-619 | a new node is chained after the last node of the chain; the elements are unchanged |
| FastSequences.FastSequence.IncreaseCapacity | src/javolution/util/FastSequence.java:644-661 | exactly four free nodes are chained after the tail; the elements and the chain up to there are unchanged |
| FastSequences.FastSequence.AddLast | src/javolution/util/FastSequence.java:505-512 | the value is appended. It is stored in the old tail node and the tail advances, so no link changes when a free node exists. Otherwise four nodes are added first |
| FastSequences.FastSequence.AddBefore | src/javolution/util/FastSequence.java:552-570 | inserts `v` immediately before the node at chain position `k`. The node comes from the free chain, which grows by four when empty. Nodes before `k` keep their positions and later ones move up one |
| FastSequences.FastSequence.InsertFree | src/javolution/util/FastSequence.java:556-569 | with a free node available, the insertion uses it and the chain length is unchanged |
| FastSequences.FastSequence.LinkBefore | src/javolution/util/FastSequence.java:556-569 | the first free node is relinked before position `k`; every other node keeps its order, and values are untouched |
| FastSequences.FastSequence.Delete | src/javolution/util/FastSequence.java:452-467 | removes the element at chain position `k`. Its node is nulled and relinked directly after the tail as the first free node |
| FastSequences.FastSequence.Unlink | src/javolution/util/FastSequence.java:455-466 | the node is unlinked from its place and relinked after the tail; all other nodes keep their order |
| FastSequences.FastSequence.NodeAt | src/javolution/util/FastSequence.java:578-585 | the node at chain position `index+1`: the head for -1, the i-th element node for `0 <= i < size`, the tail for `size` |
| FastSequences.FastSequence.Size | src/javolution/util/FastSequence.java:161-163 | the number of elements |
| FastSequences.FastSequence.IsEmpty | src/javolution/util/FastSequence.java:166-168 | true iff there are no elements |
| FastSequences.FastSequence.Get | src/javolution/util/FastSequence.java:266-270 | the element at `index`, or IndexOutOfBoundsException outside `[0, size)` |
| FastSequences.FastSequence.Set | src/javolution/util/FastSequence.java:282-289 | returns the old element and replaces it, without relinking; out of range it throws and nothing changes |
| FastSequences.FastSequence.SetValue | src/javolution/util/FastSequence.java:282-289 | writing a node's value replaces exactly that element |
| FastSequences.FastSequence.AddAt | src/javolution/util/FastSequence.java:302-306 | inserts at `index`; throws iff `index` is outside `[0, size]`, changing nothing |
| FastSequences.FastSequence.RemoveAt | src/javolution/util/FastSequence.java:319-326 | returns and deletes the element at `index`; throws iff out of `[0, size)`, changing nothing |
| FastSequences.FastSequence.AddAllAt | src/javolution/util/FastSequence.java:239-247 | inserts `values` at `index` and returns whether any were given; throws iff `index` is outside `[0, size]` |
| FastSequences.FastSequence.AddAll | src/javolution/util/FastSequence.java:221-223 | appends `values`; true iff non-empty |
| FastSequences.FastSequence.Add | src/javolution/util/FastSequence.java:194-197 | appends the value and returns true |
| FastSequences.FastSequence.AddFirst | src/javolution/util/FastSequence.java:497-499 | prepends the value |
| FastSequences.FastSequence.GetFirst | src/javolution/util/FastSequence.java:474-479 | the first element, or NoSuchElementException when empty |
| FastSequences.FastSequence.GetLast | src/javolution/util/FastSequence.java:486-491 | the last element, or NoSuchElementException when empty |
| FastSequences.FastSequence.RemoveFirst | src/javolution/util/FastSequence.java:519-526 | returns and removes the first element, or throws NoSuchElementException when empty |
| FastSequences.FastSequence.RemoveLast | src/javolution/util/FastSequence.java:533-542 | returns and removes the last element by moving the tail back one node, without relinking; NoSuchElementException when empty |
| FastSequences.FastSequence.Clear | src/javolution/util/FastSequence.java:250-256 | the list is empty and every value is nulled. No link changes: every node becomes free because `tail = head.next` |
| FastSequences.FastSequence.Reset | src/javolution/util/FastSequence.java:663-666 | the list is empty |
| FastSequences.FastSequence.IndexOf | src/javolution/util/FastSequence.java:336-344 | the first index of an equal element, or -1 |
| FastSequences.FastSequence.LastIndexOf | src/javolution/util/FastSequence.java:354-362 | the last index of an equal element, or -1 |
| FastSequences.FastSequence.Contains | src/javolution/util/FastSequence.java:171-173 | true iff an equal element occurs |
| FastSequences.FastSequence.Remove | src/javolution/util/FastSequence.java:200-207 | true iff the element occurs; then its first occurrence is deleted |
| FastSequences.FastSequence.WriteObject | src/javolution/util/FastSequence.java:634-642 | writes the elements, walking from the head |
| FastSequences.FastSequence.ReadObject | src/javolution/util/FastSequence.java:621-632 | the list rebuilt by `addLast` holds exactly the written elements |
| FastSequences.FastSequence.Unmodifiable | src/javolution/util/FastSequence.java:603-605 | a separate, fresh list with the same elements |
| FastSequences.FastSequence.Shared | src/javolution/util/FastSequence.java:608-610 | a separate, fresh list with the same elements |
| FastSequences.FastSequence.UnmodifiableView | src/javolution/util/FastList.java:14-17 | the corrected `unmodifiable()`: the read-only view `FastList` returns, which reads the list's elements. After any series of mutator calls, each has thrown UnsupportedOperationException and the view still reads those elements |
| FastSequences.ModifiableCopy | src/javolution/util/FastSequence.java:603-605 | the list {1}, then `unmodifiable()` as written and `addLast(2)` on the result: the add succeeds, so the "unmodifiable" list reads [1, 2] while the list reads [1] |
| FastSequences.FastSequence.ListIterator | src/javolution/util/FastSequence.java:392-396 | an iterator at `index` over the whole list; throws iff `index` is outside `[0, size]` |
| FastSequences.FastSequence.SubList | src/javolution/util/FastSequence.java:429-434 | a view whose elements are `[from, to)`; throws iff not `0 <= from <= to <= size` |
| FastSequences.SubList.constructor | src/javolution/util/FastSequence.java:934-941 | records the delimiting nodes and the size; its view is the given slice |
| FastSequences.SubList.NodeAt | src/javolution/util/FastSequence.java:1031-1045 | walking from the nearer end gives the same node as the list's `nodeAt(start+index)` |
| FastSequences.SubList.Size | src/javolution/util/FastSequence.java:943-945 | the view's length |
| FastSequences.SubList.Get | src/javolution/util/FastSequence.java:971-975 | the view's element at `index`, or IndexOutOfBoundsException |
| FastSequences.SubList.Set | src/javolution/util/FastSequence.java:976-983 | replaces the list's element at `start+index` and returns the old one; throws out of range |
| FastSequences.SubList.AddAsWritten | src/javolution/util/FastSequence.java:984-988 | `add` as written: the list gets the element, but `_size` is not updated, so the sub list no longer spans its delimiters |
| FastSequences.SubList.RemoveAsWritten | src/javolution/util/FastSequence.java:989-996 | `remove` as written: the list loses the element, but `_size` is not updated, so the sub list no longer spans its delimiters |
| FastSequences.SubList.AddAllAsWritten | src/javolution/util/FastSequence.java:962-970 | `addAll` as written: the list gets the values, `_size` is unchanged, and a non-empty insertion leaves the sub list inconsistent |
| FastSequences.SubList.AddAt | src/javolution/util/FastSequence.java:984-988 | the corrected `add`: inserts at `start+index` and the size grows by one; throws iff `index` is outside `[0, size]` |
| FastSequences.SubList.RemoveAt | src/javolution/util/FastSequence.java:989-996 | the corrected `remove`: returns and deletes the element at `start+index` and the size shrinks by one; throws out of range |
| FastSequences.SubList.AddAllAt | src/javolution/util/FastSequence.java:962-970 | the corrected `addAll`: inserts the values at `start+index` and the size grows by their number; throws out of range |
| FastSequences.SubList.IndexOf | src/javolution/util/FastSequence.java:997-1005 | the first index in the view of an equal element, or -1 |
| FastSequences.SubList.LastIndexOf | src/javolution/util/FastSequence.java:1006-1014 | the last index in the view of an equal element, or -1 |
| FastSequences.SubList.ListIterator | src/javolution/util/FastSequence.java:1018-1022 | an iterator at `index` over the view; throws iff `index` is outside `[0, size]` |
| FastSequences.SubList.SubList | src/javolution/util/FastSequence.java:1023-1030 | a view of the view's `[from, to)`; throws iff not `0 <= from <= to <= size` |
| FastSequences.FastListIterator.constructor | src/javolution/util/FastSequence.java:1069-1076 | records the list, next node, next index and length, with no current node |
| FastSequences.FastListIterator.HasNext | src/javolution/util/FastSequence.java:1077-1079 | true iff the next index is below the length |
| FastSequences.FastListIterator.Next | src/javolution/util/FastSequence.java:1080-1087 | returns the next element and advances, making it current; NoSuchElementException at the end |
| FastSequences.FastListIterator.NextIndex | src/javolution/util/FastSequence.java:1088-1090 | the next index |
| FastSequences.FastListIterator.HasPrevious | src/javolution/util/FastSequence.java:1091-1093 | true iff the next index is positive |
| FastSequences.FastListIterator.Previous | src/javolution/util/FastSequence.java:1094-1100 | steps back and returns that element, making it current; NoSuchElementException at the start |
| FastSequences.FastListIterator.PreviousIndex | src/javolution/util/FastSequence.java:1101-1103 | the next index minus one |
| FastSequences.FastListIterator.Add | src/javolution/util/FastSequence.java:1104-1109 | inserts before the next node, advances the index and the length, and clears the current node |
| FastSequences.FastListIterator.Set | src/javolution/util/FastSequence.java:1110-1114 | replaces the current element; IllegalStateException when there is none |
| FastSequences.FastListIterator.Remove | src/javolution/util/FastSequence.java:1115-1127 | deletes the current element, shrinks the length, and moves the next index back when the element was before it; IllegalStateException when there is none |
| BitSets.InitialWords | src/javolution/util/FastBitSet.java:63-66 | `(bitSize - 1 >> 6) + 1` words cover exactly `bitSize` bits for a positive size. It is 0 for `-63..0`, negative below that, and 2^25 for `Integer.MIN_VALUE`, where `bitSize - 1` wraps |
| BitSets.GrownLength | src/javolution/util/FastBitSet.java:541-544 | the doubling loop, started from at least one word, ends with room for `n` words and less than twice what is needed |
| BitSets.FastBitSet.constructor | src/javolution/util/FastBitSet.java:52-54 | `FastBitSet()`: one zero word, the set is empty |
| BitSets.FastBitSet.Create | src/javolution/util/FastBitSet.java:63-66 | `FastBitSet(bitSize)`: the right number of zero words; NegativeArraySizeException iff that number is negative |
| BitSets.FastBitSet.NewInstance | src/javolution/util/FastBitSet.java:74-78 | a fresh empty bit set |
| BitSets.FastBitSet.SetLength | src/javolution/util/FastBitSet.java:537-555 | the live words become the old ones, cut or zero-filled to `n`. The array is replaced only when too short, by one of the doubled length (from one word when it was empty) |
| BitSets.FastBitSet.Get | src/javolution/util/FastBitSet.java:235-238 | a negative index throws. Otherwise the result is membership of bit `b`, and it is false whenever word `b >> 6` is at or beyond the live length |
| BitSets.Added | src/javolution/util/FastBitSet.java:367-373 | the word sequence after `set(b)`, widened to hold word `b/64` |
| BitSets.AddedIn | src/javolution/util/FastBitSet.java:367-373 | after `set(b)`, the members are the old ones plus `b` |
| BitSets.FastBitSet.SetBit | src/javolution/util/FastBitSet.java:367-373 | `set(b)`: `b` becomes a member and no other bit changes; a negative index throws and changes nothing |
| BitSets.RemovedIn | src/javolution/util/FastBitSet.java:158-163 | after `clear(b)`, the members are the old ones minus `b` |
| BitSets.FastBitSet.ClearBit | src/javolution/util/FastBitSet.java:158-163 | `clear(b)`: `b` stops being a member and no other bit changes; a negative index throws |
| BitSets.FastBitSet.SetBitValue | src/javolution/util/FastBitSet.java:381-388 | `set(b, value)` is `set(b)` or `clear(b)` |
| BitSets.FlippedIn | src/javolution/util/FastBitSet.java:198-202 | after the intended `flip(b)`, exactly bit `b` is toggled |
| BitSets.FastBitSet.Flip | src/javolution/util/FastBitSet.java:198-202 | the corrected `flip(b)`: exactly bit `b` toggles, with no shrinking of the live words; a negative index throws |
| BitSets.FastBitSet.ClearRange | src/javolution/util/FastBitSet.java:173-191 | clears exactly the bits in `[from, to)`; throws iff `from < 0` or `to < from`, changing nothing |
| BitSets.RangeAddedIn | src/javolution/util/FastBitSet.java:398-413 | after the intended `set(from, to)`, the members are the old ones plus `[from, to)` |
| BitSets.FastBitSet.SetRange | src/javolution/util/FastBitSet.java:398-413 | the corrected `set(from, to)`: sets exactly `[from, to)` and keeps every higher member; throws on bad bounds |
| BitSets.RangeFlippedIn | src/javolution/util/FastBitSet.java:211-226 | after the intended `flip(from, to)`, exactly the bits in `[from, to)` are toggled |
| BitSets.FastBitSet.FlipRange | src/javolution/util/FastBitSet.java:211-226 | the corrected `flip(from, to)`: toggles exactly `[from, to)` and keeps every higher member; throws on bad bounds |
| BitSets.FastBitSet.SetRangeValue | src/javolution/util/FastBitSet.java:423-430 | `set(from, to, value)` is `set(from, to)` or `clear(from, to)` |
| BitSets.FastBitSet.And | src/javolution/util/FastBitSet.java:110-116 | the words become the pairwise AND over the shorter length, so `_length` becomes the minimum; `that` is unchanged |
| BitWords.AndIn | src/javolution/util/FastBitSet.java:110-116 | `and` is intersection |
| BitSets.FastBitSet.AndNot | src/javolution/util/FastBitSet.java:125-130 | the words become `a & ~c` |
| BitWords.AndNotIn | src/javolution/util/FastBitSet.java:125-130 | `andNot` is difference |
| BitSets.FastBitSet.Or | src/javolution/util/FastBitSet.java:352-359 | the words become the pairwise OR over the longer length |
| BitWords.OrIn | src/javolution/util/FastBitSet.java:352-359 | `or` is union |
| BitSets.FastBitSet.Xor | src/javolution/util/FastBitSet.java:453-460 | the words become the pairwise XOR over the longer length |
| BitWords.XorIn | src/javolution/util/FastBitSet.java:453-460 | `xor` is symmetric difference |
| BitWords.AndKeepWordsIn | src/javolution/util/FastBitSet.java:173-191 | the words `clear(from, to)` leaves hold exactly the members outside `[from, to)` |
| BitWords.NextSet | src/javolution/util/FastBitSet.java:328-344 | the least member at or after `f`, or -1 when there is none |
| BitWords.NextClear | src/javolution/util/FastBitSet.java:299-315 | the least non-member at or after `f` |
| BitSets.FastBitSet.ScanSet | src/javolution/util/FastBitSet.java:328-344 | the scan of `nextSetBit` on exact indices: the least member at or after the start, or -1 |
| BitSets.FastBitSet.NextSetBit | src/javolution/util/FastBitSet.java:328-344 | throws for a negative start; otherwise the least member at or after it, or -1, as the Java `int` that `fromIndex++` leaves (wrapped when the member is at or above 2^31) |
| BitSets.FastBitSet.NextClearBit | src/javolution/util/FastBitSet.java:299-315 | throws for a negative start; otherwise the least non-member at or after it, as the Java `int` that `fromIndex++` leaves: on the set holding 2^31 - 1, `nextClearBit(2^31 - 1)` is -2^31 |
| BitSets.FastBitSet.Intersects | src/javolution/util/FastBitSet.java:266-273 | true iff the two sets share a member |
| BitWords.IntersectsIff | src/javolution/util/FastBitSet.java:266-273 | a non-zero word of the pairwise AND exists iff a common member exists |
| BitSets.FastBitSet.Equals | src/javolution/util/FastBitSet.java:463-481 | true iff the two sets have the same members, whatever their live lengths |
| BitWords.SameMembersIff | src/javolution/util/FastBitSet.java:463-481 | equal words at every index, zeros past the end, iff the same members |
| BitSets.FastBitSet.Cardinality | src/javolution/util/FastBitSet.java:137-143 | the number of members, summed in a Java `int` that wraps once the count reaches 2^31 |
| BitSets.FastBitSet.Size | src/javolution/util/FastBitSet.java:442-444 | the number of members, wrapped to a Java `int` as `cardinality()` |
| BitSets.FastBitSet.Clear | src/javolution/util/FastBitSet.java:148-150 | `clear()`: the set is empty and the array is kept |
| BitSets.FastBitSet.Reset | src/javolution/util/FastBitSet.java:492-494 | the set is empty and the array is kept |
| BitSets.FastBitSet.Head | src/javolution/util/FastBitSet.java:499-501 | the record before the first member, -1 |
| BitSets.FastBitSet.Tail | src/javolution/util/FastBitSet.java:503-505 | the record after the last member: the cardinality, wrapped to a Java `int` |
| BitSets.FastBitSet.ValueOf | src/javolution/util/FastBitSet.java:507-525 | for `0 <= i`, a result exists iff `i < cardinality`, and it is the member with exactly `i` members below it (0-based rank) |
| BitWords.RankInjective | src/javolution/util/FastBitSet.java:507-525 | two members with the same rank are the same member, so `valueOf` has one answer |
| BitSets.FastBitSet.SelectInWord | src/javolution/util/FastBitSet.java:514-520 | the shifting loop inside the found word lands on the bit of the wanted rank |
| BitSets.FastBitSet.Delete | src/javolution/util/FastBitSet.java:527-531 | throws UnsupportedOperationException iff the record names a member; otherwise nothing happens |
| BitSets.FastBitSet.Add | src/javolution/util/FastBitSet.java:96-102 | `add(index)`: true iff the bit was not a member, and then it becomes one; a negative index throws |
| BitSets.FastBitSet.Length | src/javolution/util/FastBitSet.java:275-290 | the documented `length()`: the highest member plus one, or 0 for the empty set |
| BitWords.HighestPlusOne | src/javolution/util/FastBitSet.java:275-282 | the highest member below `n` plus one: every bit from there up is clear and the bit just below is set |
| BitSets.LengthMissesLowWord | src/javolution/util/FastBitSet.java:283-290 | on the set {0}, `length()` as written is 0, while the highest member plus one is 1 |
| BitSets.FastBitSet.HashCode | src/javolution/util/FastBitSet.java:484-490 | the corrected hash: the 32-bit wrapped sum of the members, its loop advancing from member to member with the exact scan of `nextSetBit(i + 1)` |
| BitSets.HashNeverEnds | src/javolution/util/FastBitSet.java:484-490 | the loop as written, `i = nextSetBit(i)`, never ends once it reaches a member |
| BitSets.DoublingFromEmpty | src/javolution/util/FastBitSet.java:541-544 | `setLength` as written, from an array of length 0, doubles 0 forever |
| BitSets.DoubledAsWritten | src/javolution/util/FastBitSet.java:541-544 | the doubling loop as written, run with a bound on its rounds |
| BitSets.FlippedAsWritten | src/javolution/util/FastBitSet.java:198-202 | `flip(b)` as written: the live words are cut or widened to exactly `b/64 + 1` |
| BitSets.RangeAddedAsWritten | src/javolution/util/FastBitSet.java:398-413 | `set(from, to)` as written: the live words become exactly `to/64 + 1` |
| BitSets.RangeFlippedAsWritten | src/javolution/util/FastBitSet.java:211-226 | `flip(from, to)` as written: the live words become exactly `to/64 + 1` |
| BitSets.ShrinkingDropsMembers | src/javolution/util/FastBitSet.java:198-226 | on the set {64}, `flip(0)`, `set(0, 1)` and `flip(0, 1)` as written lose 64, while the intended operations keep it |
| BitSets.FastBitSet.GetRange | src/javolution/util/FastBitSet.java:248-258 | the corrected `get(from, to)`: a fresh set of exactly the members in `[from, to)`; throws iff `from < 0` or `to < from` |
| BitSets.FastBitSet.GetRangeAsWritten | src/javolution/util/FastBitSet.java:248-258 | `get(from, to)` as written also throws when `to` passes the copied words, because of the final `clear(to, length << 6)` |
| BitSets.FastBitSet.Slice | src/javolution/util/FastBitSet.java:248-258 | the copy `get(from, to)` builds holds exactly the members in `[from, to)` |
| BitSets.SliceIn | src/javolution/util/FastBitSet.java:248-258 | the copied words, cleared below `from` and from `to`, hold exactly the members in `[from, to)` |
| MapSpec.Find | src/javolution/util/FastMap.java:398-410 | the index of the entry holding the key, or -1 iff no entry holds it; nothing before that index holds the key |
| MapSpec.PutShape | src/javolution/util/FastMap.java:432-503 | `put` keeps keys distinct. It keeps the key order when the key is present and appends the key otherwise; the size grows iff the key was absent |
| MapSpec.GetAfterPut | src/javolution/util/FastMap.java:428-431 | after `put(k, v)`, `get(k)` is `v` and every other key reads as before |
| MapSpec.PutIfAbsentIsPut | src/javolution/util/FastMap.java:645-667 | `putIfAbsent` is `put` when the key is absent and changes nothing otherwise |
| MapSpec.ContainsAfterPut | src/javolution/util/FastMap.java:428-431 | after `put(k, v)`, exactly `k` and the old keys are present |
| MapSpec.GetAfterRemove | src/javolution/util/FastMap.java:668-729 | after `remove(k)`, `k` is absent and every other key reads as before; the size drops by one iff `k` was present |
| MapSpec.ContainsAfterRemove | src/javolution/util/FastMap.java:685-687 | after `remove(k)`, a key is present iff it is not `k` and was present |
| MapSpec.PutAllSnoc | src/javolution/util/FastMap.java:639-644 | `putAll` of one more mapping is `put` of it after the others, in iteration order |
| MapSpec.PutAllDistinct | src/javolution/util/FastMap.java:639-644 | `putAll` keeps keys distinct |
| MapSpec.PutAllNew | src/javolution/util/FastMap.java:639-644 | `putAll` of fresh distinct keys appends them in order |
| MapSpec.ReplayEntries | src/javolution/util/FastMap.java:1414-1441 | replaying a map's entries into an empty map, as `readObject` does, gives back the same entries in the same order |
| HashSlots.SubLengthPow2 | src/javolution/util/FastMap.java:549-552 | a split table of more than C1 slots gives each sub-map `2 * length >> 5` slots, a power of two of at least 64 |
| HashSlots.DoubledPow2 | src/javolution/util/FastMap.java:541-548 | doubling a power-of-two table length gives a power of two |
| HashSlots.FirstEmpty | src/javolution/util/FastMap.java:591-601 | the probe of `mapEntry` and `copyEntries`: from the home slot, the first empty slot, with every slot on the way full |
| HashSlots.CopyEntries | src/javolution/util/FastMap.java:603-618 | every live entry of `from` lands in one slot of the empty `to` reachable from its home slot; tombstones and `null` slots are skipped |
| HashSlots.CopyOne | src/javolution/util/FastMap.java:605-616 | one round of `copyEntries`: a live entry goes to the first empty slot from its home |
| HashSlots.ResetSlots | src/javolution/util/FastMap.java:1621-1627 | the static `reset` leaves every slot empty |
| SubMaps.Route | src/javolution/util/FastMap.java:411-413 | the table a hash is kept in, looking down through the sub-maps in use, is a valid table |
| SubMaps.SubMapOf | src/javolution/util/FastMap.java:411-413 | `getSubMap` as written, dispatching on the low B2 bits and shifting the hash right by B2, names a valid table |
| SubMaps.SubMapOfRoute | src/javolution/util/FastMap.java:411-413 | dispatching on successive 6-bit slices of the shifted hash reaches the table each table's own key shift selects |
| SubMaps.GetSubMapRoute | src/javolution/util/FastMap.java:399 | `getSubMap(keyHash)` on the map itself finds the table the routing names |
| SubMaps.RouteSplit | src/javolution/util/FastMap.java:549-577 | after a leaf splits, a hash routed to it is routed to sub-map `(h >> keyShift) & 63`, and every other hash is routed as before |
| SubMaps.SplitCount | src/javolution/util/FastMap.java:549-577 | moving every entry of a leaf into its sub-maps leaves the size of the map unchanged |
| SubMaps.SizeOf | src/javolution/util/FastMap.java:334-342 | `size()` of a table: its entry count, or the sum of its sub-maps' sizes when it uses them; it is the number of entries below it |
| SubMaps.ClearTables | src/javolution/util/FastMap.java:827-837 | `clearTables()`: every table at or below `t` is cleared, with empty slots, zero counts and sub-maps unused; every other table is untouched |
| SubMaps.ClearSubMap | src/javolution/util/FastMap.java:829-831 | one round of the `clearTables()` loop: sub-map `i` and everything below it is cleared, the rest is kept |
| SubMaps.NewSubMaps | src/javolution/util/FastMap.java:581-589 | C2 empty sub-maps of `capacity` slots, with key shift B2 more than their creator's |
| SubMaps.MapEntries | src/javolution/util/FastMap.java:553-570 | the split loop: unless it gives up at a half-full sub-map, the sub-maps hold exactly the live entries, each where its hash selects |
| SubMaps.MapOne | src/javolution/util/FastMap.java:555-569 | one round of the split loop: a live entry is mapped into its sub-map; `ok` is false once that sub-map is half full |
| SubMaps.MapEntry | src/javolution/util/FastMap.java:591-601 | `mapEntry`: the entry goes into the free slot the probe found, and the entry count grows by one |
| MapStores.Lookup | src/javolution/util/FastMap.java:398-410 | the probe of `getEntry`: the slot of the entry holding the key, or -1 once an empty slot ends the probe, and then no reachable slot holds the key |
| MapStores.PutProbe | src/javolution/util/FastMap.java:434-455 | the probe of `put`: the slot of the key's entry, or the first slot on the probe path that holds no entry (a tombstone or the final empty slot) |
| MapStores.AddKeepsInv | src/javolution/util/FastMap.java:462-475 | taking the `_tail` entry for a new key and writing it into the free slot keeps the map invariant and appends `(key, value)` |
| MapStores.SetValueKeepsInv | src/javolution/util/FastMap.java:447-453 | replacing an entry's value keeps the invariant and changes only that entry's value |
| MapStores.RemoveKeepsInv | src/javolution/util/FastMap.java:704-722 | detaching the entry, leaving a tombstone and recycling the entry after `_tail` keep the invariant and remove the key |
| MapStores.AppendKeepsInv | src/javolution/util/FastMap.java:504-516 | appending a free entry after the last one keeps the invariant and the entries |
| MapStores.ClearEntries | src/javolution/util/FastMap.java:819-824 | the `clear()` loop leaves no entry holding a key or a value |
| MapStores.ClearKeepsInv | src/javolution/util/FastMap.java:814-837 | after `clear()` the invariant holds and the map is empty |
| MapStores.InitialInv | src/javolution/util/FastMap.java:244-261 | the store `setup` builds is an empty map that keeps the invariant |
| MapResizes.ResizeLeaf | src/javolution/util/FastMap.java:518-580 | `resizeTable` rebuilds the over-full leaf: the map keeps its entries, and no leaf is over its limit afterwards |
| MapResizes.Recopy | src/javolution/util/FastMap.java:525-548 | compacting into a same-size table when tombstones outnumber entries, or copying into a doubled one while it stays within C1, keeps the entries |
| MapResizes.SplitLeaf | src/javolution/util/FastMap.java:549-577 | spreading a leaf over its sub-maps keeps the entries. When a sub-map gets half full, the sub-maps are dropped and the table doubles instead |
| MapResizes.EnsureSubMaps | src/javolution/util/FastMap.java:550-552 | the leaf's sub-maps, existing or newly appended, are ready to take its entries, and the map is unchanged |
| FastMaps.LiveEntry | src/javolution/util/FastMap.java:384-410 | a live entry is at its chain position among the entries: `get` of its key returns its value |
| FastMaps.PlacedKey | src/javolution/util/FastMap.java:462-475 | adding a new key at `_tail` writes exactly that entry and slot and appends `(key, value)` |
| FastMaps.UnlinkedKey | src/javolution/util/FastMap.java:704-722 | unlinking the found entry removes exactly its key |
| FastMaps.ChainStep | src/javolution/util/FastMap.java:1107-1113 | one step along the live chain moves to the next entry in iteration order |
| FastMaps.RemovedCurrent | src/javolution/util/FastMap.java:1114-1122 | removing the entry an iterator last returned leaves the entries after it in place, so the iteration goes on where it was |
| FastMaps.FastMap.Entries | src/javolution/util/FastMap.java:1437-1440 | the entries in iteration order have distinct keys |
| FastMaps.FastMap.constructor | src/javolution/util/FastMap.java:239-261 | `FastMap(capacity)`: an empty map with `capacity` free entries (0 if negative). It has one table of the smallest power-of-two length at least `2 * C0` and at least `2 * capacity` |
| FastMaps.FastMap.Create | src/javolution/util/FastMap.java:212-214 | `FastMap()`: an empty map with 4 free entries |
| FastMaps.FastMap.CreateNewEntries | src/javolution/util/FastMap.java:504-516 | `createNewEntries()`: eight more free entries after `_tail`; the entries are unchanged |
| FastMaps.FastMap.AppendFree | src/javolution/util/FastMap.java:508-513 | one round of `createNewEntries()`: one more free entry at the end of the chain |
| FastMaps.FastMap.GetEntry | src/javolution/util/FastMap.java:395-410 | a null key throws NullPointerException. Otherwise the result is `null` iff the key is absent, else its entry, holding its value |
| FastMaps.FastMap.Get | src/javolution/util/FastMap.java:384-387 | a null key throws; otherwise the key's value, or `null` when absent |
| FastMaps.FastMap.ContainsKey | src/javolution/util/FastMap.java:360-362 | a null key throws; otherwise whether the key is present |
| FastMaps.FastMap.ContainsValue | src/javolution/util/FastMap.java:371-373 | true iff some entry holds the value |
| FastMaps.FastMap.Size | src/javolution/util/FastMap.java:334-342 | the number of entries |
| FastMaps.FastMap.IsEmpty | src/javolution/util/FastMap.java:349-351 | true iff there are no entries |
| FastMaps.FastMap.ProbeKey | src/javolution/util/FastMap.java:432-455 | routes to the leaf of the hash and probes it. It finds the key's entry, at the key's position among the entries, or a free slot on a full path when the key is absent |
| FastMaps.FastMap.SetValue | src/javolution/util/FastMap.java:447-453 | `entry._value = value`: returns the old value; the map is `put` of that key |
| FastMaps.FastMap.PutKey | src/javolution/util/FastMap.java:432-503 | private `put`: returns the previous value. The map becomes `put`, or `putIfAbsent` under `noReplace`; the returned entry holds the key and its current value |
| FastMaps.FastMap.AddNew | src/javolution/util/FastMap.java:462-501 | a new key is appended as `(key, value)`, refilling the free entries and resizing the leaf as needed |
| FastMaps.FastMap.Place | src/javolution/util/FastMap.java:462-475 | the `_tail` entry takes the key, the value and the free slot, appending `(key, value)` |
| FastMaps.FastMap.ResizeTable | src/javolution/util/FastMap.java:518-580 | `resizeTable` keeps the entries and the entry chain, and restores the load bound |
| FastMaps.FastMap.Put | src/javolution/util/FastMap.java:428-431 | a null key throws and changes nothing. Otherwise it returns the previous value, the entries become `put(key, value)`, and `get(key)` is `value` |
| FastMaps.FastMap.PutIfAbsent | src/javolution/util/FastMap.java:664-667 | a null key throws. Otherwise it returns the current value, and the entries become `putIfAbsent(key, value)` |
| FastMaps.FastMap.PutEntry | src/javolution/util/FastMap.java:628-631 | a null key throws; otherwise the entries become `put(key, value)` and the returned entry holds the pair |
| FastMaps.FastMap.PutAll | src/javolution/util/FastMap.java:639-644 | the entries become `putAll(from)`. A null key in `from` throws after the mappings before it were put |
| FastMaps.FastMap.Remove | src/javolution/util/FastMap.java:685-729 | a null key throws. Otherwise it returns the previous value and the entries become `remove(key)`; a removed entry moves from the live chain to the free pool |
| FastMaps.FastMap.Unlink | src/javolution/util/FastMap.java:704-726 | the found entry is detached, its slot gets a tombstone, and it is recycled after `_tail`; returns its value |
| FastMaps.FastMap.Detach | src/javolution/util/FastMap.java:705-721 | relinking the detached entry after `_tail` keeps the chain well linked |
| FastMaps.FastMap.Clear | src/javolution/util/FastMap.java:814-826 | `clear()`: no entries. The chain is kept, and every old entry joins the free pool |
| FastMaps.FastMap.WriteObject | src/javolution/util/FastMap.java:1432-1441 | `writeObject` writes `size()`, then every entry in iteration order |
| FastMaps.FastMap.OfMap | src/javolution/util/FastMap.java:268-271 | `FastMap(map)` is `putAll(map)` into an empty map; a null key throws; distinct keys come back in order |
| FastMaps.FastMap.ReadObject | src/javolution/util/FastMap.java:1414-1425 | `readObject`: a short stream is an end-of-file error unless a null key comes before its end, which makes `put` throw NullPointerException first; a null key among the pairs read throws too. Otherwise the map is `putAll` of the pairs read; a map's own `writeObject` output reads back to the same entries |
| FastMaps.FastMap.Unmodifiable | src/javolution/util/FastMap.java:1389-1398 | a read-only view over this map |
| FastMaps.UnmodifiableMap.constructor | src/javolution/util/FastMap.java:1563-1564 | the view reads the map it wraps |
| FastMaps.UnmodifiableMap.Size | src/javolution/util/FastMap.java:1573-1575 | the wrapped map's size |
| FastMaps.UnmodifiableMap.IsEmpty | src/javolution/util/FastMap.java:1576-1578 | whether the wrapped map is empty |
| FastMaps.UnmodifiableMap.ContainsKey | src/javolution/util/FastMap.java:1579-1581 | the wrapped map's `containsKey`, including its null-key exception |
| FastMaps.UnmodifiableMap.ContainsValue | src/javolution/util/FastMap.java:1582-1584 | the wrapped map's `containsValue` |
| FastMaps.UnmodifiableMap.Get | src/javolution/util/FastMap.java:1585-1587 | the wrapped map's `get`, including its null-key exception |
| FastMaps.UnmodifiableMap.Put | src/javolution/util/FastMap.java:1588-1590 | throws UnsupportedOperationException |
| FastMaps.UnmodifiableMap.PutAll | src/javolution/util/FastMap.java:1594-1596 | throws UnsupportedOperationException |
| FastMaps.UnmodifiableMap.Remove | src/javolution/util/FastMap.java:1591-1593 | throws UnsupportedOperationException |
| FastMaps.UnmodifiableMap.Clear | src/javolution/util/FastMap.java:1597-1599 | throws UnsupportedOperationException |
| FastMaps.UnmodifiableMap.EntrySet | src/javolution/util/FastMap.java:1606-1611 | throws UnsupportedOperationException |
| FastMaps.MapIterator.constructor | src/javolution/util/FastMap.java:1096-1102 | a new iterator has no current entry and has all the entries of the map still to come |
| FastMaps.MapIterator.HasNext | src/javolution/util/FastMap.java:1104-1106 | true iff entries remain |
| FastMaps.MapIterator.NextEntry | src/javolution/util/FastMap.java:1247-1253 | throws NoSuchElementException iff none remain. Otherwise it returns the first remaining entry, which becomes current, and the rest remain |
| FastMaps.MapIterator.NextKey | src/javolution/util/FastMap.java:1361-1367 | throws NoSuchElementException iff none remain; otherwise the first remaining key, and the rest remain |
| FastMaps.MapIterator.NextValue | src/javolution/util/FastMap.java:1107-1113 | throws NoSuchElementException iff none remain; otherwise the first remaining value, and the rest remain |
| FastMaps.MapIterator.Remove | src/javolution/util/FastMap.java:1114-1122 | throws IllegalStateException iff there is no current entry. Otherwise it removes the current key from the map, clears the current entry and leaves the remaining entries as they were |
| NodeChains.InsertLinked | src/javolution/util/FastSequence.java:552-570 | moving the first free node in front of position `k` keeps the chain doubly linked |
| NodeChains.DeleteLinked | src/javolution/util/FastSequence.java:452-467 | moving the node at position `k` to the free pool keeps the chain doubly linked |
| NodeChains.AppendLinked | src/javolution/util/FastSequence.java:505-512 | a new node appended at the end of the chain keeps it doubly linked |

## Left out

- Locking, `synchronized` blocks and the shared mode of FastMap are not modelled. That covers the `concurrent` recursion in `put`/`remove`, `clearShared`, the shared-mode table swaps and `ONE_VOLATILE`. They only matter for concurrent access, and the model is sequential.
- The `MemoryArea.executeInArea` wrappers, the `ObjectFactory`/`ArrayFactory` pools and `LogContext.warning` are not modelled. Pooled iterators, sub lists, entries and temporary arrays are plain new objects. The `recycle` calls have no observable effect on the collections.
- The keys' `hashCode` and `equals` are the parameter `hash` and Dafny `==`. The key and value comparators and `setKeyComparator`/`setValueComparator` are left out. The FastComparator strategies are modelled on their own in `comparators.dfy`.
- The sort order of FastTable is a comparison function parameter, standing for the value comparator.
- In the unmodifiable views of `unmodifiable.dfy`, the wrapped list is held by value, as its elements (`fc: seq<E>`), and its records as positions. It is not an object that is shared with its owner. The model does not capture that a view sees later changes made through the owner, or that it aliases the owner's nodes.
- The IDENTITY and STRING comparators' hash consistency (equal references, or equal strings, get equal hashes) has no lemma of its own: `IdentityAreEqual` and `StringEquals` are `==`, so the fact is immediate. STRING's own property is that it samples five characters (`Comparators.StringHashSamplesOnly`).
- SubMaps.Route: Java's `>>` takes its shift modulo 32, but the model shifts the unbounded `hash` by the full key shift. The two differ only for tables five split levels down (key shift 36 and more). To get there, more than 32 entries would have to share 30 hash bits, and that split falls back to doubling anyway.
- FastMaps.FastMap.constructor: a capacity above 2^29 makes `setup` throw NegativeArraySizeException or loop, through `int` overflow of `tableLength <<= 1`. The model uses unbounded integers and builds the table.
- ContextAllocator.Allocator.Resize: the `int` overflow of `queue.length << 1` past 2^30 slots is not modelled.
- FastSequences.FastSequence.AddBefore: the node must be a list node or the tail. For `addBefore(_head, v)`, the source takes a node off the free pool and then fails with a NullPointerException at `previous._next`, since the head has no previous node (FastSequence.java:556-564). That broken state is not modelled.
- BitSets.FastBitSet.Flip: for a negative index the source calls `setLength((bitIndex >> 6) + 1)` before `bits[bitIndex >> 6]` throws. For -64 <= bitIndex < 0 that is `setLength(0)`, which sets `_length` to 0. For bitIndex <= -65 the argument is negative, so `setLength` skips the resize and the zeroing and sets `_length` to that negative value. The model throws and leaves the set unchanged.
- FastMap's `reset()` is `clear()` plus restoring the default comparators, which are not modelled, so it is not a separate member.
- The persistent constructors `FastMap(String)`, `FastTable(String)` and `FastSequence(String)` register with `PersistentContext` and are left out.
- FastMap's `FastMap(Map)` is FastMaps.FastMap.OfMap. The sub-map constructor `FastMap(Entry[])` is part of SubMaps.NewSubMaps.
- FastMap's `keySet()`, `values()` and `entrySet()` collection views are not modelled beyond their iterators, FastMaps.MapIterator. Their `size`, `contains` and `remove` delegate to the map operations that are modelled.
- The cached `_unmodifiable` field is left out: FastMaps.FastMap.Unmodifiable returns a new view over the same map each time.
- A structural change made during an iteration, other than through the iterator, is not modelled.
- FastMap's `head()`/`tail()`, the `Entry` getters and `getNext`/`getPrevious` are left out. They only return fields.
- A FastMap sub-map array that a failed split drops (`_subMaps = null`) stays in the arena of tables, unreachable from the root.
- The `equals`, `hashCode`, `toText`, `toString` and `printStatistics` methods of the list and map collections depend on element hashing, text or printing, and are left out. FastBitSet is the exception: its `equals` and `hashCode` are modelled (`BitSets.FastBitSet.Equals`, `BitSets.FastBitSet.HashCode`).
- FastTable's and FastSequence's `shared()` return detached copies in the source (FastTable.java:642-644, FastSequence.java:608-610). They are modelled as written, as copies. The shared mode they would give is out of scope, as above.
- Java object streams are not modelled. `readObject`/`writeObject` are modelled as the sequence of elements or entries written and replayed.
- FastMap entries are indices into arena sequences, and so are FastSequence nodes; FastMap slot tables are sequences. Object identity is modelled only through these indices.
- The temporary buffer that `resizeTable` borrows when it compacts in place is left out. The model copies into fresh empty slots, which gives the same table.
- `createNewEntries` adds eight free entries. Which free entry a new key takes is modelled, but not the object allocation.
- The CopyOnWriteArrayList monitor locks are left out, as are its `hashCode`, `equals` and `toString`.
- The `compare` of the DEFAULT, DIRECT, REHASH and IDENTITY comparators is `((Comparable) o1).compareTo(o2)`, a call into the elements' own code, and is left out. It throws ClassCastException for an element that is not Comparable and NullPointerException for a null one. The STRING and LEXICAL `compare` are modelled.
- BitSets.FastBitSet.ValueOf: the running `count` and the index `j << 6` are exact integers. In the source both are Java `int`s that wrap once the live words reach 2^25 (2^31 bit positions). On such a set, `valueOf` can return `null` or a wrapped index where the model returns the member of that rank.
- BitSets.FastBitSet.HashCode: the corrected loop steps with exact member indices. A corrected Java loop would step with the wrapped `nextSetBit`, so it stops at the first member at or above 2^31.

## Findings

| source | as written | input that shows it | evidently intended | confidence | as-written member | corrected member |
|---|---|---|---|---|---|---|
| src/javolution/util/FastBitSet.java:283-290 | `length()` returns `i << (70 - numberOfTrailingZeros(l))` for the highest non-zero word `i` | the set {0}: word 0 is non-zero and `0 << 70` is 0 | the highest set bit plus one, as documented at lines 275-282, which is 1 here | not executed | BitSets.LengthMissesLowWord | BitSets.FastBitSet.Length |
| src/javolution/util/FastBitSet.java:484-490 | the loop advances with `i = nextSetBit(i)` | any non-empty set: `nextSetBit(i)` of a member `i` is `i` again, so the loop never ends | advance with `nextSetBit(i + 1)` | not executed | BitSets.HashNeverEnds | BitSets.FastBitSet.HashCode |
| src/javolution/util/FastBitSet.java:537-555 | `setLength` doubles `bits.length` until it reaches the new length | `new FastBitSet(0)` has an empty array, then `set(0)`: the doubling of 0 never ends | start the doubling from at least one word | not executed | BitSets.DoublingFromEmpty | BitSets.FastBitSet.SetLength |
| src/javolution/util/FastBitSet.java:198-226, 398-413 | `flip(b)`, `flip(from, to)` and `set(from, to)` call `setLength(j + 1)` unconditionally | the set {64}, then `flip(0)`, `set(0, 1)` or `flip(0, 1)`: `_length` drops to 1 word and 64 is lost | grow the live words only when they are too short | not executed | BitSets.ShrinkingDropsMembers | BitSets.FastBitSet.Flip, BitSets.FastBitSet.SetRange, BitSets.FastBitSet.FlipRange |
| src/javolution/util/FastBitSet.java:248-258 | `get(from, to)` ends with `clear(to, length << 6)` on the copy | the set {0} (one word) and `get(0, 100)`: `64 < 100`, so `clear(100, 64)` throws | clear only up to the end of the copied words, returning {0} | not executed | BitSets.FastBitSet.GetRangeAsWritten | BitSets.FastBitSet.GetRange |
| src/javolution/util/FastTable.java:1066-1070 | the list iterator's `add` keeps the cached `_low`/`_high` arrays after `_table.add` | the table 1..16 (capacity 16), a new iterator, `add(100)`, then `next()`: it returns 2 from the old low block, while the table holds 1 at index 1 | refresh the cached arrays after the insertion, so that `next()` returns 1 | not executed | FastTables.StaleLowBlock, FastTables.FastTableIterator.AddAsWritten | FastTables.FreshLowBlock, FastTables.FastTableIterator.Add |
| src/main/java/_templates/javolution/util/concurrent/CopyOnWriteArrayList.java:1079-1086 | `COWSubList.subList` rejects only `from < 0` and `to > size` | a sub list of size 3 and `subList(2, 1)`: a sub list of size -1 | also reject `from > to`, as the list's own `subList` does | not executed | CopyOnWrite.SubSubListNegativeSize, CopyOnWrite.SubSubListSizeAsWritten | CopyOnWrite.COWSubList.SubList |
| src/javolution/util/FastSequence.java:962-996 | `SubList.add`, `addAll` and `remove` change the backing list but never update `_size` | any `add(0, x)` on a sub list: its head and tail then enclose `size + 1` elements | update `_size` with each insertion and removal | not executed | FastSequences.SubList.AddAsWritten, FastSequences.SubList.AddAllAsWritten, FastSequences.SubList.RemoveAsWritten | FastSequences.SubList.AddAt, FastSequences.SubList.AddAllAt, FastSequences.SubList.RemoveAt |
| src/javolution/util/FastTable.java:637-639 | FastTable's `unmodifiable()` wraps the read-only view in `new FastTable(...)`, which copies it into a new, modifiable table | the table {1}, then `unmodifiable().add(2)`: the add succeeds | return the read-only view `FastList.unmodifiable()` builds (FastList.java:14-17), on which every mutator throws | not executed | FastTables.ModifiableCopy, FastTables.FastTable.Unmodifiable | FastTables.FastTable.UnmodifiableView |
| src/javolution/util/FastSequence.java:603-605 | FastSequence's `unmodifiable()` likewise copies the view into a new, modifiable list | the list {1}, then `unmodifiable().addLast(2)`: the add succeeds | return the read-only view, on which every mutator throws | not executed | FastSequences.ModifiableCopy, FastSequences.FastSequence.Unmodifiable | FastSequences.FastSequence.UnmodifiableView |
