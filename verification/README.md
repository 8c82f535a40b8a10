# Deemon runtime core, modelled and proved in Dafny

Deemon is a script language with a C runtime. This project models the parts of that runtime whose correctness rests on
several functions, or several threads, playing together, and proves what they keep.

- **Pending errors** (`ErrorTypes`, `ErrorState`, `ErrorChain`, `ErrorObservers`). Every thread keeps a chain of raised
  errors. State blocks hide what was pending and splice it back behind what was raised since. `ErrorState` says what the
  calls mean, `ErrorChain` is the linked cells, free list and stored chains that implement it, with every pointer write,
  and `ErrorObservers` interleaves the owner's single accesses with threads that walk the chain under its lock.
- **Sorting and merging** (`MergeSort`, `MergeIterators`, `Unique`). Merge sort, the two-way merge, sorted insertion and
  the removal of equal neighbours, all with user code that may fail at any call.
- **Sub-range and enumeration iterators** (`SubRange`, `SubRangeThreads`, `SubRangeDocumented`), used by one thread and
  by many, as they are written and as they are documented.
- **The dict's hash map** (`Capacity`, `HashTable`, `HashMap`): a bucket array that is rehashed as it grows and shrinks,
  with the range of buckets in use, the lock and the entry indices of its views, as a representation of a finite map.
- **Class operators** (`VTable`): the list of slots and callbacks, against the record the other build keeps.
- **Marshal** (`ObjectGraph`, `DeepEquals`, `Marshal`, `MarshalOrder`, `MarshalEnds`, `MarshalShape`, `MarshalGraphs`,
  `MarshalExamples`): writing object graphs with shared and recursive objects to a stream and reading them back.
  `DeepEquals` is the comparison by which the writer takes objects for ones it knows, `MarshalOrder` a depth-first walk
  that says which objects are compared; `MarshalGraphs` joins them, and the rules for announcing objects, with the
  results about writing and reading in general.
- **Descriptor tickets** (`DescriptorTickets`): threads using and closing one file descriptor.

`Common` holds definitions that several of these share. User code (comparisons, hashes, texts), allocated addresses and
what other threads do in between are parameters, so each statement holds for whatever they are.

Where code and documentation differ, the model follows the code and states exactly when the two agree:

- The merge takes the right element on a tie; the documented example takes the left one (`TieRule`, `OrderedTie`).
- Merge sort drops two elements if a comparison fails in a run of two (`SortConserves`, `KeepsAllIffTrivial`).
- Of equal neighbours the last one is kept, and appending unique elements ignores the element the list ends with
  (`UniqueIsFold`, `AppendIgnoresLast`).
- The sub-range iterator takes its index before it pulls, so it consumes one element less than documented, counts on
  after its end, and shared by threads may yield more than its range (`AgainstDocumentation`, `ComesBack`,
  `AlwaysDocumentedIffRobust`).
- Removing an equal neighbour in place moves two cells too many (`UniqueInPlace`).
- Printing an error whose text cannot be built frees its entry twice (`Print`); popping a state block twice ties the chain
  into a cycle unless nothing was stored (`SecondPopTiesKnot`).
- The hash map's bucket count is a power of two only for some sizes (`CapacityIsPowerIffOneBlock`); `FindKeyIndex` and
  `PopSomething` rely on the first bucket being in use; deleting from an empty map leaves its lock held, and a key
  comparison that raises makes some operations unlock twice.
- Deleting a class operator keeps the table in order only for the last of several entries (`DelOperator`).
- The marshal keeps the sharing of announced objects only, and merges deeply equal ones (`ReadAsOne`, `ShapeKeptIff`).
- For lists the deep comparison takes both elements of each pair from the first list, so that lists which `==` takes for
  equal are deeply equal whatever they hold. As `true == 42`, a list may be read back as another one (`ListsMerged`;
  `DeepMeansIff` and `RoundTripOfGraphs` say when it is not).
- The deep comparison does not notice that it is comparing two objects already, and may never end; writing then does
  not end either (`DeepEndsIff`, `WritingEndsIff`), which may depend on what is written first (`OrderDecides`). An answer of "likely" counts as equal, so what is said about
  reading back rests on `==` of user-defined classes telling different objects apart (`Honest`).
- `FindKeyIndex` reports a key whose hash raises as one that is not there.
- A stream may define a second id for an object inside it; if reading it fails, a reference to it is left (`AliasStays`).

## Model

| member | source | states |
|---|---|---|
| `ErrorTypes.DerivedIff` | include/deemon/error.h:139-162 | a type is the same as or derived from another if and only if steps from type to base lead there |
| `ErrorTypes.WalkBases` | src/deemon/type.c:354-365 | walking up the base pointers finds a type if and only if steps from type to base lead to it |
| `ErrorTypes.DerivedTransitive` | include/deemon/error.h:139-162 | a type derived from a derived type is derived from the base |
| `ErrorTypes.DerivedAntisymmetric` | include/deemon/error.h:139-162 | types that derive from each other are one type |
| `ErrorState.BlocksMoveNothing` | include/deemon/error.h:390-398 | opening or closing a state block neither loses nor reorders a pending error, visible or hidden |
| `ErrorState.StepSplitsPending` | src/deemon/error.c:279-421 | every call gives up a prefix of the errors that are pending, newest first, and keeps the rest in order |
| `ErrorState.Conservation` | include/deemon/error.h:166-293 | over every well-nested run: raised plus pending before is dropped plus pending after, as multisets |
| `ErrorState.OrderKept` | include/deemon/error.h:400-433 | over every run the visible and the hidden chains together read from newest to oldest |
| `ErrorState.RunIgnoresEnclosing` | include/deemon/error.h:391-398 | errors stored by enclosing blocks neither influence a run inside nor are changed by it |
| `ErrorState.BlockTheorem` | include/deemon/error.h:391-433 | a state block acts as in a thread without pending errors, and leaves what its body left in front of what was pending |
| `ErrorState.PreservingBlock` | include/deemon/error.h:381-389 | the documented idiom, a block that ends by handling everything, leaves the thread exactly as it found it |
| `ErrorState.CatchVersusHandle` | include/deemon/error.h:198-293 | success of Handle or Catch means nothing is pending, 1 from HandleOne that only the newest error is gone; Handle and Catch agree exactly if the newest error does not match or is the only one |
| `ErrorState.WiderClauseCatches` | include/deemon/error.h:280-293 | a clause for a base type catches whatever a clause for a derived type catches |
| `ErrorState.HandlingOneByOne` | include/deemon/error.h:252-256 | handling one error at a time drops newest first and reports 1 until the last one, which reports 0 |
| `ErrorChain.NoNodeTwice` | include/deemon/error.h:413-417 | a chain that ends passes no node twice |
| `ErrorChain.OneChain` | include/deemon/error.h:413-417 | memory and head pointer decide the chain |
| `ErrorChain.SpliceJoins` | include/deemon/error.h:409-430 | the tail walk and splice turn two chains without common node into one, newer errors in front |
| `ErrorChain.SecondPopTiesKnot` | include/deemon/error.h:409-430 | after closing one block twice the chain ends if and only if the block had nothing stored |
| `ErrorChain.FreedTwice` | src/deemon/error.c:221-228 | freeing a node that is on the free list makes that list endless, wherever the node was |
| `ErrorChain.OpenBlock` | src/deemon/error.c:604-614 | storing the visible chain keeps all chains ended and disjoint and is the push of the state model |
| `ErrorChain.CloseBlock` | include/deemon/error.h:409-430 | splicing the stored chain back keeps all chains ended and disjoint and is the pop of the state model |
| `ErrorChain.Thread.TryAlloc` | src/deemon/error.c:179-202 | yields a node that is on no list, from the free list first |
| `ErrorChain.Thread.Throw` | src/deemon/error.c:279-339 | the cell writes raise exactly the given error in front of the pending ones |
| `ErrorChain.Thread.HandledOne` | src/deemon/error.c:341-357 | drops exactly the newest error and reports whether more are pending |
| `ErrorChain.Thread.Handled` | src/deemon/error.c:359-378 | drops all errors, newest first, each once, and recycles their nodes |
| `ErrorChain.Thread.HandleOne` | src/deemon/error.c:381-398 | drops the newest error if its type matches; 1, 0 or -1 as the return table says |
| `ErrorChain.Thread.Handle` | src/deemon/error.c:399-421 | drops all errors if the newest matches; 1 or 0 |
| `ErrorChain.Thread.PopOccurredOne` | src/deemon/error.c:431-451 | hands the newest error to the caller instead of dropping it |
| `ErrorChain.Thread.PushState` | src/deemon/error.c:604-614 | hides the visible chain behind the open blocks |
| `ErrorChain.Thread.BreakState` | include/deemon/error.h:409-430 | the tail walk ends at the last node and only that node, or the head, is written |
| `ErrorChain.Thread.PopState` | src/deemon/error.c:615-622 | leaves what was raised since, then the stored chain unchanged |
| `ErrorChain.Thread.Display` | src/deemon/error.c:545-573 | without text every pending error, those raised on the way included, is dropped |
| `ErrorChain.Thread.Print` | src/deemon/error.c:528-544 | the free list still ends if and only if nothing was pending, the error was to be kept, or its text could be built; then what is printed and dropped is exact |
| `ErrorChain.Thread.Drain` | src/main.c:137-140 | if the text of every error can be built, printing until no error is left ends, with each error dropped once, newest first |
| `ErrorObservers.StepKeepsInv` | src/deemon/error.c:334-339 | every step - the preparation of a node nobody else can reach yet, or one access by owner, allocator or observer - keeps memory in order and the chain in step with the operations done |
| `ErrorObservers.ObserversSeeWholeChains` | src/deemon/thread.c:1309-1313 | in every interleaving each completed walk under the lock saw exactly a chain the owner's operations had made, never part of a splice |
| `ErrorObservers.WalkEnds` | src/deemon/thread.c:1309-1313 | in every reachable state a walk ends, after as many steps as there are errors ahead, with the whole chain |
| `ErrorObservers.OperationCompletes` | src/deemon/error.c:279-421 | in every reachable state in which the owner is free it can complete any operation, after an observer that is inside has gone on to the end |
| `ErrorObservers.ChainsStayApart` | include/deemon/error.h:409-430 | in every reachable state the visible and all stored chains end and share no node |
| `MergeSort.Sort` | src/deemon/generic_vtable.c:342-429 | the recursion over buffers computes the specified run: result, cells written and calls made |
| `MergeSort.Merge` | src/deemon/generic_vtable.c:397-423 | the merge loop over two buffers computes the specified merge, the copied rest included |
| `MergeSort.SortConserves` | include/deemon/generic_vtable.h:124-131 | what is written and the pair a failing run of two left out are together the input, for every predicate |
| `MergeSort.LostMeansFailed` | src/deemon/generic_vtable.c:349-358 | elements are missing only after a failure, and then they are two neighbours of the input |
| `MergeSort.KeepsAllIffTrivial` | include/deemon/generic_vtable.h:124-131 | all data is transferred under every predicate if and only if there is at most one element |
| `MergeSort.SortInOrder` | include/deemon/list.h:218-226 | a sort that reports success has put its input in order, if errors are ignored only where the order says "not less" |
| `MergeSort.SortSucceedsIff` | src/deemon/generic_vtable.c:342-429 | a sort reports success if and only if none of the comparisons it makes fails |
| `MergeSort.FailureIsReported` | src/deemon/generic_vtable.c:342-429 | sort and merge succeed if the predicate never fails, and fail if it fails at a call that was made |
| `MergeSort.SortSorts` | include/deemon/list.h:218-226 | with an order and a predicate that never fails a sort succeeds, keeps all elements, puts them in order and is stable |
| `MergeSort.SortStable` | src/deemon/generic_vtable.c:398-417 | elements the order does not tell apart keep their order, also when the sort fails without losing any |
| `MergeSort.List.SortInPlace` | src/deemon/list.c:1583-1639 | the list is replaced by the sorted elements, left as others changed it, or left alone after an error |
| `MergeSort.PublishKeepsElements` | src/deemon/list.c:1623-1638 | no element another thread stored meanwhile is lost, exactly unless it was stored in the same vector without a change of length |
| `MergeIterators.Merge` | src/deemon/generic_vtable.c:664-707 | the loop over two iterators computes the specified merge, and fails if an iterator or a comparison does |
| `MergeIterators.ZipSucceedsIff` | src/deemon/generic_vtable.c:664-707 | there is a result if and only if none of the comparisons made fails |
| `MergeIterators.MergeShuffles` | include/deemon/generic_vtable.h:146-152 | the result is a shuffle of both inputs, each whole and in its own order, sorted or not |
| `MergeIterators.ShuffleConserves` | include/deemon/list.h:262-268 | a shuffle has exactly the elements of both inputs |
| `MergeIterators.ZipInOrder` | include/deemon/generic_vtable.h:146-152 | merging two ordered inputs gives an ordered result |
| `MergeIterators.ZipIsRightFirst` | src/deemon/generic_vtable.c:683-705 | with a predicate that never fails the merge is the one that prefers the right element on ties |
| `MergeIterators.TieRule` | include/deemon/list.h:262-268 | for distinct elements the merge is the documented one if and only if it meets no tie |
| `MergeIterators.OrderedTie` | include/deemon/list.h:262-268 | a merge of ordered inputs meets a tie if and only if an element of one ties with an element of the other |
| `MergeIterators.DocumentedTie` | include/deemon/list.h:268 | the documented tie rule gives the documented second example |
| `MergeIterators.WrittenTie` | src/deemon/generic_vtable.c:694-705 | the code gives another list for the second documented example |
| `MergeIterators.SortedList.SortedInsert` | src/deemon/list.c:2421-2440 | steps over what is less or has no operator; inserts in front of the first other element if that is not less, fails and changes nothing if it cannot be compared |
| `MergeIterators.InsertIsMerge` | include/deemon/list.h:254-272 | sorted insertion is merging with a one-element list, exactly unless an error is ignored on the way |
| `MergeIterators.InsertKeepsOrder` | include/deemon/list.h:254-260 | an ordered list stays ordered and gains exactly the new element |
| `Unique.List.RemoveAt` | src/deemon/list.c:1730-1733 | removes exactly the element; it touches cells outside the vector if and only if that has no room for two elements more |
| `Unique.List.UniqueInPlace` | src/deemon/list.c:1713-1743 | the in-place loop computes the specified run, after an error the rest stays; it stays inside the vector if and only if nothing is removed or there is room for two elements more |
| `Unique.ToUnique` | src/deemon/list.c:1782-1841 | the copying loop gives the same elements, or no list after an error |
| `Unique.AppendUniqueIterator` | src/deemon/list.c:1910-1926 | the appending loop adds the same elements behind the list, without the undecided one after an error |
| `Unique.RunSucceedsIff` | src/deemon/list.c:1721-1740 | there is no error if and only if no comparison of neighbours breaks |
| `Unique.RunUntilBroken` | src/deemon/list.c:1721-1740 | up to the first comparison that breaks all is as if the list ended there, and the rest stays |
| `Unique.RunKeepsLast` | src/deemon/list.c:1721-1740 | without error exactly the elements that do not equal the one behind them stay |
| `Unique.FixedPoints` | include/deemon/list.h:228-236 | exactly the lists without equal neighbours are left as they are |
| `Unique.Idempotent` | include/deemon/list.h:228-236 | for an equivalence a second pass removes nothing |
| `Unique.WithoutTransitivity` | include/deemon/list.h:229-230 | for other predicates a second pass may remove more, and keeping first elements differs in length |
| `Unique.UniqueIsFold` | include/deemon/list.h:239-240 | for an equivalence, unique and appending one by one unless equal to the last agree up to equality |
| `Unique.AppendIgnoresLast` | include/deemon/list.h:239-240 | appending to a list adds one element too many if and only if the first equals the one the list ends with |
| `Unique.MacroBalancesIffOwnIterator` | include/deemon/list.h:242-248 | the inline form of appending from a sequence keeps all references; what the macro form does to them keeps them if and only if the sequence is its own iterator, else a new iterator is left over and a sequence with one reference is gone |
| `Unique.UniqueOfOrdered` | include/deemon/list.h:228-230 | the unique elements of an ordered list are strictly increasing, come from it, and represent all of it |
| `SubRange.SubRangeIterator.Next` | src/deemon/iterator.c:467-477 | one call yields, ends or fails as specified and leaves counter and source as specified |
| `SubRange.SubRangeExact` | include/deemon/iterator.h:118-133 | a fresh iterator yields exactly the range, consumes exactly the elements in front of its end, and fails only if the source does before |
| `SubRange.AgainstDocumentation` | include/deemon/iterator.h:125-133 | the documented program yields the same and consumes the same if and only if the source does not go on |
| `SubRange.SubRangesFuse` | include/deemon/iterator.h:121-124 | a sub-range iterator over a sub-range iterator yields what one with saturating bounds does; code and source left agree if and only if the outer end is not zero or there is nothing to skip |
| `SubRange.ComesBack` | src/deemon/iterator.c:470-471 | a drained iterator yields again if and only if its range is not empty and the source has more than begin + end elements; then when its counter has wrapped, and not before |
| `SubRangeThreads.IndicesDistinct` | src/deemon/iterator.c:467-477 | however calls interleave no two elements share an index, none is pulled twice, and the indices used form a prefix |
| `SubRangeThreads.AlwaysDocumentedIffRobust` | src/deemon/iterator.c:467-477 | every complete interleaving yields the documented number of elements if and only if the source is long enough, or nothing is skipped, or nothing is yielded |
| `SubRangeThreads.Finish` | src/deemon/iterator.c:467-477 | every state can run to completion, and elements once yielded stay yielded |
| `SubRangeThreads.EnumerationMaySkip` | src/deemon/iterator.c:788-797 | one thread numbers the elements from zero; two threads may leave a number out |
| `SubRangeDocumented.AlwaysAsDocumented` | include/deemon/iterator.h:125-133 | in the documented order, pull and then number: every complete interleaving numbers all elements pulled, each once, without gap, and yields exactly the range; enumeration is the case without bounds |
| `SubRangeDocumented.RunsOut` | include/deemon/iterator.h:125-133 | every state of that program can be run to completion |
| `Capacity.FindCapacity` | src/deemon/dict.c:64-72 | the bit loop adds the lowest bit that is set |
| `Capacity.WantedExactly` | src/deemon/dict.c:64-72 | the number of buckets is the capacity of the load rounded up |
| `Capacity.CapacityIsPowerIffOneBlock` | include/deemon/optional/hashmap.h:94 | the bucket count is the documented power of two if and only if the bits of the load form one block |
| `Capacity.NoBucketsIffEmpty` | src/deemon/dict.c:624-625 | no buckets are wanted if and only if the map is empty or its load factor is zero |
| `HashTable.DecidesOnce` | src/deemon/dict.impl.hashmap.inl:1219-1254 | only one node decides a search: it raises if and only if `==` raises for that one |
| `HashTable.SearchIsLookup` | src/deemon/dict.impl.hashmap.inl:1219-1254 | if the node that decides is one for an equal key it is the map's entry, and if none decides the map has none |
| `HashTable.AddRepresents` | src/deemon/dict.impl.hashmap.inl:1016-1037 | a node put in front of its bucket adds exactly its entry |
| `HashTable.RemoveRepresents` | src/deemon/dict.impl.hashmap.inl:1568-1572 | unlinking a node removes exactly its entry |
| `HashTable.RehashRepresents` | src/deemon/dict.c:538-602 | rehashing to any number of buckets changes where nodes are, not what they represent |
| `HashTable.EnumeratesOnce` | include/deemon/optional/hashmap.h:114-118 | walking the buckets meets every entry exactly once, whatever the bucket layout |
| `HashMap.Map.UpdateValidBuckets` | src/deemon/dict.c:522-534 | finds the first and the last bucket in use |
| `HashMap.Map.Rehash` | src/deemon/dict.c:538-602 | moves every node, in order, to the front of its new bucket, and the range in use is tight again |
| `HashMap.Map.TakeOut` | src/deemon/dict.impl.hashmap.inl:733-742 | the map loses exactly the entry of the node that is unlinked |
| `HashMap.Map.GiveUpBuckets` | src/deemon/dict.impl.hashmap.inl:743-768 | after a removal the map is in order again, with the smaller of the buckets it had and those the load wants |
| `HashMap.Map.Create` | src/deemon/dict.impl.hashmap.inl:1001-1063 | adds exactly one entry; the first one brings eight buckets, later ones leave the larger of those there were and those the load wants |
| `HashMap.Map.GetNodeEx` | src/deemon/dict.impl.hashmap.inl:1219-1254 | an error, with the lock given up, if and only if `==` raises for the first node it does not pass; else the node if and only if the map has the key |
| `HashMap.Map.GetOrCreate` | src/deemon/dict.impl.hashmap.inl:953-1064 | finds the node or makes one, growing the bucket array when the load demands it |
| `HashMap.Map.SetItem` | src/deemon/dict.impl.hashmap.inl:1717-1730 | unless a comparison raises the key has the item afterwards, an equal key that was there stays and all other entries do; the lock is free again if and only if none raised |
| `HashMap.Map.SetNewItem` | src/deemon/dict.impl.hashmap.inl:1745-1759 | stores only under a new key, else hands out the item that is there |
| `HashMap.Map.SetOldItem` | src/deemon/dict.impl.hashmap.inl:1774-1791 | stores only under a key that is there and hands out the old item |
| `HashMap.Map.SetDefault` | src/deemon/dict.impl.hashmap.inl:849-864 | gives the item under the key after storing the default if there was none |
| `HashMap.Map.GetDefault` | src/deemon/dict.impl.hashmap.inl:896-907 | gives the item under the key or the default, changing nothing |
| `HashMap.Map.Pop` | src/deemon/dict.impl.hashmap.inl:695-780 | removes exactly the entry and gives its item, else the default |
| `HashMap.Map.DelItem` | src/deemon/dict.impl.hashmap.inl:1533-1610 | removes exactly the entry; the lock is free again if and only if the map was not empty |
| `HashMap.Map.PopSomething` | src/deemon/dict.c:605-652 | removes and gives an entry of a map that is not empty, if and only if the very first bucket is in use |
| `HashMap.Map.GetNodeIndex` | src/deemon/dict.c:661-678 | the entry at an index is the one the enumeration has there, so keys, items and pairs share indices |
| `HashMap.Map.FindKeyIndexWithKnownBucket` | src/deemon/dict.impl.hashmap.inl:1839-1853 | gives the index at which the enumeration has the key, if and only if the very first bucket is in use |
| `HashMap.Map.FindKeyIndex` | src/deemon/dict.impl.hashmap.inl:1812-1818 | -1 for a key that is not there or cannot be hashed, -2 if and only if a comparison raised |
| `VTable.VTable.GetOperator` | src/deemon/class/class.c:73-83 | the list answers what the record has for the slot |
| `VTable.VTable.SetOperator` | src/deemon/class/class.c:118-149 | setting a slot sets it in the record, and the references held are those of the callbacks stored |
| `VTable.VTable.DelOperator` | src/deemon/class/class.c:84-117 | deleting a slot leaves the table in order if and only if its entry is the last, but not the only one; else all others are kept but the last, or the memory is freed |
| `VTable.VTable.Visit` | include/deemon/class.h:84-89 | reports every reference the table holds, each once |
| `VTable.VTable.Quit` | include/deemon/class.h:90-96 | its loop drops each reference while it is owned, in the end all of them, the same and in the same order as a visit reports |
| `VTable.VTable.Clear` | include/deemon/class.h:97-101 | leaves a table that is empty and can be visited |
| `DeepEquals.EqualIsAgree` | src/deemon/generic_vtable.c:303-325 | comparing in step up to the first difference answers true if and only if everything held in the same place compares equal |
| `DeepEquals.CompareEndsIffNoRing` | src/deemon/generic_vtable.c:303-325 | a comparison ends if and only if it comes to no pair that comes up again while it is being compared |
| `DeepEquals.DeepIsMatches` | src/deemon/object.deep_equals.inl:31-147 | the deep comparison answers true if and only if the objects are one or compare equal, and have one type down to the lists among them; what lists hold is not looked at |
| `DeepEquals.DeepEndsIff` | src/deemon/object.deep_equals.inl:31-147 | the deep comparison ends if and only if the types differ, the objects are one, or comparing them ends |
| `DeepEquals.AlikeIffOneType` | include/deemon/optional/object_compare.h:80-87 | objects that compare equal cannot be told apart by following references if and only if what they hold in the same place, however deep, has one type |
| `DeepEquals.DeepMeansIff` | include/deemon/optional/object_compare.h:80-87 | deeply equal objects cannot be told apart if and only if lists that compare equal hold objects of one type in the same place |
| `DeepEquals.TwoRings` | src/deemon/object.deep_equals.inl:45 | two lists that each hold only themselves: their comparison never ends |
| `Marshal.WriteKeepsIds` | src/deemon/marshal.c:84-103 | registered objects keep their ids, no object is registered twice, and only announced objects are |
| `Marshal.RoundTrip` | include/deemon/marshal.h:230-258 | whenever writing ends reading succeeds, and gives back what cannot be told from the original, shared or cyclic, if and only if nothing was taken for what can be told apart from it |
| `Marshal.ReadAsOne` | src/deemon/marshal.write_object.base.inl:47-76 | two objects in a row are read as one if and only if the second finds the id of the first |
| `Marshal.SharingKept` | src/deemon/marshal.write_object.base.inl:58-76 | an object written twice in a row is read as one if and only if it is announced or has an id already |
| `MarshalOrder.SameVisitAll` | src/deemon/marshal.write_object.base.inl:28-78 | walks by rules that agree on everything compared are the same |
| `MarshalOrder.SameOrderAll` | src/deemon/marshal.write_object.base.inl:28-78 | objects that are not merged, with all that leads to them, are met and compared in one order whatever else is merged |
| `MarshalEnds.WriteAllFollows` | src/deemon/marshal.c:104-122 | writing ends if and only if the walk does and every comparison on it; then it registers what the walk remembers and takes for something else what was compared and found equal |
| `MarshalEnds.WriteEndsIffAnswered` | src/deemon/marshal.write_object.base.inl:28-78 | if every ring has an announced object, writing ends if and only if every comparison does |
| `MarshalEnds.WriteEndsIff` | src/deemon/marshal.write_object.base.inl:28-78 | if what meets a ring is not merged, writing ends if and only if every ring that can be reached has an announced object and every comparison of the plain depth-first walk ends |
| `MarshalEnds.WriteAllServes` | src/deemon/marshal.write_object.base.inl:45-52 | everything that is met is written, registered or taken for a registered object |
| `MarshalEnds.WriteAllAccounts` | src/deemon/marshal.write_object.base.inl:45-76 | roots and what written objects hold are met; what is met is written or taken for a registered object |
| `MarshalEnds.WriteAllKeepsApart` | src/deemon/marshal.c:84-122 | registered objects were compared with all registered before and found to be others |
| `MarshalShape.AllWrittenAsOftenAsMet` | src/deemon/marshal.write_object.base.inl:45-76 | an object that is not announced is written as often as it is met, as a root or in a written object |
| `MarshalShape.AllAnnouncedOnce` | src/deemon/marshal.write_object.base.inl:58-76 | an announced object is written once, when it is registered |
| `MarshalShape.WrittenOnceIffHeldOnce` | include/deemon/marshal.h:45-51 | if nothing is taken for something else: no object is written twice if and only if each one not announced is held in one place only |
| `MarshalShape.SameShapeIff` | include/deemon/marshal.h:45-51 | objects and references read are one to one those written if and only if each object not announced is held in one place only and nothing was taken for something else |
| `MarshalGraphs.TrackedIsCut` | src/deemon/marshal.c:612-637 | every ring has an announced object if and only if every ring has one that is tracked or of a type that is always announced |
| `MarshalGraphs.RegisteredExactly` | src/deemon/marshal.write_object.base.inl:56-76 | registered are exactly objects of always announced types and tracked ones that lead to themselves, all of them that are met unless taken for a registered one |
| `MarshalGraphs.WritingEndsIff` | src/deemon/marshal.write_object.base.inl:28-78 | if `==` looks through both sides of what meets a ring: writing ends if and only if every ring has such an object and every comparison ends of an object with the announced ones met before it in depth-first order; a tuple may hold a list that holds the tuple |
| `MarshalGraphs.TrackedEndsIff` | src/deemon/marshal.write_object.base.inl:28-78 | for all objects, if every ring has such an object: writing ends if and only if every comparison does on the walk that merges what is deeply equal |
| `MarshalGraphs.RoundTripOfGraphs` | include/deemon/marshal.h:230-258 | what is read cannot be told from what was written if and only if whatever is compared on the walk and deeply equal holds objects of one type in the same place |
| `MarshalGraphs.ShapeKeptIff` | include/deemon/marshal.h:45-51 | sharing and rings are kept one to one if and only if each object not announced is held in one place only and nothing compared on the walk is deeply equal |
| `MarshalGraphs.MergesInOrder` | include/deemon/marshal.h:45-51 | if every ring has such an object, whether anything is merged can be seen on the plain walk |
| `MarshalExamples.TwoRingsNeverEnd` | src/deemon/marshal.c:104-122 | two lists that each hold only themselves cannot be written to one stream |
| `MarshalExamples.OrderDecides` | src/deemon/marshal.c:104-122 | a list of 42 and itself and one of true and itself can be written in one order only |
| `MarshalExamples.ListsMerged` | src/deemon/object.deep_equals.inl:122-146 | a list of true and a cell comes back as the list of 42 and that cell which the cell holds |
| `Marshal.WriteMap.RegisterID` | src/deemon/marshal.c:84-103 | registers an object under an id that was never used |
| `Marshal.WriteMap.FindObject` | src/deemon/marshal.c:104-122 | finds the first registered object that is the same or deeply equal, unless a comparison before it does not end |
| `Marshal.ReadMap.Pop` | src/deemon/marshal.c:255-273 | takes out the youngest reference to an object |
| `Marshal.ReadMap.Get` | src/deemon/marshal.c:274-284 | gives the object an id stands for |
| `Marshal.PopUndoesPush` | src/deemon/marshal.c:1330-1337 | taking a reference out after a failed read undoes its registration and leaves those made since |
| `Marshal.FailedReadForgets` | src/deemon/marshal.c:1330-1337 | a failed read keeps older references and leaves none to its object if and only if no second id was defined for it inside |
| `Marshal.AliasStays` | src/deemon/marshal.c:883-897 | a stream after which an object that could not be read is still referred to |
| `DescriptorTickets.TicketsProtect` | src/deemon/file/file.fd.h:108-150 | in every interleaving a descriptor is destroyed at most once, never while a ticket is out, and no ticket is granted once it is closed |
| `DescriptorTickets.StepKeepsInv` | src/deemon/file/file.fd.h:108-150 | every single step keeps the count of users equal to the number of tickets and the lock with one thread |
| `DescriptorTickets.TicketIfValid` | src/deemon/file/file.fd.h:108-118 | a thread that enters gets a ticket if and only if the descriptor is valid |
| `DescriptorTickets.ClosedIfUnused` | src/deemon/file/file.fd.h:129-148 | a thread that closes a valid descriptor without users destroys it, else it waits without the lock |
| `DescriptorTickets.SomebodyMoves` | src/deemon/file/file.fd.h:108-150 | whoever has the lock can go on, and if nobody has it everybody can |

## Left out

- ErrorChain.Thread: the nodes are cells in a memory map with addresses instead of Dafny objects, so that pointer writes, aliasing and double frees are explicit; the free list is the thread's own, while in C all threads share one under a lock of its own.
- ErrorChain.Thread.Throw: running out of memory, which re-uses the newest entry or ends the process, is not modelled, and tracebacks are part of the error.
- ErrorChain.Thread.PopOccurredOne: reference counts are not modelled, so neither is the moment at which the error's reference is dropped.
- ErrorState.CatchVersusHandle: Catch is the default build's form; the legacy build's form is Handle.
- Errors being handled by user code (`t_handling_exception`), which are kept in a second chain.
- MergeSort.Sort: failure to allocate a buffer is not modelled.
- MergeIterators.Merge: the two iterators are different objects; merging an iterator with itself is not modelled.
- MergeIterators.SortedList.SortedInsert: other threads changing the list between two comparisons are not modelled; the same goes for the loops in `Unique`.
- MergeSort.List.SortInPlace: after a failure in a run of two the C code releases references it reads from cells that were never written.
- Unique.List.RemoveAt: what the cells outside the vector hold, and what writing them does, is not modelled.
- SubRangeThreads.AlwaysDocumentedIffRobust: the counter does not wrap around in the model with threads; `SubRange.ComesBack` covers wrapping for one thread.
- HashMap.Map.GetOrCreate: a key whose hash raises makes every operation fail before the map is touched; only `FindKeyIndex` has that case, the others start with the hash known.
- HashMap.Map: bucket lists are sequences instead of doubly linked nodes; other threads changing the map during a comparison, which makes the search start again, and failing allocations are not modelled.
- HashMap.Map.Rehash: a load factor of zero or less is outside `Valid`; `Capacity.NoBucketsIffEmpty` says what zero does.
- The string-key forms of the dict's operations, which find the same nodes by comparing characters.
- Marshal.Write: byte encodings, type levels, builtin objects and the none singleton are abstracted; ids are unbounded where C has 32 bits.
- DeepEquals.DeepEndsIff: what is iterated is compared by the objects it holds, in order; for all other objects `==` is a parameter that answers at once, structured types compared by memory included. A comparison that raises answers "different". Iterators that make new objects, as those of a dict do, are not modelled, nor are empty cells, of which two cannot be compared.
- MarshalGraphs.WritingEndsIff: cells, instances and other objects that are not iterated may hold objects, but must not meet a ring if `==` takes them for equal to anything; with those, what is merged decides what is met, and `MarshalGraphs.TrackedEndsIff` walks accordingly.
- Unique.MacroBalancesIffOwnIterator: the macro also hands the sequence itself to the appending loop, which fails unless it is an iterator; only the references are modelled.
- The static build's operator record is modelled as a map; the order in which it is visited is not.
- DescriptorTickets: moving a descriptor from one file object to another is not modelled.
- Byte-level views of arrays and of integers in files, which come down to index and digit arithmetic.
- Operating-system calls, foreign functions, floating point, the compiler and the garbage collector.
