# Athanor core, modelled in Dafny

Athanor is a local-search constraint solver for Essence models. During a
search it changes decision variables a little at a time and keeps every
expression's value and "violation" up to date incrementally, instead of
re-evaluating the whole model after each move. This project models the core of
that bookkeeping and proves that the incremental updates keep the invariants
the solver's own sanity checks state.

What is modelled:

- **Index and cache helpers.** These are the fast iterable integer set, the
  renumbering of operand index sets after an insertion or removal, the cache of
  previous operand values, the packed flag set, and the lock that stops
  circular walks through defined variables.
- **Value containers.**
  - Sets are hash-indexed, with a hash ↔ position bijection and an
    order-independent hash total.
  - Multisets keep a count per hash.
  - Explicit function preimages are stored per value.
  - Sequences are kept in plain or injective mode.
  - Partitions assign members to parts.
  - Each container has its try-and-roll-back operations. A callback's verdict
    is a boolean parameter.
- **Domains.** Integer domains are lists of inclusive bounds: their size,
  normalisation, and the search for the bound holding a value. Size attributes
  of collection domains are modelled too, and so is how partition domains
  tighten them.
- **Incremental operators.** The operators modelled are:
  - conjunction, as a sum of violations;
  - disjunction, and minimum/maximum, each kept as an extremum plus the
    positions attaining it;
  - multiset inclusion, as excess counts;
  - all-different, as groups of equal hashes;
  - membership of an integer domain, as the distance to the nearest bound;
  - boolean equality;
  - the integer range;
  - one-level flattening, with the starting index of each inner sequence;
  - the substring quantifier, as sliding windows.
- **Search bookkeeping.** This covers the per-variable violation container and
  the ordering of objective values.
- **The solution validator script.** It splits the solver's output stream into
  solutions at sentinel lines, picks which solutions to validate, and decides
  how the run ends.

Classes model the structures that the source updates in place. Their methods
are proved against specification functions over sequences, sets and maps. The
operators take their operands' current values as parameters. Hash functions
are opaque: `mix` and the member hashes are supplied from outside.

There are nine places where the solver's code does not do what it evidently
means to, and one more in the validator script. They are
listed under "## Findings". For each one, the code is modelled as written, with
a concrete input that shows the problem, next to a corrected version. The rest
of the model uses the corrected version.

## Model

| member | source | states |
|---|---|---|
| FastIterableIntSets.DistinctCardinality | src/utils/fastIterableIntSet.h:52 | contents never repeats an element, so size() equals the number of elements in the set |
| FastIterableIntSets.EraseConsistent | src/utils/fastIterableIntSet.h:35-46 | moving the last element into the erased slot keeps contents and elementIndexes pointing at each other and removes exactly the erased element |
| FastIterableIntSets.FastIterableIntSet.ContentsDistinct | src/utils/fastIterableIntSet.h:48-52 | iterating over contents visits every element once |
| FastIterableIntSets.FastIterableIntSet.constructor | src/utils/fastIterableIntSet.h:14-16 | the set starts empty, with one slot per value of minElement..maxElement |
| FastIterableIntSets.FastIterableIntSet.Count | src/utils/fastIterableIntSet.h:18-20 | 1 when the element is in the set, 0 otherwise |
| FastIterableIntSets.FastIterableIntSet.Size | src/utils/fastIterableIntSet.h:52 | the number of elements in the set |
| FastIterableIntSets.FastIterableIntSet.Insert | src/utils/fastIterableIntSet.h:22-33 | reports an insertion exactly when the element was absent; the set becomes the old set plus the element; contents grows by one only on an insertion; the two vectors stay consistent |
| FastIterableIntSets.FastIterableIntSet.Erase | src/utils/fastIterableIntSet.h:35-46 | returns 1 exactly when the element was present; the set becomes the old set minus the element; nothing changes when it was absent |
| ShiftIndices.ShiftedUpCardinality | src/operators/shiftViolatingIndices.h:6-32 | shifting indices up loses none of them |
| ShiftIndices.ShiftedDownCardinality | src/operators/shiftViolatingIndices.h:34-61 | shifting down loses no index when fromIndex itself is not in the set |
| ShiftIndices.ShiftDownUndoesShiftUp | src/operators/shiftViolatingIndices.h:6-61 | shifting down from the same index undoes shifting up, and fromIndex is free after a shift up |
| ShiftIndices.ShiftUpUndoesShiftDown | src/operators/shiftViolatingIndices.h:6-61 | shifting up undoes shifting down when fromIndex was free |
| ShiftIndices.ScanUpStep | src/operators/shiftViolatingIndices.h:11-15 | one step of the downward scan moves index i - 1 to i if present and leaves i - 1 free |
| ShiftIndices.ScanDownStep | src/operators/shiftViolatingIndices.h:40-44 | one step of the upward scan moves index i + 1 to i if present |
| ShiftIndices.ScanUpBounds | src/operators/shiftViolatingIndices.h:9-15 | scanning from the top of the range down to fromIndex produces exactly the shifted-up set |
| ShiftIndices.ScanDownBounds | src/operators/shiftViolatingIndices.h:38-44 | scanning from fromIndex up to the top produces exactly the shifted-down set |
| ShiftIndices.CollectFrom | src/operators/shiftViolatingIndices.h:19-23 | the buffer holds exactly the set's indices at or above fromIndex (strictly above for the downward shift) |
| ShiftIndices.EraseEach | src/operators/shiftViolatingIndices.h:24-26 | erasing the buffered indices removes exactly them |
| ShiftIndices.InsertEach | src/operators/shiftViolatingIndices.h:27-29 | inserting the buffered indices offset by one adds exactly those |
| ShiftIndices.MovedIsShiftedUp | src/operators/shiftViolatingIndices.h:17-30 | the buffer route (erase the collected indices, insert them plus one) gives the shifted-up set |
| ShiftIndices.MovedIsShiftedDown | src/operators/shiftViolatingIndices.h:46-59 | the buffer route for the downward shift gives the shifted-down set |
| ShiftIndices.ShiftIndicesUp | src/operators/shiftViolatingIndices.h:6-32 | on either branch every index at or above fromIndex moves up by one and the others stay |
| ShiftIndices.ShiftUpByScan | src/operators/shiftViolatingIndices.h:9-15 | the position-by-position strategy leaves exactly the set shifted up from fromIndex |
| ShiftIndices.MoveUp | src/operators/shiftViolatingIndices.h:11-15 | one scan step moves position i - 1, when present, to i, advancing the scan state by one |
| ShiftIndices.ShiftUpByBuffer | src/operators/shiftViolatingIndices.h:17-30 | the collect-erase-reinsert strategy leaves exactly the set shifted up from fromIndex |
| ShiftIndices.ShiftIndicesDown | src/operators/shiftViolatingIndices.h:34-61 | on either branch every index above fromIndex moves down by one and the others stay |
| PreviousValueCaches.PreviousValueCache.constructor | src/operators/previousValueCache.h:12 | the cache starts empty |
| PreviousValueCaches.PreviousValueCache.Size | src/operators/previousValueCache.h:23 | the number of cached values |
| PreviousValueCaches.PreviousValueCache.Get | src/operators/previousValueCache.h:19-27 | the value returned is the cached value at the index |
| PreviousValueCaches.PreviousValueCache.Set | src/operators/previousValueCache.h:13-17 | the value at the index is replaced and every other value is kept |
| PreviousValueCaches.PreviousValueCache.GetAndSet | src/operators/previousValueCache.h:29-34 | returns the previous value at the index and replaces only that one |
| PreviousValueCaches.PreviousValueCache.Insert | src/operators/previousValueCache.h:35-39 | the value appears at the index; values before stay, values after move up by one |
| PreviousValueCaches.PreviousValueCache.Erase | src/operators/previousValueCache.h:40-44 | returns the erased value; values after it move down by one, and putting it back gives the old contents |
| PreviousValueCaches.PreviousValueCache.SwapErase | src/operators/previousValueCache.h:46-50 | returns the value at the index, the last value takes its place, the rest stay, and the multiset loses exactly the returned value |
| DefinesLocks.GlobalStamp.constructor | src/operators/definedVarHelper.cpp:17 | the shared round counter starts at 1, above every fresh local stamp |
| DefinesLocks.GlobalStamp.UnlockAll | src/operators/definedVarHelper.h:40-44 | unlockAll advances the round counter by one, wrapping at 2^64 |
| DefinesLocks.DefinesLock.constructor | src/operators/definedVarHelper.h:9 | a new lock has stamp 0 |
| DefinesLocks.DefinesLock.SoftTry | src/operators/definedVarHelper.h:22-25 | a disabled lock never reports that it could be taken |
| DefinesLocks.DefinesLock.IsDisabled | src/operators/definedVarHelper.h:30-32 | disabled exactly when the stamp is the largest 64-bit value |
| DefinesLocks.DefinesLock.TryLock | src/operators/definedVarHelper.h:12-21 | succeeds exactly when softTry held before; afterwards the lock cannot be taken again in this round; a failure changes nothing; a disabled lock stays disabled |
| DefinesLocks.DefinesLock.Disable | src/operators/definedVarHelper.h:27-28 | the lock is disabled and cannot be taken |
| DefinesLocks.DefinesLock.Reset | src/operators/definedVarHelper.h:33-38 | reports whether the stamp was set, clears it, and the lock can then be taken |
| DefinesLocks.UnlockAllReleases | src/operators/definedVarHelper.h:40-44 | a lock taken in this round can be taken again after unlockAll |
| HashSums.SwapRemove | src/types/set.h:51-55 | removing position i moves the last entry into i and drops the last position; every other entry stays put |
| HashSums.SwapRemoveMultiset | src/types/set.h:51-55 | a swap-with-last removal loses exactly the removed entry and nothing else |
| HashSums.SwapRemoveLast | src/types/set.h:51-55 | removing the last position is just dropping it |
| HashSums.SwapRemoveUndo | src/types/setVal.h:121-125 | re-appending the removed entry and swapping it back into its position restores the original order |
| HashSums.MixSumAppend | src/types/set.h:36-39 | appending a hash adds its mix to the cached total |
| HashSums.MixSumUpdate | src/types/set.h:69-76 | replacing one hash changes the total by the difference of the two mixes |
| HashSums.MixSumSwapRemove | src/types/set.h:49-50 | a swap-with-last removal takes exactly the removed hash's mix off the total |
| HashSums.MapRemoveCard | src/types/set.h:49 | erasing a present key shrinks the hash map by one |
| HashSums.MapSumRemove | src/types/mSet.h:32-40 | the total of the counts loses exactly the count of a key taken out |
| HashSums.MapSumUpdate | src/types/mSet.h:28-31 | setting one key's count changes the total by the difference |
| HashSums.Hashes | src/types/set.h:91-99 | the hash of each member, position by position |
| Sets.UpdatedAt | src/types/set.h:91-99 | writing new hashes at some positions keeps the length |
| Sets.UpdatedAtFacts | src/types/set.h:91-99 | after writing the positions of indices in turn, the written positions hold the new hashes and every other position its old one |
| Sets.UpdatedAtSum | src/types/set.h:83-99 | the two loops of membersChanged move the cached total from the old hashes to the new ones |
| Sets.InsertedFacts | src/types/set.h:91-99 | inserting pairwise different fresh hashes maps each to its index and keeps every other key |
| Sets.FreshNotInBase | src/types/set.h:95 | a changed member's new hash is not the hash of an unchanged member once the old hashes are erased |
| Sets.RemoveUndoMap | src/types/setVal.h:119-125 | re-adding the removed member and swapping the two map entries restores the hash-to-index map of before the removal |
| Sets.RestoredMaps | src/types/setVal.h:168-181 | the rollback of tryMembersChange puts back exactly the old hash-to-index map and the old hashes |
| Sets.RestoredSeq | src/types/setVal.h:174-179 | writing the saved hashes back restores the cached hash of every position |
| Sets.RestoredFresh | src/types/setVal.h:171-179 | the saved hashes are absent once the new ones are erased, and pairwise different, so reinserting them loses none |
| Sets.RestoredKeys | src/types/setVal.h:174-179 | reinserting the saved hashes rebuilds the old map exactly |
| Sets.SetView.constructor | src/types/set.h:20-23 | a new set is empty with a zero cached total |
| Sets.SetView.SizesAgree | src/types/set.h:177 | the two maps and the member list always have the same size |
| Sets.SetView.ContainsMember | src/types/set.h:167-175 | true exactly when some member has the same hash |
| Sets.SetView.NumberElements | src/types/set.h:177 | the number of members, which is also the number of hashes recorded |
| Sets.SetView.AddMember | src/types/set.h:25-40 | adds exactly when no member has the same hash: appends the member and its hash, maps the hash to the last index and adds its mix to the total; otherwise nothing changes; the set stays valid |
| Sets.SetView.RemoveMember | src/types/set.h:42-60 | returns the member at index; member list and hash list lose that position by swap-with-last; the moved member's hash is re-pointed at index; the total loses the removed hash's mix |
| Sets.SetView.RemoveIndexed | src/types/set.h:48-58 | after the swap-with-last removal the two maps still point at each other |
| Sets.SetView.MemberChanged | src/types/set.h:62-78 | re-reads the hash at index; the maps move from the old hash to the new one and the total changes by the mix difference; an unchanged hash leaves everything as it was |
| Sets.SetView.ChangeHash | src/types/set.h:69-76 | re-keys one position to a fresh hash, keeping the maps consistent and the total exact |
| Sets.SetView.MembersChanged | src/types/set.h:80-101 | after both loops every member's cached hash is its current hash and the set is valid again |
| Sets.SetView.ChangedValid | src/types/set.h:80-101 | the state the two loops leave satisfies the whole invariant, total included |
| Sets.SetView.ForgetHashes | src/types/set.h:83-90 | the first loop erases exactly the old hashes of the changed members and takes their mixes off the total |
| Sets.SetView.RecordHashes | src/types/set.h:91-100 | the second loop inserts the new hashes, records them per position and adds their mixes |
| Sets.SetView.ChangedIndexed | src/types/set.h:80-101 | after the two loops the hash-to-index and index-to-hash maps agree again |
| Sets.SetView.TryAddMember | src/types/setVal.h:71-89 | the member ends up added exactly when it was absent and the addition is accepted; a rejected addition leaves members, maps and total as they were |
| Sets.SetView.TryRemoveMember | src/types/setVal.h:104-131 | an accepted removal returns the member and removes it as removeMember does; a rejected one returns nothing and restores members, maps and total exactly, order included |
| Sets.SetView.TryMemberChange | src/types/setVal.h:133-153 | an accepted change records the new hash; a rejected one puts the old hash back in both maps and the total |
| Sets.SetView.TryMembersChange | src/types/setVal.h:155-183 | an accepted change leaves the set valid with every current hash recorded; a rejected one restores both maps and the total exactly |
| Sets.SetView.RemoveAdded | src/types/setVal.h:84-87 | a rejected addition is removed again, restoring members, both hash maps and the hash total |
| Sets.SetView.ReaddRemoved | src/types/setVal.h:119-130 | a rejected removal is undone: re-adding the member and swapping it back restores every field to its value before the removal |
| Sets.SetView.SwapWithLast | src/types/setVal.h:121-126 | the member at index and the last member exchange places in the member list, the hash list and the hash-to-index map; the hash total is unchanged |
| Sets.SetView.UndoMembersChange | src/types/setVal.h:170-181 | the rejected change is rolled back: total restored, new hashes dropped, old hashes mapped to their indices again |
| Sets.SetView.DropHashes | src/types/setVal.h:171-173 | the first rollback loop erases the new hashes of the changed positions and nothing else |
| Sets.SetView.RestoreHashes | src/types/setVal.h:174-179 | the second rollback loop maps each saved hash back to its index and writes it into the index-to-hash list |
| Sets.SetView.SilentClear | src/types/set.h:103-112 | the set becomes empty with a zero total |
| Sets.SetDomain.constructor | src/types/setVal.h:16-21 | the maximum size is trimmed to the member domain's size at construction, the minimum size and size type kept |
| Sets.SetDomain.TrimMaxSize | src/types/setVal.h:34-46 | the maximum size becomes the smaller of itself and the member domain's size; the call fails exactly when that falls below the minimum size |
| MultiSets.CountsAdd | src/types/mSet.h:28-31 | the count of the hash goes up by one and every other count is unchanged |
| MultiSets.CountsRemove | src/types/mSet.h:32-40 | the count of the hash goes down by one, every other count is unchanged, and the key is erased exactly when its count reaches zero |
| MultiSets.AddThenRemove | src/types/mSet.h:28-40 | removeHash undoes addHash exactly, so no zero count is left behind |
| MultiSets.CountsSum | src/types/mSet.h:22-23 | counts that tally a list of hashes add up to the length of the list |
| MultiSets.MSetView.constructor | src/types/mSet.h:20-24 | a new multiset is empty with a zero cached total |
| MultiSets.MSetView.AddHash | src/types/mSet.h:28-31 | one more occurrence of the hash, and its mix added to the total |
| MultiSets.MSetView.RemoveHash | src/types/mSet.h:32-40 | one occurrence fewer, the key erased at zero, and the mix taken off the total |
| MultiSets.MSetView.MemberCount | src/types/mSet.h:42-48 | the number of members whose cached hash is the given hash, zero exactly when none has it |
| MultiSets.MSetView.NumberElements | src/types/mSet.h:137 | the number of members, which equals the sum of all counts |
| MultiSets.MSetView.AddMember | src/types/mSet.h:50-59 | the member and its hash are appended, its count goes up by one and the multiset stays valid |
| MultiSets.MSetView.AppendedValues | src/types/mSet.h:50-59 | appending a member, its hash and one count keeps the multiset invariant on the field values |
| MultiSets.MSetView.RemovedValues | src/types/mSet.h:61-74 | the removed member's hash is counted, and swap-removing it with one count less keeps the invariant |
| MultiSets.MSetView.RemoveMember | src/types/mSet.h:61-74 | returns the member at index, removed by swap-with-last from members and hashes, with its hash's count down by one |
| MultiSets.MSetView.MemberChanged | src/types/mSet.h:76-89 | the cached hash at index becomes the member's current hash, the counts and total move with it, and an unchanged hash changes nothing |
| MultiSets.MSetView.MembersChanged | src/types/mSet.h:91-96 | after every listed member is re-read, each cached hash is the member's current hash and the multiset is valid |
| MultiSets.MSetView.SilentClear | src/types/mSet.h:98-103 | the multiset becomes empty with no counts and a zero total |
| FunctionPreimages.AppendIndexed | src/types/function.h:61-63 | appending a fresh hash and recording its position keeps the hash-to-position map exact |
| FunctionPreimages.SwapIndexed | src/types/function.h:88-91 | swapping two hashes and their map entries keeps the map exact |
| FunctionPreimages.SwapRemoveIndexed | src/types/function.h:70-80 | the swap-then-pop removal with the map re-pointed keeps the map exact |
| FunctionPreimages.ChangeIndexed | src/types/function.h:94-99 | re-keying one position to a fresh hash keeps the map exact |
| FunctionPreimages.IndexedUnique | src/types/function.h:43-44 | the hash-to-position map of a valid container is determined by the list of hashes |
| FunctionPreimages.SwapTwice | src/types/function.h:84-92 | swapping the same two positions twice restores the original |
| FunctionPreimages.ExplicitPreimageContainer.constructor | src/types/function.h:41-44 | a new container holds no preimages |
| FunctionPreimages.ExplicitPreimageContainer.Add | src/types/function.h:55-65 | adds exactly when no stored preimage has the same hash: appends preimage and hash and maps the hash to the last position; otherwise nothing changes |
| FunctionPreimages.ExplicitPreimageContainer.Remove | src/types/function.h:66-82 | returns the preimage at index; preimages and hashes lose that position by swap-with-last; the removed hash leaves the map and every other hash stays |
| FunctionPreimages.ExplicitPreimageContainer.Swap | src/types/function.h:83-92 | exchanges the two preimages and their hashes; the map stays exact with the same keys |
| FunctionPreimages.ExplicitPreimageContainer.Change | src/types/function.h:94-99 | position index takes the new hash, and the map moves from the old hash to the new one; the model relies on the new hash being fresh (or unchanged), which the caller's distinct preimages guarantee and the source does not check |
| FunctionPreimages.CachedHashes.constructor | src/types/function.h:104-106 | a zero hash total and no range hashes |
| FunctionPreimages.CachedHashes.AssignRangeHash | src/types/function.h:110-115 | only range hash index changes |
| FunctionPreimages.CachedHashes.SwapRangeHashes | src/types/function.h:116-120 | exchanges two range hashes, a permutation of the list |
| FunctionPreimages.CachedHashes.AddNewHash | src/types/function.h:126 | appends one range hash |
| FunctionPreimages.CachedHashes.RemoveHash | src/types/function.h:127-132 | returns the hash at index and removes it by swap-with-last, losing nothing else |
| IntDomains.RangeSet | src/types/intVal.h:13 | the values lo..hi of one bound |
| IntDomains.RangeCard | src/types/intVal.h:23-29 | a bound first..second holds second - first + 1 values, none when it is empty |
| IntDomains.ValuesIn | src/types/intVal.h:13 | a value belongs to the domain exactly when some bound holds it |
| IntDomains.ValuesConcat | src/types/intVal.h:49-51 | the values of concatenated bound lists are the union of their values |
| IntDomains.NormalisedOrdered | src/types/intVal.h:31-47 | in normalised bounds every later bound starts after an earlier one ends, with a gap |
| IntDomains.SameElementsSameValues | src/types/intVal.h:34 | reordering the bounds does not change the values |
| IntDomains.InsertBound | src/types/intVal.h:34 | inserting into sorted bounds keeps them sorted and adds exactly the one bound |
| IntDomains.SortBounds | src/types/intVal.h:34 | the bounds sorted by (first, second), a permutation of the input |
| IntDomains.SortSorted | src/types/intVal.h:34 | sorting already sorted bounds leaves them as they are |
| IntDomains.NonEmpty | src/types/intVal.h:35-36 | the empty bounds dropped: every kept bound is non-empty and from the input, the values and sortedness are kept |
| IntDomains.NonEmptyAll | src/types/intVal.h:35-36 | nothing is dropped when no bound is empty |
| IntDomains.NonEmptyValues | src/types/intVal.h:35-36 | dropping the empty bounds leaves the set of values unchanged |
| IntDomains.NonEmptyFrom | src/types/intVal.h:35-36 | every bound kept is one of the original bounds |
| IntDomains.NonEmptySorted | src/types/intVal.h:35-36 | dropping the empty bounds keeps a sorted list sorted |
| IntDomains.DomainSizeCounts | src/types/intVal.h:23-29 | on normalised bounds calculateDomainSize is the number of values in the domain |
| IntDomains.RemoveIfKeepTail | src/types/intVal.h:35-36 | remove_if with its new end discarded: the non-empty bounds move to the front and the vector keeps its length |
| IntDomains.MergeAt | src/types/intVal.h:41-44 | bound i takes the larger upper end of the two and bound i + 1 is erased; the rest stay in place |
| IntDomains.MergeSkipping | src/types/intVal.h:37-45 | the merge loop as written never lengthens the bounds |
| IntDomains.NormaliseBoundsAsWritten | src/types/intVal.h:32-47 | the vector the function returns as written: sort, remove_if with its result dropped, then the merge loop that advances after a merge |
| IntDomains.KeptTail | src/types/intVal.h:34-36 | on sorted bounds without empty ones, sort and remove_if change nothing |
| IntDomains.MergeFirstTwo | src/types/intVal.h:37-45 | the as-written loop on three bounds that chain merges only the first two |
| IntDomains.ChainNotUnified | src/types/intVal.h:37-45 | [1..2], [3..4], [5..6] comes back as [1..4], [5..6]: touching bounds left unmerged |
| IntDomains.OverlapBreaksSearch | src/types/intVal.h:37-45 | [1..10], [2..3], [4..5] comes back with a last bound ending at 5, so 7 is reported above the domain though 7 is in it |
| IntDomains.TwoBounds | src/types/intVal.h:23-29 | the values and the size of two bounds, counted separately |
| IntDomains.OverlapMiscounts | src/types/intVal.h:23-29 | the left-over overlapping bounds [1..10], [4..5] are counted as 12 values where there are 10 |
| IntDomains.EmptyBoundKept | src/types/intVal.h:35-36 | [1..2], [5..3] comes back unchanged with the empty bound, and is counted as 1 value where there are 2 |
| IntDomains.EmptyBoundTail | src/types/intVal.h:35-36 | remove_if moves nothing when only the last bound is empty |
| IntDomains.MergingStep | src/types/intVal.h:37-45 | one turn of the corrected loop: merge and stay, or advance past a gap, keeping the values |
| IntDomains.NormaliseBounds | src/types/intVal.h:31-47 | the corrected normalisation: sorted, non-empty, separated by gaps, with exactly the values of the input |
| IntDomains.MergeStep | src/types/intVal.h:41-44 | unifying two overlapping or touching bounds keeps the values |
| IntDomains.FindContainingBound | src/types/intVal.h:71-98 | an empty domain, where the source reports the error and aborts, gives the distinguished result EmptyDomain, and only then; otherwise below the first bound, above the last, the index of the bound holding the value, or the two neighbours the value falls between; on normalised bounds the scan never falls through and finds a bound exactly when the value is in the domain |
| IntDomains.NotInBelow | src/types/intVal.h:76-78 | a value below the first of normalised bounds is not in the domain |
| IntDomains.NotInAbove | src/types/intVal.h:79-81 | a value above the last is not in the domain |
| IntDomains.NotInBetween | src/types/intVal.h:87-92 | a value strictly between two neighbouring normalised bounds is not in the domain |
| IntDomains.IntDomain.constructor | src/types/intVal.h:15-17 | the bounds are normalised, hold the given values, and domainSize counts them |
| IntDomains.IntDomain.Merge | src/types/intVal.h:49-53 | the domain gains exactly the other domain's values and stays normalised with a correct size |
| IntDomains.IntDomain.ContainsValue | src/types/intVal.h:71-103 | None exactly for an empty domain, where the search aborts; otherwise true exactly when the value is in the domain |
| SizeAttrs.NoSize | src/types/sizeAttr.h:21-24 | any size up to the largest UInt |
| SizeAttrs.ExactSize | src/types/sizeAttr.h:25-27 | exactly the given size |
| SizeAttrs.MinSize | src/types/sizeAttr.h:28-31 | at least the given size, up to the largest UInt |
| SizeAttrs.MaxSize | src/types/sizeAttr.h:32-34 | at most the given size |
| SizeAttrs.SizeRange | src/types/sizeAttr.h:36-38 | sizes between the two given sizes |
| Partitions.CeilDiv | src/types/partitionVal.h:29 | l / r rounded up: the smallest q with q * r at least l |
| Partitions.SubWrap | src/types/partitionVal.h:46-48 | unsigned subtraction: a - b when that does not go below zero, always within 64 bits |
| Partitions.PartHashTotalUpdate | src/types/partitionVal.h:113-115 | replacing one part's mixed hash changes the partition's hash total by the difference |
| Partitions.PartHashTotalPadded | src/types/partitionVal.h:89 | new parts whose mixed hash is 0 leave the hash total unchanged |
| Partitions.PartitionDomain.constructor | src/types/partitionVal.h:19-28 | the attributes are fixed at construction: the tightened bounds that fixAttributes assigns, EXACT_SIZE where a minimum meets its maximum, and regular once part sizes are fixed |
| Partitions.PartitionDomain.FixAttributes | src/types/partitionVal.h:30-59 | the new bounds are exactly the tightened values computed from the old ones (predicate Fixed); minimums become at least 1, maximums at most the number of elements, the number of parts at most elements / minimum part size and at least elements / maximum part size rounded up; an attribute is EXACT_SIZE exactly when its minimum equals its maximum and SIZE_RANGE otherwise; a partition with equal part sizes becomes regular; fails only where the source divides by a zero maximum part size |
| Partitions.Max | src/types/partitionVal.h:32-33 | the larger of the two |
| Partitions.Min | src/types/partitionVal.h:35-37 | the smaller of the two |
| Partitions.Resize | src/types/partitionVal.h:89-90 | vector::resize: length n, the old entries kept and new ones filled |
| Partitions.PartitionValue.constructor | src/types/partition.h:35-43 | an empty partition value |
| Partitions.PartitionValue.SetNumberElements | src/types/partitionVal.h:84-95 | n unassigned members, n part records and member-part entries, and every part index 0..n-1 empty; the hash total is kept and still sums the parts' mixed hashes when the part records only grow |
| Partitions.PartitionValue.AssignMember | src/types/partitionVal.h:99-123 | refuses a member whose hash is already present and changes nothing; otherwise records the hash, the member and its part, grows the part's size counter by one (sizes are counters, not derived from the member-to-part map) and moves the part from the empty parts to the parts; the hash total loses the part's old mixed hash and gains its new one, so it keeps summing the parts' mixed hashes |
| Partitions.PartitionValue.TradePartMix | src/types/partitionVal.h:113-115 | the total trades the part's old mixed hash for its new one and still sums the parts' mixed hashes; nothing else changes |
| Partitions.PartitionValue.GrowPart | src/types/partitionVal.h:114-119 | the part's size counter grows by one and the part moves from the empty parts to the parts; nothing else changes |
| Sequences.MakeSequenceDomain | src/types/sequenceVal.h:15-31 | a domain is built exactly when its size attribute has an upper bound (exact, maximum or range), keeping the attribute and injectivity; no size or a minimum size only is refused |
| Sequences.MakeSequenceDomainBySize | src/types/sequenceVal.h:24-31 | the five size constructors: noSize and minSize refused, maxSize, exactSize and sizeRange accepted |
| Sequences.HashTotalUpdate | src/types/sequence.h:53-64 | replacing the member at a position replaces exactly that position's term of the hash total |
| Sequences.HashTotalSwap | src/types/sequence.h:117-128 | swapping two positions changes the total by exactly the four terms swapPositions recomputes |
| Sequences.CountUndefinedConcat | src/types/sequence.h:49 | the number of undefined members of two parts adds up |
| Sequences.CountUndefinedInsert | src/types/sequence.h:78-87 | inserting a member adds one undefined member exactly when it is undefined |
| Sequences.CountUndefinedRemove | src/types/sequence.h:108-110 | removing a member takes one off exactly when it was undefined |
| Sequences.CountUndefinedUpdate | src/types/sequence.h:49 | replacing one member changes the count by that member's contribution only |
| Sequences.CountUndefinedSwap | src/types/sequence.h:117-128 | a swap leaves the number of undefined members alone |
| Sequences.SwappedHashes | src/types/sequenceVal.h:36 | a swap keeps the set of member hashes and their distinctness |
| Sequences.InsertHashes | src/types/sequenceVal.h:63-72 | inserting a member with a new hash keeps the hashes distinct and adds exactly its hash |
| Sequences.RemoveHashes | src/types/sequenceVal.h:119-124 | removing a member of distinct hashes removes exactly its hash |
| Sequences.InsertDistinct | src/types/sequenceVal.h:63-72 | inserting a member with a fresh hash keeps the hashes distinct |
| Sequences.InsertHashSet | src/types/sequenceVal.h:63-72 | inserting a member adds exactly its hash to the hash set |
| Sequences.RemoveDistinct | src/types/sequenceVal.h:119-124 | removing a member keeps the hashes distinct |
| Sequences.RemoveHashSet | src/types/sequenceVal.h:119-124 | removing a member of distinct hashes removes exactly its hash from the hash set |
| Sequences.ReverseRangeHashes | src/types/sequenceVal.h:250-263 | reversing a range keeps the hashes and their distinctness |
| Sequences.ForwardHashes | src/types/sequenceVal.h:290-303 | applying swaps keeps the hashes and their distinctness |
| Sequences.SequenceValue.constructor | src/types/sequenceVal.h:34-36 | an empty sequence with a valid zero hash total |
| Sequences.SequenceValue.ContainsMember | src/types/sequenceVal.h:48-52 | true exactly when some member has the same hash |
| Sequences.SequenceValue.ViewAddMember | src/types/sequence.h:74-90 | inserts at index; the cached total follows a defined member appended at the end and is dropped otherwise; the undefined count grows exactly for an undefined member |
| Sequences.SequenceValue.ViewRemoveMember | src/types/sequence.h:92-115 | removes and returns the member at index; the cached total follows only the removal of the last member; the undefined count drops exactly for an undefined member |
| Sequences.SequenceValue.SwapPositions | src/types/sequence.h:117-128 | exchanges two members and keeps a valid cached total valid |
| Sequences.SequenceValue.SilentClear | src/types/sequenceVal.h:37-40 | no members, no member hashes, an invalid cached total |
| Sequences.SequenceValue.ReassignIndicesToEnd | src/types/sequenceVal.h:53-60 | every id from start onwards becomes its position; earlier ids and everything else are unchanged |
| Sequences.SequenceValue.AddMember | src/types/sequenceVal.h:62-79 | an injective sequence refuses a member whose hash is present and changes nothing; otherwise the member is inserted at index and every id matches its position |
| Sequences.SequenceValue.TryAddMember | src/types/sequenceVal.h:81-109 | the member is inserted exactly when it is not refused and the insertion is accepted; a rejected insertion leaves members, ids and hashes as they were |
| Sequences.SequenceValue.RemoveMember | src/types/sequenceVal.h:111-129 | returns the member at index, removes it, and an injective sequence forgets its hash |
| Sequences.SequenceValue.TryRemoveMember | src/types/sequenceVal.h:131-159 | an accepted removal returns the member and removes it with its hash; a rejected one puts it back at the same index, with members, ids and hashes as they were |
| Sequences.SequenceValue.TrySwapPositions | src/types/sequenceVal.h:197-213 | an accepted swap exchanges the two members; a rejected one leaves members, ids and the cached total as they were |
| Sequences.SequenceValue.ReversePositions | src/types/sequenceVal.h:249-263 | the members of [start, end] come out reversed; with triggering the ids are reset to positions, otherwise they travel with their members |
| Sequences.SequenceValue.ReverseStep | src/types/sequenceVal.h:255-262 | one step of the reversal swaps positions s and e; with trigger the ids stay equal to positions |
| Sequences.SequenceValue.TrySubsequenceReverse | src/types/sequenceVal.h:266-287 | an accepted reversal reverses the range with ids matching positions; a rejected one leaves members, ids and cached total as they were |
| Sequences.SequenceValue.ApplySwapStep | src/types/sequenceVal.h:294-301 | one turn of applySwaps is one more swap of the specified order |
| Sequences.SequenceValue.ApplySwaps | src/types/sequenceVal.h:289-304 | the swaps applied first to last, or last to first when inverse; ids reset to positions only when triggering |
| Sequences.SequenceValue.TrySubsequenceShuffle | src/types/sequenceVal.h:305-328 | the corrected shuffle: an accepted shuffle applies the swaps forwards; a rejected one is undone by the inverse order and restores members, ids and cached total |
| Sequences.SequenceValue.TrySubsequenceShuffleAsWritten | src/types/sequenceVal.h:305-328 | the shuffle as written: a rejected shuffle applies the swaps forwards a second time, leaving members and ids shuffled twice |
| SequenceSwaps.Swapped | src/types/sequence.h:120 | std::swap of two positions: they exchange values, the rest stay |
| SequenceSwaps.SwapTwice | src/types/sequenceVal.h:199-212 | swapping twice restores the sequence, which is how a rejected swap is undone |
| SequenceSwaps.ReverseRange | src/types/sequenceVal.h:250-263 | the swap-inwards loop keeps the length |
| SequenceSwaps.ReverseRangeAt | src/types/sequenceVal.h:250-263 | position k of the result holds s[lo + hi - k] inside the range and s[k] outside |
| SequenceSwaps.ReverseRangeSpec | src/types/sequenceVal.h:250-263 | the same, for every position at once |
| SequenceSwaps.ReverseTwice | src/types/sequenceVal.h:276-284 | reversing the same range twice restores the sequence, so the undo in trySubsequenceReverse works |
| SequenceSwaps.Forward | src/types/sequenceVal.h:292-295 | the first k swaps applied in order keep the length |
| SequenceSwaps.Backward | src/types/sequenceVal.h:292-295 | the last k swaps applied from last to first keep the length |
| SequenceSwaps.Applied | src/types/sequenceVal.h:289-304 | applySwaps after k turns keeps the length |
| SequenceSwaps.AppliedStep | src/types/sequenceVal.h:293-296 | turn k swaps position index + offset with swaps[index] + offset, index counting down when inverse |
| SequenceSwaps.BackwardUndoes | src/types/sequenceVal.h:311-315 | k swaps backwards undo the last k forwards swaps |
| SequenceSwaps.InverseRestores | src/types/sequenceVal.h:311-315 | applying the swaps in inverse order after applying them forwards restores the sequence |
| SequenceSwaps.ForwardTwiceDoesNotRestore | src/types/sequenceVal.h:320-324 | swaps [1, 2] on [0, 1, 2] give [1, 2, 0], and applying them forwards again gives [2, 0, 1], not the original |
| ViolationContainers.ViolationContainer.constructor | src/search/violationContainer.h:20-21 | one zero violation per variable, a zero total, no violating variables and no children |
| ViolationContainers.ViolationContainer.VarViolation | src/search/violationContainer.h:42-44 | the violation of a variable, 0 for an id beyond the vector; never more than the total, and non-zero only for a listed variable |
| ViolationContainers.ViolationContainer.AddViolation | src/search/violationContainer.h:22-31 | the vector grows to hold id if needed; the variable's violation and the total both grow by the amount and no other variable's changes; id is appended to the violating list exactly when its violation was 0; the total stays the sum of the variables' violations |
| ViolationContainers.ViolationContainer.Grow | src/search/violationContainer.h:23-25 | resizing to n adds variables without violation: every variable's violation, the total and the list are unchanged |
| ViolationContainers.ViolationContainer.AddInRange | src/search/violationContainer.h:26-30 | for an id in range: its violation and the total grow by the amount, the id is listed iff it had none, others unchanged |
| ViolationContainers.ViolationContainer.Reset | src/search/violationContainer.h:33-40 | every violation and the total become 0, the vector keeps its length, and the list and children are emptied |
| ViolationContainers.ViolationContainer.ChildViolations | src/search/violationContainer.h:50-62 | returns the child of id, creating an empty one when there was none; afterwards hasChildViolation(id) holds and the container's own violations are unchanged |
| OpMSetSubsetEqs.CalcExcess | src/operators/opMSetSubsetEq.cpp:13-15 | how many more copies of a hash the left multiset holds than the right: zero exactly when left has no more, otherwise the difference |
| OpMSetSubsetEqs.MapSumPositive | src/operators/opMSetSubsetEq.cpp:36-46 | a total of positive excesses is never negative, and zero exactly when there are none |
| OpMSetSubsetEqs.NoExcessIffSubset | src/operators/opMSetSubsetEq.cpp:34-47 | the total excess is zero exactly when the left multiset is a sub-multiset of the right |
| OpMSetSubsetEqs.StoreExcess | src/operators/opMSetSubsetEq.cpp:26-29 | the stored excess of the hash becomes the new one (a zero excess is erased) and every other hash keeps its own |
| OpMSetSubsetEqs.StoreExcessAgrees | src/operators/opMSetSubsetEq.cpp:16-32 | updating one hash's excess and adding the difference to the violation makes that hash agree with the operands again |
| OpMSetSubsetEqs.OpMSetSubsetEq.SanityCheck | src/operators/opMSetSubsetEq.cpp:212-230 | once every hash agrees, the stored excesses are the true excesses, the violation is their total, and it is zero exactly when left is a sub-multiset of right |
| OpMSetSubsetEqs.OpMSetSubsetEq.constructor | src/operators/opMSetSubsetEq.cpp:36-37 | no violation and no stored excesses |
| OpMSetSubsetEqs.OpMSetSubsetEq.UpdateViolation | src/operators/opMSetSubsetEq.cpp:16-32 | re-reads one hash's counts: that hash's stored excess becomes its true excess (erased when zero), every other hash keeps its stored excess, and the violation moves by exactly new minus old excess |
| OpMSetSubsetEqs.OpMSetSubsetEq.Reevaluate | src/operators/opMSetSubsetEq.cpp:34-47 | the excesses of all the left multiset's hashes are recomputed; the violation is zero exactly when left is a sub-multiset of right |
| OpMSetSubsetEqs.OpMSetSubsetEq.MembersChanged | src/operators/opMSetSubsetEq.cpp:102-117 | updating the old hashes and then the new hashes of the changed members brings every hash into agreement |
| OpMSetSubsetEqs.OpMSetSubsetEq.UpdateListed | src/operators/opMSetSubsetEq.cpp:102-117 | updating the excess of each listed hash makes it agree with the operands for every listed hash |
| OpInIntDomains.Abs | src/operators/opInIntDomain.cpp:28-29 | the distance from zero |
| OpInIntDomains.SanityBetween | src/operators/opInIntDomain.cpp:27-33 | between two bounds, the violation is the distance to the nearer bound, attributed to that bound with TOO_LARGE (lower bound) or TOO_SMALL (upper bound) |
| OpInIntDomains.SanityBetweenAsWritten | src/operators/opInIntDomain.cpp:111-118 | the sanity check as written measures the distance to the upper end of the next bound rather than its start |
| OpInIntDomains.SanityAsWrittenRejectsCorrectState | src/operators/opInIntDomain.cpp:111-118 | with bounds [1..2], [8..20] and value 6, reevaluate sets violation 2 towards bound 1, but the check expects violation 4 towards bound 0 |
| OpInIntDomains.NearestBetween | src/operators/opInIntDomain.cpp:27-33 | no domain value lies closer to v than the violation chosen between two bounds |
| OpInIntDomains.NearestBelow | src/operators/opInIntDomain.cpp:34-38 | below the domain no value is closer than the start of the first bound |
| OpInIntDomains.NearestAbove | src/operators/opInIntDomain.cpp:39-43 | above the domain no value is closer than the end of the last bound |
| OpInIntDomains.InBoundPlacement | src/operators/opInIntDomain.cpp:16-20 | a value inside one bound is within the domain's range and between no two bounds |
| OpInIntDomains.InBoundNearest | src/operators/opInIntDomain.cpp:16-26 | a value inside bound k has violation 0 attributed to bound k |
| OpInIntDomains.BetweenNearest | src/operators/opInIntDomain.cpp:27-33 | the between-bounds result is the distance to the nearest domain value |
| OpInIntDomains.BetweenPlacement | src/operators/opInIntDomain.cpp:27-33 | a value strictly between bounds i and i + 1 lies inside the domain's span and in no other gap |
| OpInIntDomains.SearchNearest | src/operators/opInIntDomain.cpp:21-44 | the search over the bounds yields the distance to the nearest value with its bound and direction, in every case |
| OpInIntDomains.BelowNearest | src/operators/opInIntDomain.cpp:34-38 | the below-the-domain result is the distance to the nearest domain value, TOO_SMALL towards bound 0 |
| OpInIntDomains.AboveNearest | src/operators/opInIntDomain.cpp:39-43 | the above-the-domain result is the distance to the nearest domain value, TOO_LARGE towards the last bound |
| OpInIntDomains.OpInIntDomain.constructor | src/operators/opInIntDomain.cpp:134-138 | the operator over a non-empty normalised domain, closest bound 0 |
| OpInIntDomains.OpInIntDomain.Reevaluate | src/operators/opInIntDomain.cpp:12-45 | the violation is the distance from the value to the nearest value of the domain (0 inside it), the closest bound is one attaining it, and the reason says on which side the value lies |
| OpBoolEqs.BoolEqViolation | src/operators/opBoolEq.cpp:13-27 | zero exactly when both sides hold or both fail; when one side holds, the other side's violation |
| OpBoolEqs.BoolEqSymmetric | src/operators/opBoolEq.cpp:17-19 | the violation does not depend on the order of the sides |
| OpBoolEqs.VarViolationContexts | src/operators/opBoolEq.cpp:28-44 | nothing is passed down when the equality holds; otherwise each side receives the violation together with whether it currently holds |
| OpBoolEqs.ViolatedSidesDisagree | src/operators/opBoolEq.cpp:33-35 | when the equality is violated exactly one side holds |
| OpOrs.RemovedKeepsMinimum | src/operators/opOr.cpp:103-110 | removing a position keeps the minimum when another position still attains it |
| OpOrs.RemovedKeepsIndices | src/operators/opOr.cpp:104-110 | when another position attains the minimum, removing one keeps the minimum and the attaining positions are the others shifted down |
| OpOrs.SwappedKeepsMinimum | src/operators/opOr.cpp:118-129 | swapping two operands keeps the minimum and exchanges the membership of the two positions |
| OpOrs.OpOr.constructor | src/operators/opOr.cpp:14-19 | no operands: undefined, with no minimum positions |
| OpOrs.OpOr.HoldsIffSomeOperandHolds | src/operators/opOr.cpp:14-23 | the disjunction's violation is zero exactly when some operand holds, and some position attains the minimum |
| OpOrs.OpOr.FindNewMinViolation | src/operators/opOr.cpp:25-46 | the smaller of the starting minimum and every operand's violation; the positions attaining it are added, after emptying the set when the minimum drops |
| OpOrs.OpOr.Reevaluate | src/operators/opOr.cpp:14-23 | undefined for no operands; otherwise the minimum violation and exactly the positions attaining it |
| OpOrs.OpOr.HandleOperandValueChange | src/operators/opOr.cpp:48-77 | after one operand changes, the minimum and its positions are right for the new operand values; a full reevaluation happens exactly when the operand got worse than the minimum and was its last position |
| OpOrs.OpOr.ValueAdded | src/operators/opOr.cpp:79-101 | after an operand is inserted, the minimum and its positions (shifted up past the insertion) are right for the new operands, including the first operand of an empty disjunction |
| OpOrs.OpOr.ValueAddedAsWritten | src/operators/opOr.cpp:79-101 | as written: right for a non-empty operand; into an empty one the operator stays undefined, keeps the smaller of the stale violation and the new one, and records no position when the new one is larger |
| OpOrs.OpOr.AddToEmptyAsWrittenWrong | src/operators/opOr.cpp:79-101 | an emptied disjunction with stale violation 0 given one operand of violation 3 is not in a valid state for that operand |
| OpOrs.OpOr.ValueRemoved | src/operators/opOr.cpp:103-116 | after an operand is removed, the positions are shifted down, or the whole operator is reevaluated when no position attained the minimum any more |
| OpOrs.OpOr.PositionsSwapped | src/operators/opOr.cpp:118-129 | after two operands swap, the minimum positions swap with them and their number is unchanged |
| OpOrs.OpOr.SubsequenceChanged | src/operators/opOr.cpp:131-141 | handling each changed operand in turn leaves the minimum and its positions right for the new operands |
| ExtremeIndices.IndicesOf | src/operators/opOr.cpp:36-42 | exactly the positions whose entry equals x |
| ExtremeIndices.IndicesOfPrefix | src/operators/opOr.cpp:33-43 | scanning one more position adds it exactly when it holds x |
| ExtremeIndices.Inserted | src/operators/opOr.cpp:79 | insertion of y at index: earlier entries stay, later ones move up by one |
| ExtremeIndices.Removed | src/operators/opOr.cpp:103 | removal at index: earlier entries stay, later ones move down by one |
| ExtremeIndices.RemovedInserted | src/operators/opOr.cpp:79-116 | removing what was just inserted restores the operands |
| ExtremeIndices.IndicesOfInserted | src/operators/opOr.cpp:79-101 | after an insertion the positions of x are the old ones shifted up past index, plus index when y is x |
| ExtremeIndices.IndicesOfRemoved | src/operators/opOr.cpp:103-116 | after a removal the positions of x are the old ones other than index, shifted down |
| ExtremeIndices.IndicesOfUpdated | src/operators/opOr.cpp:58-66 | after one entry changes, its position joins or leaves the positions of x and nothing else moves |
| ExtremeIndices.SwappedMembership | src/operators/opOr.cpp:118-129 | the membership of the two swapped positions is exchanged and every other position keeps its own |
| ExtremeIndices.IndicesOfSwapped | src/operators/opOr.cpp:118-129 | the positions of x after a swap are the old positions with the membership of the two swapped ones exchanged |
| ExtremeIndices.SwappedMembershipTwice | src/operators/opOr.cpp:118-129 | exchanging twice restores the set, and exchanging keeps its size |
| OpMinMaxes.Compare | src/operators/opMinMax.cpp:19-22 | "better" is `u < v` in min mode and `v < u` in max mode |
| OpMinMaxes.CompareIsStrictTotalOrder | src/operators/opMinMax.cpp:19-22 | the comparison is irreflexive, asymmetric, transitive and total on distinct values in both modes |
| OpMinMaxes.ExtremumBounds | src/operators/opMinMax.cpp:60-75 | an extremum is at most (min mode) or at least (max mode) every defined member |
| OpMinMaxes.ExtremumWitness | src/operators/opMinMax.cpp:68-74 | a non-empty index set of positions holding the value makes that value the extremum of some defined member |
| OpMinMaxes.RemovedKeepsExtremum | src/operators/opMinMax.cpp:186-196 | removing a member that is not extremal leaves the extremum unchanged |
| OpMinMaxes.RemovedExtremum | src/operators/opMinMax.cpp:186-196 | after a removal the index set minus the removed index, shifted down past it, is exactly the positions holding the value |
| OpMinMaxes.RemovedDefined | src/operators/opMinMax.cpp:186-196 | removing a defined member does not change whether all members are defined |
| OpMinMaxes.InsertedDefined | src/operators/opMinMax.cpp:160-185 | after an insertion all members are defined iff they were and the new one is; some member is defined iff one was or the new one is |
| OpMinMaxes.InsertedBetter | src/operators/opMinMax.cpp:165-169 | an inserted member better than the extremum becomes the extremum, at the inserted index only |
| OpMinMaxes.InsertedEqual | src/operators/opMinMax.cpp:171-176 | an inserted member equal to the extremum joins the index set, the others shifted up |
| OpMinMaxes.InsertedOther | src/operators/opMinMax.cpp:178-183 | an inserted worse or undefined member leaves the value and shifts the index set up |
| OpMinMaxes.InsertedNothing | src/operators/opMinMax.cpp:160-185 | inserting an undefined member when no member is defined keeps an empty index set |
| OpMinMaxes.ExtremumWitnessFromMember | src/operators/opMinMax.cpp:68-74 | when some member is defined the index set of a correct state is non-empty |
| OpMinMaxes.UpdatedBetter | src/operators/opMinMax.cpp:93-96 | a member changed to a better value becomes the sole extremal index |
| OpMinMaxes.UpdatedEqual | src/operators/opMinMax.cpp:97-98 | a member changed to the extremum joins the index set |
| OpMinMaxes.UpdatedOther | src/operators/opMinMax.cpp:99-107 | a member changed to a worse value leaves the index set, the value unchanged while other indices remain |
| OpMinMaxes.SwappedExtremum | src/operators/opMinMax.cpp:198-210 | swapping two members swaps their index-set membership and keeps the extremum and definedness |
| OpMinMaxes.ShiftedUpBelow | src/operators/opMinMax.cpp:174-175 | shifting up from an index above every member changes nothing |
| OpMinMaxes.OpMinMax.constructor | src/operators/opMinMax.cpp:24-29 | a fresh operator over no members is correct and undefined |
| OpMinMaxes.OpMinMax.DefinedIffIndicesAndAllDefined | src/operators/opMinMax.cpp:76 | in a correct state the operator is defined iff every member is defined and the index set is non-empty |
| OpMinMaxes.OpMinMax.UpdateMinValues | src/operators/opMinMax.cpp:47-77 | the scan leaves the extremum of the defined members and every index holding it; defined iff no member is undefined and there is at least one |
| OpMinMaxes.OpMinMax.Reevaluate | src/operators/opMinMax.cpp:24-29 | clearing the indices and rescanning yields the correct state for the operands |
| OpMinMaxes.OpMinMax.HandleMemberUndefined | src/operators/opMinMax.cpp:110-119 | the undefined index leaves the set and the operator becomes undefined; an emptied set triggers a rescan |
| OpMinMaxes.OpMinMax.HandleMemberDefined | src/operators/opMinMax.cpp:120-137 | a newly defined member is merged into the extremum and definedness is recomputed |
| OpMinMaxes.OpMinMax.HandleOperandValueChange | src/operators/opMinMax.cpp:83-109 | one changed member is merged in, the state being right for the operands seen; a full rescan happens exactly when a defined member got worse than the extremum and was its last extremal index |
| OpMinMaxes.OpMinMax.ValueAdded | src/operators/opMinMax.cpp:160-185 | after an insertion the value and index set are correct for the new operands |
| OpMinMaxes.OpMinMax.ValueRemoved | src/operators/opMinMax.cpp:186-197 | after a removal the extremum and its positions are right, by shifting when extremal indices remain, by a rescan otherwise; the whole state, definedness included, when the removed member was defined; definedness is untouched when extremal indices remain |
| OpMinMaxes.OpMinMax.PositionsSwapped | src/operators/opMinMax.cpp:198-210 | the state is correct for the swapped operands and the index set keeps its size |
| OpMinMaxes.OpMinMax.SubsequenceChanged | src/operators/opMinMax.cpp:211-222 | merging each changed member in turn, stopping at a full rescan, leaves the state correct |
| OpAnds.Violating | src/operators/opAnd.h:53-55 | k is a violating position iff it is in range and its cached violation is positive |
| OpAnds.ViolatingInserted | src/operators/opAnd.h:47-60 | inserting shifts the violating positions up and adds the new index iff its violation is positive |
| OpAnds.ViolatingRemoved | src/operators/opAnd.h:62-71 | removing drops the index and shifts the later violating positions down |
| OpAnds.Overlaid | src/operators/opAnd.h:103-115 | inside the changed range the cache takes the new violations, outside it keeps the old |
| OpAnds.ChangedStep | src/operators/opAnd.h:105-114 | one loop step updates cache, both running sums, the total and the violating set exactly |
| OpAnds.ChangeStateStep | src/operators/opAnd.h:105-114 | absorbing position i extends the overlaid range, the two running sums and the violating set by one position |
| OpAnds.AbsorbChange | src/operators/opAnd.h:105-114 | the loop body absorbs position i, keeping the cache, the running sums and the violating set consistent |
| OpAnds.OpAnd.constructor | src/operators/opAnd.h:20-24 | a fresh operator has an empty cache, no violating position and violation 0 |
| OpAnds.OpAnd.HoldsIffNoViolatingOperand | src/operators/opAnd.h:47-76 | the conjunction holds (violation 0) iff no position is violating iff every cached violation is 0 |
| OpAnds.OpAnd.ValueAdded | src/operators/opAnd.h:47-60 | the cache gets the new violation at the index and the total grows by it, keeping the invariants |
| OpAnds.OpAnd.ValueRemoved | src/operators/opAnd.h:62-76 | the cache loses the index and the total drops by exactly its cached violation |
| OpAnds.OpAnd.PositionsSwapped | src/operators/opAnd.h:78-92 | cache entries and violating-set membership are both swapped; the total is unchanged |
| OpAnds.OpAnd.SubsequenceChanged | src/operators/opAnd.h:103-121 | the cache takes the new violations over the range and the total changes by new minus old sums |
| OpAnds.OpAnd.MemberReplaced | src/operators/opAnd.h:99-101 | one replaced operand updates its cache entry and the total by new minus old |
| Sums.SumUpdate | src/operators/opAnd.h:103-121 | replacing one entry changes the sum by the new value minus the old |
| Sums.SumPadded | src/operators/opFlattenOneLevel.cpp:146-158 | appending zeros does not change a sum |
| Sums.SumZeros | src/operators/opFlattenOneLevel.cpp:146-158 | a run of zeros sums to zero |
| Sums.EntryAtMostSum | src/operators/opAnd.h:62-76 | every entry is at most the total, so subtracting a removed violation never underflows |
| Sums.SumConcat | src/operators/opAnd.h:103-121 | the sum of a concatenation is the sum of the parts |
| Sums.SumZeroIffAllZero | src/operators/opAnd.h:47-76 | a sum of violations is zero iff every violation is zero |
| Sums.SumSliceAtMost | src/operators/opAnd.h:103-121 | the old violations of a changed range sum to at most the total |
| Sums.SumSliceExtend | src/operators/opAnd.h:105-109 | extending a range by one position adds that entry to its sum |
| Sums.SumInserted | src/operators/opAnd.h:47-60 | inserting an entry adds it to the sum |
| Sums.SumRemoved | src/operators/opAnd.h:62-76 | removing an entry subtracts it from the sum |
| Sums.SumSwapped | src/operators/opAnd.h:78-92 | swapping two entries keeps the sum |
| Sums.SumPrefixUpdated | src/operators/opFlattenOneLevel.cpp:146-158 | changing one length moves every later prefix sum by new minus old and no earlier one |
| Sums.SumPrefixInserted | src/operators/opFlattenOneLevel.cpp:184-194 | inserting a length leaves earlier prefix sums and adds it to every later one |
| Sums.SumPrefixRemoved | src/operators/opFlattenOneLevel.cpp:146-158 | removing a length leaves earlier prefix sums and subtracts it from every later one |
| Sums.SumPrefixSwapped | src/operators/opFlattenOneLevel.cpp:233-238 | swapping two lengths changes only the prefix sums strictly between them, by the difference |
| Sums.SumPrefixExtend | src/operators/opFlattenOneLevel.cpp:146-158 | each prefix sum is the previous one plus the next length |
| IntRanges.Range | src/operators/intRange.cpp:8-17 | the range lo..hi has hi - lo + 1 members (none when hi < lo) and its i-th member is lo + i |
| IntRanges.RangeSplit | src/operators/intRange.cpp:8-17 | a range is the concatenation of its two halves at any split point |
| IntRanges.RangeExtendedDown | src/operators/intRange.cpp:57-66 | decrementing the lower bound prepends exactly the new lower bound |
| IntRanges.RangeShrunkUp | src/operators/intRange.cpp:67-74 | incrementing the lower bound drops exactly the front member |
| IntRanges.RangeShrunkDown | src/operators/intRange.cpp:88-95 | decrementing the upper bound drops exactly the back member |
| IntRanges.AdjustLowerAsWritten | src/operators/intRange.cpp:55-75 | the lower-bound loops as written: prepend newLower..lower-1, or drop newLower - lower members from the front, regardless of the upper bound |
| IntRanges.AdjustUpperAsWritten | src/operators/intRange.cpp:76-96 | the upper-bound loops as written: append upper+1..newUpper, or drop upper - newUpper members from the back |
| IntRanges.AsWrittenLowerAgreesOnNonEmptyRange | src/operators/intRange.cpp:55-75 | while lower <= upper + 1 on both sides, the written lower loops keep the members equal to the range |
| IntRanges.AsWrittenUpperAgreesOnNonEmptyRange | src/operators/intRange.cpp:76-96 | while lower <= upper + 1 on both sides, the written upper loops keep the members equal to the range |
| IntRanges.AsWrittenBreaksEmptyRange | src/operators/intRange.cpp:55-96 | from the empty range 5..3, lowering the lower bound to 2 gives [2, 3, 4] instead of [2, 3], raising the upper bound to 6 gives [4, 5, 6] instead of [5, 6] |
| IntRanges.IntRange.constructor | src/operators/intRange.cpp:8-17 | the members start as exactly the range between the bounds |
| IntRanges.IntRange.Reevaluate | src/operators/intRange.cpp:8-17 | rebuilding leaves the members equal to lower..upper, of length upper - lower + 1 or 0 |
| IntRanges.IntRange.AdjustLower | src/operators/intRange.cpp:55-75 | after moving the lower bound the members are exactly the new range, and agree with the written loops wherever those are right |
| IntRanges.IntRange.AdjustUpper | src/operators/intRange.cpp:76-96 | after moving the upper bound the members are exactly the new range, and agree with the written loops wherever those are right |
| Flattens.Lengths | src/operators/opFlattenOneLevel.cpp:31-34 | the lengths of the inner sequences, one per inner sequence |
| Flattens.FlattenLength | src/operators/opFlattenOneLevel.cpp:53-70 | the flattened members number the sum of the inner lengths |
| Flattens.FlattenConcat | src/operators/opFlattenOneLevel.cpp:60-69 | flattening distributes over concatenation of the outer sequence |
| Flattens.LengthsPrefix | src/operators/opFlattenOneLevel.cpp:16-35 | the inner sequences before i flatten to exactly the prefix sum of their lengths |
| Flattens.FlattenAt | src/operators/opFlattenOneLevel.cpp:60-69 | the flattening is the part before inner sequence i, then i itself, then the rest; i begins at the prefix sum |
| Flattens.FlattenMember | src/operators/opFlattenOneLevel.cpp:79-106 | member j of inner sequence i is at its starting index plus j in the flattening |
| Flattens.FlattenReplaced | src/operators/opFlattenOneLevel.cpp:97-101 | replacing one inner sequence replaces exactly its block of the flattening |
| Flattens.FlattenInnerInserted | src/operators/opFlattenOneLevel.cpp:87-95 | inserting into inner sequence i at k inserts into the flattening at its start plus k |
| Flattens.FlattenInnerRemoved | src/operators/opFlattenOneLevel.cpp:79-86 | removing from inner sequence i at k removes from the flattening at its start plus k |
| Flattens.FlattenInnerSwapped | src/operators/opFlattenOneLevel.cpp:102-106 | swapping inside inner sequence i swaps the flattening at its start plus the offsets |
| Flattens.FlattenOuterRemoved | src/operators/opFlattenOneLevel.cpp:160-168 | removing an inner sequence removes exactly its block from the flattening |
| Flattens.FlattenOuterInserted | src/operators/opFlattenOneLevel.cpp:195-205 | inserting an inner sequence inserts its members where the preceding ones end |
| Flattens.FlattenOuterSwapped | src/operators/opFlattenOneLevel.cpp:220-270 | swapping inner sequences i < j exchanges their blocks and keeps the stretch between |
| Flattens.StartsDifference | src/operators/opFlattenOneLevel.cpp:239-241 | consecutive starting indices differ by the inner length; the last one's length is the total minus its start |
| Flattens.StartsLengthChanged | src/operators/opFlattenOneLevel.cpp:82-93 | after an inner length changes by d, moving every later start by d keeps the starting indices right |
| Flattens.StartsRemoved | src/operators/opFlattenOneLevel.cpp:146-158 | dropping a start and moving the later ones down by the removed length gives the starts of the shorter outer sequence |
| Flattens.StartsWithTotal | src/operators/opFlattenOneLevel.cpp:189 | the starting indices followed by the total are all prefix sums |
| Flattens.StartsInserted | src/operators/opFlattenOneLevel.cpp:184-194 | prefix sums that keep the earlier starts and move the later ones up by the new length are the starts after an insertion |
| Flattens.StartsSwapped | src/operators/opFlattenOneLevel.cpp:257-267 | moving the starts strictly after i up to j by the length difference gives the starts after swapping i and j |
| Flattens.LengthsReplaced | src/operators/opFlattenOneLevel.cpp:79-95 | replacing an inner sequence replaces its length |
| Flattens.LengthsRemoved | src/operators/opFlattenOneLevel.cpp:160-174 | removing an inner sequence removes its length |
| Flattens.LengthsSwapped | src/operators/opFlattenOneLevel.cpp:220-270 | swapping inner sequences swaps their lengths |
| Flattens.LengthsInserted | src/operators/opFlattenOneLevel.cpp:195-213 | inserting an inner sequence inserts its length |
| OpFlattenOneLevels.SwappedBlocks | src/operators/opFlattenOneLevel.cpp:293-297 | the two equal-length blocks are exchanged member by member, everything else stays |
| OpFlattenOneLevels.SwappedBlocksTwice | src/operators/opFlattenOneLevel.cpp:293-297 | exchanging the same blocks twice restores the members |
| OpFlattenOneLevels.MovedBlock | src/operators/opFlattenOneLevel.cpp:276-291 | moving a block keeps the number of members |
| OpFlattenOneLevels.MovedBlockPermutes | src/operators/opFlattenOneLevel.cpp:276-291 | moving a block is a permutation of the members |
| OpFlattenOneLevels.MovedBlockForward | src/operators/opFlattenOneLevel.cpp:276-291 | a block moved forward past a stretch lands right after that stretch |
| OpFlattenOneLevels.MovedBlockBackward | src/operators/opFlattenOneLevel.cpp:276-291 | a block moved backward before a stretch lands right before it |
| OpFlattenOneLevels.SwapEqualBlocks | src/operators/opFlattenOneLevel.cpp:243-249 | when both lengths are equal, swapping the blocks alone exchanges the two inner sequences |
| OpFlattenOneLevels.SwapShorterFirst | src/operators/opFlattenOneLevel.cpp:257-268 | first block shorter: swapping its length and moving the rest of the second block back exchanges them |
| OpFlattenOneLevels.SwapShorterSecond | src/operators/opFlattenOneLevel.cpp:262-268 | second block shorter: swapping its length and moving the rest of the first block forward exchanges them |
| OpFlattenOneLevels.SubtractLoopAsWritten | src/operators/opFlattenOneLevel.cpp:152-155 | the written loop subtracts diff from each entry of [i, end) in place |
| OpFlattenOneLevels.ShiftStartingIndicesDownAsWritten | src/operators/opFlattenOneLevel.cpp:146-158 | as written: one entry shorter, entries before the removed index unchanged |
| OpFlattenOneLevels.ShiftDownAsWrittenLosesLaterStart | src/operators/opFlattenOneLevel.cpp:146-158 | removing the middle of lengths 3, 2, 4 turns starts [0, 3, 5] into [0, 1], not the correct [0, 3] |
| OpFlattenOneLevels.ShiftUpLoopAsWritten | src/operators/opFlattenOneLevel.cpp:190-193 | the written loop keeps the length of the starting indices |
| OpFlattenOneLevels.ShiftStartingIndicesUpAsWritten | src/operators/opFlattenOneLevel.cpp:184-194 | as written: one entry longer; appending at the end just appends the total |
| OpFlattenOneLevels.ShiftUpAsWrittenOverwritesEarlierStart | src/operators/opFlattenOneLevel.cpp:184-194 | inserting length 4 at 1 among lengths 3, 2 turns starts [0, 3] into [3, 3, 9], not the correct [0, 3, 7] |
| OpFlattenOneLevels.SwapEqualStartsAsWritten | src/operators/opFlattenOneLevel.cpp:233-238 | as written, equal starts change only entry index2, to the next start |
| OpFlattenOneLevels.SwapEqualStartsAsWrittenMissesMiddle | src/operators/opFlattenOneLevel.cpp:233-238 | swapping the first and last of [], [], [7] leaves starts [0, 0, 1], not the correct [0, 1, 1] |
| OpFlattenOneLevels.OpFlattenOneLevel.constructor | src/operators/opFlattenOneLevel.cpp:53-70 | a fresh operator is the flattening of no inner sequences |
| OpFlattenOneLevels.OpFlattenOneLevel.Reevaluate | src/operators/opFlattenOneLevel.cpp:53-70 | the members become the concatenation of the inner sequences and each start the prefix sum of the lengths |
| OpFlattenOneLevels.OpFlattenOneLevel.InnerValueAdded | src/operators/opFlattenOneLevel.cpp:87-95 | after an insertion into an inner sequence the state is the flattening of the new inner sequences |
| OpFlattenOneLevels.OpFlattenOneLevel.InnerValueRemoved | src/operators/opFlattenOneLevel.cpp:79-86 | after a removal from an inner sequence the state is the flattening of the new inner sequences |
| OpFlattenOneLevels.OpFlattenOneLevel.InnerPositionsSwapped | src/operators/opFlattenOneLevel.cpp:102-106 | after a swap inside an inner sequence the state is the flattening of the new inner sequences |
| OpFlattenOneLevels.OpFlattenOneLevel.InnerSubsequenceChanged | src/operators/opFlattenOneLevel.cpp:97-101 | after a stretch of an inner sequence changed the state is the flattening of the new inner sequences |
| OpFlattenOneLevels.OpFlattenOneLevel.ShiftStartingIndicesDown | src/operators/opFlattenOneLevel.cpp:146-158 | returns the removed inner sequence's length; earlier starts stay, later ones move one place down and lose that length |
| OpFlattenOneLevels.OpFlattenOneLevel.OperandValueRemoved | src/operators/opFlattenOneLevel.cpp:160-174 | after an inner sequence is removed the state is the flattening of the rest |
| OpFlattenOneLevels.OpFlattenOneLevel.RemoveMembers | src/operators/opFlattenOneLevel.cpp:165-168 | removing from the back one at a time drops exactly [startIndex, endIndex) |
| OpFlattenOneLevels.OpFlattenOneLevel.ShiftStartingIndicesUp | src/operators/opFlattenOneLevel.cpp:184-194 | the first start is 0; otherwise entries up to index keep their start (or the total) and later ones are their predecessor plus the new length |
| OpFlattenOneLevels.OpFlattenOneLevel.OperandValueAdded | src/operators/opFlattenOneLevel.cpp:195-213 | after an inner sequence is inserted the state is the flattening of the new outer sequence |
| OpFlattenOneLevels.OpFlattenOneLevel.InsertMembers | src/operators/opFlattenOneLevel.cpp:203-205 | inserting one at a time from at on puts t in order at position at |
| OpFlattenOneLevels.OpFlattenOneLevel.IncrementIndices | src/operators/opFlattenOneLevel.cpp:271-275 | exactly the starts in [shiftStart, shiftEnd) move by moveLength |
| OpFlattenOneLevels.OpFlattenOneLevel.SwapElements | src/operators/opFlattenOneLevel.cpp:293-297 | the members become the two blocks exchanged |
| OpFlattenOneLevels.OpFlattenOneLevel.MoveElements | src/operators/opFlattenOneLevel.cpp:276-291 | the members become the block moved to start2 |
| OpFlattenOneLevels.OpFlattenOneLevel.TakeOutBlock | src/operators/opFlattenOneLevel.cpp:278-281 | removing the block from its end collects it in reverse and leaves the members around it |
| OpFlattenOneLevels.OpFlattenOneLevel.PutBackBlock | src/operators/opFlattenOneLevel.cpp:282-290 | popping the collected members back in from target restores the block in its original order at target |
| OpFlattenOneLevels.OpFlattenOneLevel.OperandPositionsSwapped | src/operators/opFlattenOneLevel.cpp:220-270 | after two inner sequences are swapped the state is the flattening of the swapped outer sequence |
| OpFlattenOneLevels.OpFlattenOneLevel.ExchangeBlocks | src/operators/opFlattenOneLevel.cpp:239-269 | for each length case (equal, adjacent empty, first shorter, second shorter) the members and the starts between are exactly as exchanged |
| OpFlattenOneLevels.InnerInsertedSettled | src/operators/opFlattenOneLevel.cpp:87-95 | the inserted member plus later starts up by one is the flattening after the inner insertion |
| OpFlattenOneLevels.InnerRemovedSettled | src/operators/opFlattenOneLevel.cpp:79-86 | the removed member plus later starts down by one is the flattening after the inner removal |
| OpFlattenOneLevels.OperandRemovedSettled | src/operators/opFlattenOneLevel.cpp:160-174 | the gap closed is the removed inner length and the result is the flattening of the rest |
| OpFlattenOneLevels.OperandAddedStarts | src/operators/opFlattenOneLevel.cpp:184-199 | the starts after making room are the prefix sums of the inserted lengths, and the new start is where the earlier ones end |
| OpFlattenOneLevels.OperandAddedMembers | src/operators/opFlattenOneLevel.cpp:195-205 | inserting the new block at its start gives the flattening of the new outer sequence |
| OpFlattenOneLevels.SwapCaseEqualStarts | src/operators/opFlattenOneLevel.cpp:233-238 | with equal starts only the second block has members, and moving the starts from i + 1 to j by its length gives the swapped flattening |
| OpFlattenOneLevels.SwapCaseEqualLengths | src/operators/opFlattenOneLevel.cpp:246-249 | with equal lengths exchanging the blocks alone gives the swapped flattening |
| OpFlattenOneLevels.SwapCaseAdjacentEmpty | src/operators/opFlattenOneLevel.cpp:250-254 | with an empty second sequence right after the first, resetting its start gives the swapped flattening |
| OpFlattenOneLevels.AdjacentEmptyMembers | src/operators/opFlattenOneLevel.cpp:250-254 | swapping an inner sequence with an empty one right after it leaves the flattened members unchanged |
| OpFlattenOneLevels.SwapCaseShorterFirst | src/operators/opFlattenOneLevel.cpp:257-268 | the first-shorter exchange and its start increments give the swapped flattening |
| OpFlattenOneLevels.ShorterFirstMembers | src/operators/opFlattenOneLevel.cpp:257-268 | the first-shorter exchange's members are the flattening of the swapped outer sequence |
| OpFlattenOneLevels.SwapCaseShorterSecond | src/operators/opFlattenOneLevel.cpp:262-268 | the second-shorter exchange and its start decrements give the swapped flattening |
| OpFlattenOneLevels.ShorterSecondMembers | src/operators/opFlattenOneLevel.cpp:262-268 | the second-shorter exchange's members are the flattening of the swapped outer sequence |
| OpFlattenOneLevels.SwapSettled | src/operators/opFlattenOneLevel.cpp:257-269 | exchanged blocks plus starts between moved by the length difference are the swapped flattening |
| OpSubstringQuantifies.WindowOf | src/operators/opSubstringQuantify.cpp:29-43 | the window is undefined iff it reaches outside the sequence; otherwise it holds the members from lower to upper bound inclusive, in order |
| OpSubstringQuantifies.Windows | src/operators/opSubstringQuantify.cpp:61-66 | one window per position lo..hi, none when the range is empty |
| OpSubstringQuantifies.WindowsAt | src/operators/opSubstringQuantify.cpp:61-66 | window k of the list is the window of width w ending at position lo + k |
| OpSubstringQuantifies.WindowsAppend | src/operators/opSubstringQuantify.cpp:292-299 | raising the upper bound by one appends the window ending at the new bound |
| OpSubstringQuantifies.WindowsSplit | src/operators/opSubstringQuantify.cpp:61-66 | the windows over a range are the windows over its two halves concatenated |
| OpSubstringQuantifies.WindowsFirst | src/operators/opSubstringQuantify.cpp:272-278 | the window list starts with the window ending at the lower bound |
| OpSubstringQuantifies.WindowsDropLast | src/operators/opSubstringQuantify.cpp:300-303 | dropping the last window is lowering the upper bound by one |
| OpSubstringQuantifies.MakeWindowTuple | src/operators/opSubstringQuantify.cpp:29-43 | the loop builds exactly the window of the bounds, or undefined when out of range |
| OpSubstringQuantifies.LowerChangedAsWritten | src/operators/opSubstringQuantify.cpp:265-283 | the lower-bound loops as written: prepend the windows ending at newLower..lower-1, or drop that many from the front |
| OpSubstringQuantifies.UpperChangedAsWritten | src/operators/opSubstringQuantify.cpp:285-304 | the upper-bound loops as written: append the windows ending at upper+1..newUpper, or drop that many from the back |
| OpSubstringQuantifies.AsWrittenLowerAgreesOnRange | src/operators/opSubstringQuantify.cpp:265-283 | while lower <= upper + 1 on both sides, the written lower loops keep one window per position of the range |
| OpSubstringQuantifies.AsWrittenUpperAgreesOnRange | src/operators/opSubstringQuantify.cpp:285-304 | while lower <= upper + 1 on both sides, the written upper loops keep one window per position of the range |
| OpSubstringQuantifies.AsWrittenBreaksEmptyRange | src/operators/opSubstringQuantify.cpp:265-304 | from the empty range 5..3, moving the lower bound to 2 or the upper bound to 6 as written leaves 3 windows where the range has 2 |
| OpSubstringQuantifies.OpSubstringQuantify.constructor | src/operators/opSubstringQuantify.cpp:45-57 | a fresh operator has no windows and is not defined |
| OpSubstringQuantifies.OpSubstringQuantify.Reevaluate | src/operators/opSubstringQuantify.cpp:45-67 | defined iff sequence and both bounds are; then the cached bounds are the bounds minus one and the windows are those of the range; else no windows |
| OpSubstringQuantifies.OpSubstringQuantify.CalcDestIndex | src/operators/opSubstringQuantify.cpp:179 | for a position inside the cached range, the result indexes the window ending at that position |
| OpSubstringQuantifies.OpSubstringQuantify.LowerChanged | src/operators/opSubstringQuantify.cpp:265-283 | after the lower bound moves the windows are exactly those of the new range, and agree with the written loops wherever those are right |
| OpSubstringQuantifies.OpSubstringQuantify.UpperChanged | src/operators/opSubstringQuantify.cpp:285-304 | after the upper bound moves the windows are exactly those of the new range, and agree with the written loops wherever those are right |
| OpSubstringQuantifies.OpSubstringQuantify.GrowUpper | src/operators/opSubstringQuantify.cpp:292-299 | raising the upper bound appends windows until it reaches the new bound, keeping the windows exact |
| OpSubstringQuantifies.OpSubstringQuantify.ShrinkUpper | src/operators/opSubstringQuantify.cpp:300-303 | lowering the upper bound drops windows until it reaches the new bound, keeping the windows exact |
| OpAllDiffs.OpAllDiff.constructor | src/operators/opAllDiff.h:24-26 | a fresh operator has no hash groups, no violating member, and a hash slot per member |
| OpAllDiffs.OpAllDiff.AddHash | src/operators/opAllDiff.h:30-44 | the member joins its hash group; a lone previous member and the new one become violating exactly when the group grows past one; returns the new group size |
| OpAllDiffs.OpAllDiff.RemoveHash | src/operators/opAllDiff.h:46-61 | the member leaves its group and the violating set; a last remaining member stops violating; an emptied group is dropped; returns the remaining size |
| OpAllDiffs.AddHashValid | src/operators/opAllDiff.h:30-44 | adding a hash keeps the groups disjoint, consistent with the recorded hashes and the violating set equal to members of groups of two or more |
| OpAllDiffs.RemoveHashValid | src/operators/opAllDiff.h:46-61 | removing a hash keeps the same group invariant |
| OpAllDiffs.ViolatingIffDuplicated | src/operators/opAllDiff.h:24-26 | under the group invariant a member is violating iff another grouped member shares its hash |
| Objectives.LexLess | src/search/objective.cpp:54-64 | the empty tuple comes before every non-empty one, and a tuple before b never starts with a larger entry than b |
| Objectives.LexLessIffDiffersAt | src/search/objective.cpp:54-64 | tuple order is lexicographic: a < b iff they agree up to some position where a is smaller, or a is a proper prefix of b |
| Objectives.LexLessIrreflexive | src/search/objective.cpp:54-64 | no tuple is less than itself |
| Objectives.LexLessTotal | src/search/objective.cpp:54-64 | any two tuples are equal or ordered one way |
| Objectives.LexLessAsymmetric | src/search/objective.cpp:54-64 | no two tuples are each less than the other |
| Objectives.LexLessTransitive | src/search/objective.cpp:54-64 | the tuple order is transitive |
| Objectives.Less | src/search/objective.cpp:54-64 | minimising, better means smaller value; maximising, better means larger; for integers, plain < or > |
| Objectives.Equal | src/search/objective.cpp:78-87 | equal iff the values are equal, whatever the mode |
| Objectives.LessIrreflexive | src/search/objective.cpp:54-64 | no objective is better than itself |
| Objectives.LessEq | src/search/objective.cpp:66-76 | <= holds exactly when < or == does |
| Objectives.Trichotomy | src/search/objective.cpp:54-87 | of comparable objectives exactly one of <, == and > holds |
| Objectives.LessTransitive | src/search/objective.cpp:54-64 | being better is transitive |
| Objectives.ModeReverses | src/search/objective.cpp:60-61 | maximising reverses the minimising order and keeps equality |
| Objectives.AssignElements | src/search/objective.cpp:11-20 | the values of all members in order, or failure iff some member is undefined |
| Objectives.TupleObjective | src/search/objective.cpp:27-52 | a tuple objective holds the members' values in order; it fails iff the tuple is empty or a member is undefined |
| Objectives.IntObjective | src/search/objective.cpp:7-9 | an integer objective holds the value, failing iff it is undefined |
| FlagSets.ArraySize | src/utils/flagSet.h:9-10 | the byte count is n / 8 rounded up: enough bytes for every flag and less than one spare |
| FlagSets.SetBitSame | src/utils/flagSet.h:47-54 | after setting bit k of a byte it reads back the value set |
| FlagSets.SetBitOther | src/utils/flagSet.h:47-54 | setting bit k of a byte leaves every other bit |
| FlagSets.FlagSet.constructor | src/utils/flagSet.h:68-69 | the default flag set has every flag false |
| FlagSets.FlagSet.FromArray | src/utils/flagSet.h:70-81 | the flag set built from booleans has flag i equal to entry i |
| FlagSets.FlagSet.Set | src/utils/flagSet.h:47-54 | assigning a flag sets it to the value and leaves every other flag as it was |
| ValidateSolutions.EndIndex | scripts/validateSolutions.py:32-34 | the first line from the given position containing "solution end", none when there is none |
| ValidateSolutions.ScanFrom | scripts/validateSolutions.py:58-68 | the bodies read from the stream never contain an end line, and a reading left incomplete has read at least one body |
| ValidateSolutions.Render | scripts/validateSolutions.py:63-66 | the stream written for the solutions, two sentinel lines per solution |
| ValidateSolutions.StartIsNotEnd | scripts/validateSolutions.py:33 | the start sentinel is not an end line and the end sentinel is |
| ValidateSolutions.ScanRender | scripts/validateSolutions.py:58-68 | reading back a stream of solutions written between sentinels yields exactly those solutions, all complete |
| ValidateSolutions.ScanFirstRendered | scripts/validateSolutions.py:63-66 | the first rendered solution is read back first, followed by the rest |
| ValidateSolutions.ScanAtStart | scripts/validateSolutions.py:63-66 | at a start line whose end is at j, the body is the lines strictly between and reading resumes after j |
| ValidateSolutions.EndIndexAt | scripts/validateSolutions.py:32-34 | an end line at j with none before it is the end line found |
| ValidateSolutions.Numbers | scripts/validateSolutions.py:77-79 | the solution numbers lo..hi in increasing order |
| ValidateSolutions.HeadTailAsWrittenSelectsNothing | scripts/validateSolutions.py:77-79 | with two solutions and sample size 1 the selection as written is empty |
| ValidateSolutions.HeadTailAsWritten | scripts/validateSolutions.py:75-79 | as written: all K solutions when K <= n, else 2 * int(n / 2) of them, one fewer than n when n is odd; every number within 1..K |
| ValidateSolutions.HeadTail | scripts/validateSolutions.py:75-79 | corrected: min(K, n) solutions, every number within 1..K |
| ValidateSolutions.HeadTailEvenAgrees | scripts/validateSolutions.py:75-79 | the corrected and the written selections agree exactly when K <= n or n is even |
| ValidateSolutions.HeadTailSelects | scripts/validateSolutions.py:75-82 | the corrected selection validates min(K, n) distinct solutions in increasing order within 1..K: all when K <= n, else the first and (n > 1) the last |
| ValidateSolutions.NoSolutionsIffNoStart | scripts/validateSolutions.py:63-72 | no solution is read iff the stream has no start line, and then the reading is complete |
| ValidateSolutions.RunOfRendered | scripts/validateSolutions.py:58-84 | a well-formed stream succeeds, validating 1..K when n <= 0 and the head/tail selection otherwise |
| ValidateSolutions.RunSpec | scripts/validateSolutions.py:58-84 | with the corrected head/tail selection (HeadTail, see "## Findings"): a run ends in NoSolutions exactly when no solution was read, and then validates nothing; every validated number names a solution read; with n > 0 a missing end line validates nothing |
| ValidateSolutions.ReadSolution | scripts/validateSolutions.py:27-36 | the body is the lines up to the next end line and reading resumes after it; without an end line the rest is read and the error reported |
| ValidateSolutions.StartReading | scripts/validateSolutions.py:58-84 | the loop reads the solutions, validates and ends exactly as the run specification says, with the corrected head/tail selection of "## Findings" |
| ValidateSolutions.RenderFirst | scripts/validateSolutions.py:63-66 | in a rendered stream the first solution sits between a start line and an end line, followed by the rest |
| ValidateSolutions.ScanFoundEnd | scripts/validateSolutions.py:63-66 | a start line with an end line after it contributes the lines between them, and reading resumes after the end line |
| ValidateSolutions.ScanMissingEnd | scripts/validateSolutions.py:63-66 | a start line without an end line contributes the rest of the stream, and the stream is incomplete |
| ValidateSolutions.ParseArguments | scripts/validateSolutions.py:89-107 | an integer first argument is the sample size and removed (else 0); without arguments the script fails; fewer than three more is a usage error; a fourth is the parameter file only when it is the last |

## Left out

- Hash functions: MurmurHash3, SHA-256 and the value hashes are not modelled. `mix` and each member's hash are opaque functions handed to the containers.
- Unsigned wrap-around: hash totals, violation totals and counters are unbounded integers. Their 64-bit wrap-around is not modelled, except for the lock's round counter and the partition attributes' subtraction, where the source relies on it.
- Trigger and notification plumbing: notify*, changeValue, visitTriggers, reattachTrigger and the index fields of the inner-sequence triggers are left out. So are the hasBecomeDefined/Undefined propagation and memberHasBecomeDefined/Undefined where the source leaves them unimplemented. They are observer wiring, not state the operators compute.
- Operand objects: operators receive their operands' current violations or values as parameters, and do not read child expression objects.
- Callbacks of try* operations: the callback's verdict is an `accept` parameter. Whatever side effects the callback has are not modelled.
- Set members' ids and parent back-pointers are not modelled. The ids of sequence members are modelled.
- Sequences: trySubsequenceChange, changeSubsequence and notifyPossibleSubsequenceChange are not modelled. They only forward to triggers and callbacks.
- Substring quantifier: the triggers on the sequence operand (src/operators/opSubstringQuantify.cpp:78-242) are not modelled, and neither is the undefined-sequence branch of the bounds trigger (251-258). They rebuild windows through the trigger machinery.
- All-different: reevaluation and violation attribution in src/operators/opAllDiff.cpp are not modelled. That file is compiled out. Only addHash and removeHash from the header are modelled.
- Random variable selection from the violation container (selectRandomVar) is left out. It is driven by randomness and floating-point sampling.
- Validator script:
  - The subprocess call, the solution files it writes, the path checks and the messages are left out.
  - Exit codes are the `ExitStatus` of a run.
  - Python's `int()` of the first argument is the parameter `firstAsInt`.
  - `print(line, file=...)` adds a second newline to each body line. Bodies are kept as the lines read.
- Validator sampling: the script's usage text (scripts/validateSolutions.py:106) says the first and last n/2 solutions are validated. The code takes `int(n/2)`, rounded down, from each end, which validates n - 1 solutions for odd n. `ValidateSolutions.HeadTailAsWritten` follows the code; see "## Findings".
- Objectives: `operator<<` is left out.
- Objectives.Less: tuples of different lengths are compared lexicographically. The source stores tuples of length 1 to 3 as distinct fixed-size arrays and would fail on such a mixed comparison. The solver only ever compares objectives of one expression.
- Objectives.Less: comparing an integer objective with a tuple objective, or objectives of different modes, is excluded by a precondition. In the source it is a failed variant access or a debug assertion.
- FlagSets.FlagSet.Set: flags are addressed by their raw index, not through the compile-time type index that `get<T>()` computes. The `char` bytes are `bv8`.
- FlagSets.FlagSet.FromArray: the compile-time checks on the array's element type and length become a length equality.
- Partitions.PartitionDomain.FixAttributes: returns false, leaving the attributes part-way, where the source would divide by zero.
- Partitions.PartitionDomain.constructor: where the tightened maximum part size is 0 the source divides by zero; the model builds the domain with the attributes part-way, the minimum number of parts not raised.
- Sets.SetDomain.constructor: where the trimmed maximum size falls below the minimum size the source aborts; the model builds the domain with those attributes.
- Partitions.PartitionValue.AssignMember: the part record (PartInfo) is not part of this model, so the part's mixed hash after the member is added is the parameter `newPartMix`.
- Partitions.PartitionValue.AssignMember: part sizes are counters. The invariant does not tie them to the member-to-part map, because a slot not yet assigned holds part 0 there, as in the source's resized vector, and the source does not check that a slot is assigned only once.
- Partitions.PartitionValue.SetNumberElements: a new, empty part record is taken to have mixed hash 0.
- OpFlattenOneLevels.OpFlattenOneLevel.OperandValueRemoved: reads the removed block's start before the starting indices shift. The source reads `startingIndices[index]` after `pop_back`. With a correct shift that is the same value, except when the last inner sequence is removed, where the source reads past the end of the vector.
- OpFlattenOneLevels.ShiftStartingIndicesUpAsWritten: inserting at index 0 into a non-empty outer sequence is excluded. The source writes to position -1 there.
- IntDomains.NormaliseBoundsAsWritten: requires a non-empty input. On an empty vector the source's loop bound `size() - 1` wraps around.
- IntRanges.AdjustLowerAsWritten: excludes raising the lower bound by more members than exist. From an empty range the source would remove from an empty vector.
- IntRanges.AdjustUpperAsWritten: excludes lowering the upper bound by more members than exist. From an empty range the source would remove from an empty vector.
- OpSubstringQuantifies.LowerChangedAsWritten: excludes raising the lower bound by more windows than exist. From an empty range the source would remove from an empty vector.
- OpSubstringQuantifies.UpperChangedAsWritten: excludes lowering the upper bound by more windows than exist. From an empty range the source would remove from an empty vector.
- OpMinMaxes.OpMinMax.ValueAdded: an undefined inserted member leaves `defined` as it was, as the source does. Definedness is corrected by the member-undefined event that follows.
- OpMinMaxes.OpMinMax.HandleMemberUndefined: states the result against the operands it has seen, a ghost sequence, because the source defers a rescan until no extremal index is left.
- OpMinMaxes.OpMinMax.HandleOperandValueChange: states the result against the operands it has seen, as above.
- IntRange, OpFlattenOneLevel and OpSubstringQuantify: the definedness handling of their bound and operand triggers is left out (src/operators/intRange.cpp:33-54).

## Findings

| source | as written | input that shows it | evidently intended | confidence | as-written member | corrected member |
|---|---|---|---|---|---|---|
| src/types/intVal.h:31-47 | after merging bound i with bound i + 1 the loop still moves to i + 1, so the merged bound is never compared with its new neighbour; the result of `remove_if` is discarded, so empty bounds are kept | [1..2], [3..4], [5..6] gives [1..4], [5..6]; [1..10], [2..3], [4..5] gives [1..10], [4..5], so 7 lies above the last bound and the size is 12 instead of 10; [1..2], [5..3] keeps the empty bound and counts 1 value instead of 2 | sorted, non-empty bounds, none overlapping or touching the next, holding the same values | high, not executed | IntDomains.NormaliseBoundsAsWritten, IntDomains.ChainNotUnified, IntDomains.OverlapBreaksSearch, IntDomains.OverlapMiscounts, IntDomains.EmptyBoundKept | IntDomains.NormaliseBounds |
| src/types/sequenceVal.h:321-322 | a rejected shuffle applies the swaps forwards a second time | swaps [1, 2] at offset 0 turn [a, b, c] into [b, c, a]; rejecting turns that into [c, a, b] | undo with the inverse swaps, restoring [a, b, c] | high, not executed | Sequences.SequenceValue.TrySubsequenceShuffleAsWritten, SequenceSwaps.ForwardTwiceDoesNotRestore | Sequences.SequenceValue.TrySubsequenceShuffle, SequenceSwaps.InverseRestores |
| src/operators/opInIntDomain.cpp:113 | the consistency check measures the distance to the next bound from its upper end | bounds [1..2], [8..20] and v = 6: the operator correctly finds 8 at distance 2, but the check expects distance 4 to bound 0 and reports the correct state as inconsistent | measure to the next bound's lower end | high, not executed | OpInIntDomains.SanityBetweenAsWritten, OpInIntDomains.SanityAsWrittenRejectsCorrectState | OpInIntDomains.SanityBetween, OpInIntDomains.BetweenNearest |
| src/operators/intRange.cpp:55-96 | the bound loops add or remove one member per step regardless of the other bound | empty range 5..3: lowering the lower bound to 2 gives [2, 3, 4] instead of [2, 3]; raising the upper bound to 6 gives [4, 5, 6] instead of [5, 6] | members are always exactly lower..upper | high, not executed | IntRanges.AdjustLowerAsWritten, IntRanges.AdjustUpperAsWritten, IntRanges.AsWrittenBreaksEmptyRange | IntRanges.IntRange.AdjustLower, IntRanges.IntRange.AdjustUpper |
| src/operators/opSubstringQuantify.cpp:265-304 | moving a bound adds or drops one window per step regardless of the other bound | sequence [7, 8, 9], window size 1, empty range 5..3: lowering the lower bound to 2, or raising the upper bound to 6, leaves 3 windows where the new range has 2 | one window per position of the range | high, not executed | OpSubstringQuantifies.LowerChangedAsWritten, OpSubstringQuantifies.UpperChangedAsWritten, OpSubstringQuantifies.AsWrittenBreaksEmptyRange | OpSubstringQuantifies.OpSubstringQuantify.LowerChanged, OpSubstringQuantifies.OpSubstringQuantify.UpperChanged |
| src/operators/opFlattenOneLevel.cpp:146-158 | each entry from the removed position on has the removed length subtracted in place, then the last entry is dropped | inner lengths 3, 2, 4 with starts [0, 3, 5]; removing the middle one gives [0, 1] | each later start moves down one place and loses the removed length: [0, 3] | high, not executed | OpFlattenOneLevels.ShiftStartingIndicesDownAsWritten, OpFlattenOneLevels.ShiftDownAsWrittenLosesLaterStart | OpFlattenOneLevels.OpFlattenOneLevel.ShiftStartingIndicesDown, Flattens.StartsRemoved |
| src/operators/opFlattenOneLevel.cpp:184-194 | the loop writes entry index - 1 instead of moving entry i - 2 into i - 1 | inner lengths 3, 2 with starts [0, 3]; inserting length 4 at position 1 gives [3, 3, 9] | later starts move one place up and grow by the new length: [0, 3, 7] | high, not executed | OpFlattenOneLevels.ShiftStartingIndicesUpAsWritten, OpFlattenOneLevels.ShiftUpAsWrittenOverwritesEarlierStart | OpFlattenOneLevels.OpFlattenOneLevel.ShiftStartingIndicesUp, OpFlattenOneLevels.OperandAddedStarts |
| src/operators/opFlattenOneLevel.cpp:233-238 | when the two swapped inner sequences start at the same index only the second start is updated | inner sequences [], [], [7] with starts [0, 0, 0]; swapping the first and last gives [0, 0, 1] | every start after the first up to the second moves by the second's length: [0, 1, 1] | high, not executed | OpFlattenOneLevels.SwapEqualStartsAsWritten, OpFlattenOneLevels.SwapEqualStartsAsWrittenMissesMiddle | OpFlattenOneLevels.OpFlattenOneLevel.OperandPositionsSwapped, OpFlattenOneLevels.SwapCaseEqualStarts |
| scripts/validateSolutions.py:77-79 | with more solutions than n, the first and last `int(n/2)` are validated | n = 1 with 2 solutions: `int(1/2)` is 0, no solution is validated and the run reports success | validate n solutions, half from each end, at least the first | medium, not executed | ValidateSolutions.HeadTailAsWritten, ValidateSolutions.HeadTailAsWrittenSelectsNothing | ValidateSolutions.HeadTail, ValidateSolutions.HeadTailSelects |
| src/operators/opOr.cpp:79-101 | adding an operand to an empty disjunction compares it with the stale violation that reevaluate left behind, and nothing marks the operator defined again | all operands removed while the violation was 0, then one operand with violation 3 added: the operator stays undefined, reports violation 0 and records no minimum position | the new operand becomes the minimum and the operator defined, as a reevaluation gives | medium, not executed | OpOrs.OpOr.ValueAddedAsWritten, OpOrs.OpOr.AddToEmptyAsWrittenWrong | OpOrs.OpOr.ValueAdded |
