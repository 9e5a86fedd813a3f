# tiny-lsm in-memory engine: model and proofs

The in-memory half of a small LSM-tree store, and the merge that joins it with
the tables on disk:

- a **skip list** with towers of random height, forward and backward links and
  a byte count, updated in place (`SkipNodes.dfy`, `SkipLists.dfy`);
- a **memtable**: one active skip list over frozen ones, newest first, where
  deleting writes the empty value (`MemTables.dfy`);
- a **heap iterator** that merges the versions of all tables, shows the newest
  one of each key and hides deleted keys (`SearchItems.dfy`, `HeapIterators.dfy`);
- a **level iterator** that merges the memtable, L0 and the deeper levels
  (`LevelIterators.dfy`, `EngineScans.dfy`, `EngineIterators.dfy`).

Each class is proved against a value: a skip list is a sorted table
(`Tables.dfy`), a memtable is a stack of tables (`Layers.dfy`), a heap is the
order in which it pops (`HeapIterators.dfy`), the sources of a level iterator
are what they still yield (`LevelMerges.dfy`). The main theorems are about those
values, and hold for every input and every run:

1. **The skip list is a sorted map.** `SkipList.Valid` says that every level is
   the sublist of nodes whose towers reach it, that backward links mirror forward
   links, that the order is strict, and that the byte count is right modulo 2^64.
   Every operation keeps it, whatever the coins; its meaning is spelled out in
   `SkipListTheorems.dfy`. The middle step is that splicing a node into, or
   unlinking it from, each level one after the other is exactly putting it into,
   or taking it out of, the list (`SplicedIsWellLinked`, `BypassedIsWellLinked`).
2. **The memtable is one map.** Every operation does to every key what its own
   arguments say, and the last one wins over whole runs, wherever freezes and
   flushes fall; a flush hands out the oldest table there is and changes no lookup; the byte counter is exact if and
   only if no `clear` dropped frozen bytes.
3. **Scans agree with lookups.** The heap's comparison is an ordering on the
   memtable's items if and only if transaction ids follow the age of tables,
   which runs with non-decreasing ids guarantee. Then a scan lists exactly what
   lookups find, and a prefix or predicate scan is the filtered full scan; with a
   transaction id it is if and only if no deleted key in the range comes after a
   live key outside it and after none inside.
4. **Two-phase reads are linearizable, key by key.** In every execution of any
   number of threads, every answer is what the memtable held at one instant
   between the two phases at which no write, freeze or clear was under way. The
   state at such an instant is what the operations the threads have completed by
   then lead to, whole and one after the other, and all instants share that one
   history. A scan, which holds both locks, sees one such state whole. A batched
   read as a whole is atomic in every execution if and only if its first phase
   finds all of its non-empty keys, or none of them. No execution deadlocks.
5. **The level merge is exact.** It yields each key once, in order, with the value
   of the lowest-numbered source that has it, leaving out tombstones; for every
   choice of values if and only if no source standing on the empty key comes before
   another one that has something. Composed with the heaps, with a transaction or
   without, it can show deleted keys: they reappear if and only if a live version
   lies below a tombstone the heaps do not show.
6. **L0 shows the newest table** for all contents if and only if, for the ids at
   hand, the larger one always gets the smaller index once negated and narrowed.

## Conventions

- Keys and values are sequences of bytes in unsigned lexicographic order. The
  empty key is modelled, not excluded: a lookup never reports it, a scan lists it
  if it was stored, and it misleads the level merge unless its source is the last
  non-empty one (`MinScanRightIff`, `MergeRightIff`, `EmptyKeyMisleads`).
- `size_t` sums and differences are written with `Wrap64`; the narrowing of
  `-sst_id` to `int` is written out in `NegatedIndex`. Transaction ids are only
  compared and stored, and are natural numbers.
- The coins of `random_level` are a parameter of `Put`, and arbitrary in the
  memtable. The size limit is any natural number.
- `std::priority_queue` is the sequence in which it pops. The C++ standard asks
  of its comparison a strict weak ordering (section 25.8 of ISO/IEC 14882:2020),
  and that is what `OrderOn` demands. Items that tie may pop in any order; where
  none do (`LinearOn`) the order is unique. On the memtable's items both are the
  same condition (`ItemsLinearIff`).
- `MonotoneOn` for predicate searches is the demand documented at
  src/skiplist/skipList.cpp:319-328.
- Spines (`Spine`) are ghost: the nodes of a list in order, head first.

Where code and documentation disagree, the code is followed: `get` ignores the
transaction id and an overwrite keeps the first one (so test/test_skiplist.cpp:334
does not describe this code); `get_batch` keeps tombstones as present empty
values, although its comments announce `nullopt`; `clear` resets neither
`frozen_bytes` nor `current_level`.

## Model

| member | source | states |
|---|---|---|
| `Keys.LessIsLexicographic` | src/skiplist/skipList.cpp:101 | the key order is the lexicographic order of unsigned bytes: a proper prefix first, else the smaller byte at the first difference |
| `Keys.PrefixComparesEqual` | src/skiplist/skipList.cpp:303 | `compare(0, n, prefix)` is 0 exactly on keys that start with the prefix, shorter keys included |
| `Keys.AbovePrefixStays` | src/skiplist/skipList.cpp:301-306 | once a key compares above a prefix every greater key does, so the end of a prefix run is final |
| `SkipNodes.Node.constructor` | include/skiplist/skiplist.h:28-31 | a node's link vectors are as long as its tower and empty |
| `SkipNodes.Node.SetBackward` | include/skiplist/skiplist.h:32-34 | changes one backward link and nothing else |
| `SkipNodes.NextWithout` | src/skiplist/skipList.cpp:133-137 | taking one node out changes the next node, on a level, of exactly the last node before it, which then sees what the node saw |
| `SkipNodes.PrevWithout` | src/skiplist/skipList.cpp:139-146 | the mirror image for the previous node on a level |
| `SkipNodes.SplicedIsWellLinked` | src/skiplist/skipList.cpp:128-146 | links spliced on all levels of a tower, where the key belongs, form a sorted, doubly linked, multi-level list again |
| `SkipNodes.BypassedIsWellLinked` | src/skiplist/skipList.cpp:197-212 | links bypassing a node on all levels of its tower form such a list without it |
| `SkipLists.SkipListIterator.Next` | src/skiplist/skipList.cpp:13-21 | moves along the lowest level and stays at the end |
| `SkipLists.SkipList.constructor` | src/skiplist/skipList.cpp:70-75 | an empty well-formed list with zero bytes |
| `SkipLists.SkipList.RandomLevel` | src/skiplist/skipList.cpp:77-86 | for every run of coins one level more than it starts with heads, at most max_level |
| `SkipLists.SkipList.MoveRight` | src/skiplist/skipList.cpp:101-104 | stops on the level's last node below the key |
| `SkipLists.SkipList.FindUpdates` | src/skiplist/skipList.cpp:95-107 | records, on every level in use, the last node below the key |
| `SkipLists.SkipList.Descend` | src/skiplist/skipList.cpp:157-166 | from any towers ends right before the first key not below the wanted one |
| `SkipLists.SkipList.Overwrite` | src/skiplist/skipList.cpp:111-116 | replaces one value, keeps the first transaction id, and the wrapping byte delta keeps the count right |
| `SkipLists.SkipList.Insert` | src/skiplist/skipList.cpp:117-147 | inserts the entry in key order for every tower height and keeps the whole structure |
| `SkipLists.SkipList.RaiseTo` | src/skiplist/skipList.cpp:120-127 | the level count becomes the larger of the two, and levels brought into use have the head as last node before any key |
| `SkipLists.SkipList.Link` | src/skiplist/skipList.cpp:132-146 | the two link loops put the node in at its position and nothing else |
| `SkipLists.SkipList.LinkForward` | src/skiplist/skipList.cpp:133-137 | the forward loop splices the node in on each level of its tower and leaves backward links alone |
| `SkipLists.SkipList.LinkBackward` | src/skiplist/skipList.cpp:139-146 | the backward loop does the same for backward links and leaves forward links alone |
| `SkipLists.SkipList.Put` | src/skiplist/skipList.cpp:89-147 | keeps the invariant and writes the sorted table; a new key's node has the tower its coins build and the level count follows it, an update leaves the structure as it is |
| `SkipLists.SkipList.Get` | src/skiplist/skipList.cpp:150-176 | finds the node stored for the key, null exactly if there is none, for every transaction id |
| `SkipLists.SkipList.Remove` | src/skiplist/skipList.cpp:181-222 | keeps the invariant and erases exactly the key; the level count falls to the highest tower left, or nothing changes if the key was not there |
| `SkipLists.SkipList.UnlinkLevels` | src/skiplist/skipList.cpp:199-212 | stopping at the first level whose predecessor points elsewhere bypasses exactly the levels of the tower |
| `SkipLists.SkipList.Unlink` | src/skiplist/skipList.cpp:197-212 | the list without the node, well-linked, all other entries unchanged |
| `SkipLists.SkipList.Delete` | src/skiplist/skipList.cpp:197-214 | unlinking and subtracting the node's bytes keeps list and count in step |
| `SkipLists.SkipList.Shrink` | src/skiplist/skipList.cpp:215-219 | takes exactly the empty top levels out of use and changes no entry |
| `SkipLists.SkipList.Flush` | src/skiplist/skipList.cpp:224-238 | returns all entries in order |
| `SkipLists.SkipList.GetSize` | src/skiplist/skipList.cpp:240-243 | is the sum of key, value and 8 bytes per node, exactly if that fits in 64 bits |
| `SkipLists.SkipList.Clear` | src/skiplist/skipList.cpp:246-250 | an empty well-formed list with the old level count |
| `SkipLists.SkipList.Begin` | src/skiplist/skipList.cpp:252-255 | stands on the first entry |
| `SkipLists.SkipList.BeginPreffix` | src/skiplist/skipList.cpp:263-285 | stands on the first entry not below the prefix |
| `SkipLists.SkipList.EndPreffix` | src/skiplist/skipList.cpp:288-317 | stands on the first entry after the run of keys with the prefix |
| `SkipLists.SkipList.ItersMonotonyPredicate` | src/skiplist/skipList.cpp:330-396 | the half-open range of exactly the entries with result 0, and nothing if and only if there is none, for all towers |
| `SkipLists.SkipList.DescendLeftOf` | src/skiplist/skipList.cpp:337-353 | ends on the head or on an entry to the left of the range |
| `SkipLists.SkipList.FirstMatch` | src/skiplist/skipList.cpp:355-376 | the first entry with result 0, or null exactly if there is none |
| `SkipLists.SkipList.LastMatch` | src/skiplist/skipList.cpp:379-389 | the last entry of the run of zeros |
| `SkipListTheorems.LevelIsChain` | src/skiplist/skipList.cpp:128-137 | following links on a level meets exactly the later nodes whose towers reach it, then null |
| `SkipListTheorems.LevelIsSublist` | src/skiplist/skipList.cpp:77-86 | every level is a sublist of the level below |
| `SkipListTheorems.LevelSortedOrEmpty` | src/skiplist/skipList.cpp:215-219 | every level is strictly key-sorted, and empty from the current level count on |
| `SkipListTheorems.BackwardMirrorsForward` | src/skiplist/skipList.cpp:138-146 | on each level, back then forward returns to the node, and forward then back too |
| `SkipListTheorems.Perform` | src/skiplist/skipList.cpp:89-250 | each operation of a run does to an actual list what the run says, for all coins |
| `SkipListTheorems.RunRefinesMap` | src/skiplist/skipList.cpp:89-250 | after any run of put, remove and clear the list is the sorted table of the map the run describes, first ids kept |
| `SkipListTheorems.SameMapSameList` | src/skiplist/skipList.cpp:224-238 | what `flush` returns depends on the final map only, not on order of calls or towers |
| `Tables.WriteIsUpdate` | src/skiplist/skipList.cpp:89-147 | a write keeps order and uniqueness, changes one key, and an existing key keeps its id |
| `Tables.EraseIsRemoval` | src/skiplist/skipList.cpp:181-222 | a removal keeps order and removes exactly one key |
| `Tables.BytesAfterWrite` | src/skiplist/skipList.cpp:111-131 | by how much a write changes the total bytes |
| `Tables.BytesAfterErase` | src/skiplist/skipList.cpp:213-214 | by how much a removal changes them |
| `Tables.SizeAfterReplace` | src/skiplist/skipList.cpp:113 | the unsigned wraparound of the overwrite delta is harmless |
| `Tables.SortedUnique` | src/skiplist/skipList.cpp:224-238 | a sorted table is determined by its members |
| `Ranges.PrefixRangeExact` | src/skiplist/skipList.cpp:263-317 | the prefix range holds exactly the keys with the prefix: they are contiguous |
| `Ranges.PrefixPredicateMonotone` | src/skiplist/skipList.cpp:319-328 | comparing with a prefix is a legitimate range predicate on every table |
| `Ranges.PrefixRangeIsPredicateRange` | src/skiplist/skipList.cpp:263-396 | when non-empty, the prefix range and the predicate range for that prefix are equal |
| `Ranges.RangeIsSelection` | src/skiplist/skipList.cpp:391-395 | a range that holds exactly the matching positions is the table filtered |
| `Layers.RunSorted` | src/memtable/memtable.cpp:28-313 | every table of every reachable memtable is sorted |
| `Layers.RunHoldsHistory` | src/memtable/memtable.cpp:28-313 | over every run, lookup through active, frozen and flushed tables gives the last value written since the last clear |
| `Layers.LastWriteWins` | src/memtable/memtable.cpp:28-123 | without flushes the memtable alone does, for every size limit and wherever freezes fall |
| `Layers.NeverWritten` | src/memtable/memtable.cpp:100-123 | no last value means no write of the key at all |
| `Layers.LastValueAt` | src/memtable/memtable.cpp:53-56 | the last value of a list of writes is that of its last pair with the key |
| `Layers.OperationEffect` | src/memtable/memtable.cpp:28-66 | what every operation but a flush does to every key's version, for every limit: a write leaves its value under the first id of the active table or its own, a freeze changes nothing, a clear leaves nothing |
| `Layers.RemoveBatchDeletes` | src/memtable/memtable.cpp:228-242 | a batch of removals deletes every one of its keys and changes no other |
| `Layers.PutBatchKeepsLast` | src/memtable/memtable.cpp:48-66 | a batch of writes leaves each of its keys with the value of the last pair for it and changes no other |
| `Layers.WriteFreezesIff` | src/memtable/memtable.cpp:34-66 | a write freezes exactly if the table it wrote is over the limit afterwards |
| `Layers.RunFollowsOperations` | src/memtable/memtable.cpp:28-313 | over every run, lookup through active, frozen and flushed tables gives what the last operation on the key left |
| `Layers.OverlayFirst` | src/memtable/memtable.cpp:83-98 | the first table that has the key decides |
| `Layers.GetInTwoParts` | src/memtable/memtable.cpp:100-123 | what the check of the active table finds stands, what it misses the frozen tables decide, and the empty key is never found |
| `Layers.FlushPreservesLookups` | src/memtable/memtable.cpp:254-299 | flushing moves the oldest table below the others and changes no lookup, also when the active table is frozen on the spot |
| `Layers.FlushHandsOutOldest` | src/memtable/memtable.cpp:266-284 | a flush hands out the last frozen table, or with none frozen the whole active one; it hands out nothing exactly if none is frozen and the active size is 0, which below 2^64 bytes means that nothing is stored |
| `Layers.FlushNothingHeld` | src/memtable/memtable.cpp:266-273 | so a flush that hands out nothing leaves no key unflushed |
| `Layers.FrozenBytesOverRun` | src/memtable/memtable.cpp:244-306 | the counter is the frozen tables' bytes plus all that `clear` dropped, modulo 2^64 |
| `Layers.FrozenBytesExactIff` | src/memtable/memtable.cpp:244-251 | within 64 bits the counter is exact if and only if no `clear` dropped frozen bytes |
| `Layers.ClearLeavesCount` | src/memtable/memtable.cpp:244-251 | the smallest drift: put, freeze, clear leaves ten bytes counted and nothing frozen, for every limit |
| `Layers.ActiveWithinLimit` | src/memtable/memtable.cpp:34-66 | at every point of every run the active table's size is at most the limit |
| `SearchItems.OrderIffVersionsAgree` | src/iterator/iterator.cpp:24-38 | the comparison is a strict weak ordering on a set of items if and only if id, level and index of versions of a key never contradict each other |
| `SearchItems.GreaterTransitive` | src/iterator/iterator.cpp:24-38 | transitivity through three items that compare one way |
| `SearchItems.LinearIsOrder` | src/iterator/iterator.cpp:24-38 | a comparison without ties or contradictions is such an ordering |
| `HeapIterators.FitsBehind` | src/iterator/iterator.cpp:50-53 | in a queue in pop order an item always fits somewhere, given a strict weak ordering |
| `HeapIterators.PushAllOrdered` | src/iterator/iterator.cpp:50-53 | so every list of items has a pop order, whatever order they are given in |
| `HeapIterators.PopOrderUnique` | src/iterator/iterator.cpp:50-53 | without ties there is only one |
| `HeapIterators.HeapIterator.Push` | src/iterator/iterator.cpp:50-53 | pushing anywhere the item fits keeps a pop order of the items so far |
| `HeapIterators.HeapIterator.constructor` | src/iterator/iterator.cpp:46-63 | for any strict weak ordering, what the iterator will yield is the scan in some pop order of the items, and the only scan if none tie |
| `HeapIterators.HeapIterator.SkipTombstones` | src/iterator/iterator.cpp:93-101 | drops whole keys while the top is a tombstone |
| `HeapIterators.HeapIterator.PopKey` | src/iterator/iterator.cpp:84-87 | pops exactly the leading versions of the key |
| `HeapIterators.HeapIterator.Next` | src/iterator/iterator.cpp:76-104 | consumes exactly the next pair of the scan, and the heap strictly shrinks |
| `HeapIterators.HeapIterator.Deref` | src/iterator/iterator.cpp:71-74 | the first pair still to be yielded |
| `HeapIterators.HeapIterator.IsEnd` | src/iterator/iterator.cpp:149 | the end is reached exactly when nothing is left to yield |
| `HeapIterators.AllKeysSound` | src/iterator/iterator.cpp:82-87 | in any pop order reading off the heap shows each key once, in increasing order, with an item greater than no other version |
| `HeapIterators.AllKeysExact` | src/iterator/iterator.cpp:82-87 | without ties it shows exactly the least items |
| `HeapIterators.ScanExact` | src/iterator/iterator.cpp:46-104 | without a transaction a scan shows exactly the keys whose least item is not a tombstone, strictly increasing, whatever order the items came in |
| `HeapIterators.TiedScanSound` | src/iterator/iterator.cpp:46-104 | also with ties a scan shows each key at most once, in order, with a live least version, and leaves out only keys with a tombstone among theirs |
| `HeapIterators.TransactionScanExact` | src/iterator/iterator.cpp:54-61 | with a transaction id a scan shows the live winners, and the tombstones that come after some live key |
| `HeapIterators.TransactionScanIff` | src/iterator/iterator.cpp:126-143 | a scan with a transaction id equals one without if and only if no deleted key lies after a live one |
| `HeapIterators.TransactionShowsTombstone` | src/iterator/iterator.cpp:126-143 | any live key before any deleted one: with a transaction id the deleted key is shown, without one it is not |
| `HeapIterators.SmallestShownTombstone` | src/iterator/iterator.cpp:126-143 | the smallest such scan |
| `Scans.ItemsLinearIff` | src/memtable/memtable.cpp:331-354 | on the memtable's items the comparison is a strict weak ordering if and only if ids follow age |
| `Scans.ComparesByAge` | src/iterator/iterator.cpp:24-38 | then it is reverse lexicographic order on key and table index |
| `Scans.ScanIsOverlay` | src/memtable/memtable.cpp:331-354 | the scan lists exactly the keys whose newest version is live, in order, with that value |
| `Scans.TablesShow` | src/memtable/memtable.cpp:331-354 | for every read id the heap over the memtable's items shows what the tables hold, tombstones included only after some live key and only with a transaction |
| `Scans.RunIdsLayered` | src/skiplist/skipList.cpp:111-116 | non-decreasing ids over a run make ids follow age; overwrites keeping the first id do not break it |
| `Scans.ScanEqualsLookups` | src/memtable/memtable.cpp:331-354 | in every state reached by a run with non-decreasing ids the scan lists exactly what `get` finds with a non-empty value |
| `Scans.ScanIsHistory` | src/memtable/memtable.cpp:331-354 | and exactly the keys whose last write was not a deletion |
| `Scans.DecreasingIdsBreakOrder` | src/iterator/iterator.cpp:30-32 | a run whose ids decrease and whose two versions of a key are each greater than the other |
| `Scans.RangeScanIsFilteredScan` | src/memtable/memtable.cpp:363-424 | scanning the matching part of every table is filtering the full scan, for every condition on keys |
| `Scans.RangeScanIsFilteredIff` | src/memtable/memtable.cpp:363-424 | for every read id: with a transaction the range scan is the filtered full scan if and only if no deleted key in the range comes after a live key outside it and after none inside; without one it always is |
| `Scans.RangeScanDropsTombstone` | src/memtable/memtable.cpp:363-388 | the smallest difference: a tombstone the full scan shows and the prefix scan does not |
| `MemTables.MemTable.constructor` | src/memtable/memtable.cpp:23-25 | an empty memtable |
| `MemTables.MemTable.PutUnlocked` | src/memtable/memtable.cpp:28-32 | writes the active table; the frozen ones, being separate, stay as they are |
| `MemTables.MemTable.Put` | src/memtable/memtable.cpp:34-46 | a write, then a freeze exactly if the size is over the limit |
| `MemTables.MemTable.PutBatch` | src/memtable/memtable.cpp:48-66 | all writes in order, then one size check |
| `MemTables.MemTable.Remove` | src/memtable/memtable.cpp:216-226 | writes a tombstone, then checks the size |
| `MemTables.MemTable.RemoveBatch` | src/memtable/memtable.cpp:228-242 | all tombstones in order, then one size check |
| `MemTables.MemTable.SettleUnlocked` | src/memtable/memtable.cpp:39-45 | freezes if and only if the size is over the limit |
| `MemTables.MemTable.FreezeUnlocked` | src/memtable/memtable.cpp:301-306 | the active table becomes the newest frozen one and its bytes are counted |
| `MemTables.MemTable.FrozenCurTable` | src/memtable/memtable.cpp:308-313 | the same as a public operation |
| `MemTables.MemTable.Clear` | src/memtable/memtable.cpp:244-251 | drops all tables but not the frozen byte count |
| `MemTables.MemTable.FlushLast` | src/memtable/memtable.cpp:254-299 | hands the oldest table's entries, in key order, to the builder and removes it; nothing on an empty memtable |
| `MemTables.MemTable.TakeOldest` | src/memtable/memtable.cpp:281-287 | removes the last frozen table and its bytes |
| `MemTables.MemTable.FeedBuilder` | src/memtable/memtable.cpp:288-292 | appends all entries in order |
| `MemTables.MemTable.CurGet` | src/memtable/memtable.cpp:68-81 | the active table's entry, never for the empty key |
| `MemTables.MemTable.FrozenGet` | src/memtable/memtable.cpp:83-98 | the newest frozen entry |
| `MemTables.MemTable.Get` | src/memtable/memtable.cpp:100-123 | the overlay's newest entry, tombstones included, or nothing exactly if there is none |
| `MemTables.MemTable.GetBatch` | src/memtable/memtable.cpp:141-207 | one answer per key, in order, duplicates included: the value and id a point lookup finds, tombstones included, or nothing exactly if it finds nothing |
| `MemTables.MemTable.Begin` | src/memtable/memtable.cpp:331-354 | an iterator over the scan of all tables |
| `MemTables.MemTable.End` | src/memtable/memtable.cpp:356-361 | an iterator at its end |
| `MemTables.MemTable.ItersPreffix` | src/memtable/memtable.cpp:363-388 | an iterator over the scan of the tables filtered by prefix |
| `MemTables.MemTable.ItersMonotonyPredicate` | src/memtable/memtable.cpp:390-424 | an iterator over the scan of the tables filtered by the predicate, and an end |
| `MemTables.Walk` | src/memtable/memtable.cpp:402-405 | walking from one list iterator to another collects exactly the entries between |
| `MemTables.CollectAll` | src/memtable/memtable.cpp:338-341 | all entries of a table, tagged |
| `MemTables.CollectPrefix` | src/memtable/memtable.cpp:371-374 | exactly the entries with the prefix, asking for the end again at each step |
| `MemTables.CollectRange` | src/memtable/memtable.cpp:398-407 | exactly the entries with result 0 |
| `TwoPhaseReads.StepKeepsExclusion` | src/memtable/memtable.cpp:34-66 | every step of every thread keeps the two shared locks exclusive |
| `TwoPhaseReads.ExclusionHolds` | src/memtable/memtable.cpp:100-251 | so they are in every state of every execution |
| `TwoPhaseReads.OneMover` | src/memtable/memtable.cpp:34-251 | a step is the move of exactly one thread, so the completed operations are determined by the execution |
| `TwoPhaseReads.HistoryGrows` | src/memtable/memtable.cpp:34-251 | the operations completed by an earlier state are the first of those completed by a later one: all reads share one history |
| `TwoPhaseReads.MovesIffGranted` | src/memtable/memtable.cpp:34-46 | a thread can move exactly if the locks it waits for are free as far as it needs them |
| `TwoPhaseReads.EndsAfterFirstPhaseIff` | src/memtable/memtable.cpp:104-111 | the check of the active table ends a read exactly if it finds every key, and otherwise `cur_mtx` is let go |
| `TwoPhaseReads.QuietIsSequential` | src/memtable/memtable.cpp:34-66 | whenever nobody is changing the tables, they are what exactly the operations completed so far lead to, batches whole; otherwise one operation is partly done on top |
| `TwoPhaseReads.SectionStep` | src/memtable/memtable.cpp:48-66 | one step keeps the operations completed so far, or adds exactly the one whose section the moving thread ends; a freeze at the end of a write is an operation of its own |
| `TwoPhaseReads.SomeThreadCanMove` | src/memtable/memtable.cpp:34-251 | no deadlock: in every state of every execution with an operation under way, some thread with one can move |
| `TwoPhaseReads.GapKeepsAnswer` | src/memtable/memtable.cpp:100-123 | after the check of the active table, the frozen tables keep answering for all missed keys at once as the whole memtable did at one quiet instant since, unless a clear is halfway |
| `TwoPhaseReads.ReadDrawsOnTwoInstants` | src/memtable/memtable.cpp:141-207 | a completed read draws on two quiet instants only: all found keys on the first check, all others on one later instant |
| `TwoPhaseReads.ReadsAreLinearizable` | src/memtable/memtable.cpp:100-123 | in every execution every answer of `get` or `get_batch` is what the memtable held for that key at one quiet instant between the two phases |
| `TwoPhaseReads.ReadsFollowHistory` | src/memtable/memtable.cpp:100-123 | every answer is what the operations completed before the read and some of those that end during it lead to |
| `TwoPhaseReads.SharedHoldsStill` | src/memtable/memtable.cpp:331-334 | while a thread holds `cur_mtx` shared nothing changes the tables |
| `TwoPhaseReads.ScanSeesOneState` | src/memtable/memtable.cpp:331-354 | a scan collects all tables of one quiet state, newest first, and that state is what the operations completed before it lead to |
| `TwoPhaseReads.BatchedReadAtomicIff` | src/memtable/memtable.cpp:141-207 | for all tables and keys: a read is a snapshot in every execution if and only if its first phase finds all of the non-empty keys or none of them; a point lookup always is |
| `TwoPhaseReads.TornReadTears` | src/memtable/memtable.cpp:141-207 | for all other tables and keys: a batch and a freeze between the phases are an execution in which no instant has all answers |
| `TwoPhaseReads.BatchedReadIsNotAtomic` | src/memtable/memtable.cpp:141-207 | the smallest torn read, with its answers |
| `LevelMerges.MinScanChooses` | src/lsm/level_iterator.cpp:75-101 | the search chooses the smallest key and, on equal keys, the larger id and then the lower index |
| `LevelMerges.MinScanRightIff` | src/lsm/level_iterator.cpp:82 | with equal ids it chooses right if and only if no source on the empty key precedes another non-empty one |
| `LevelMerges.EmptyKeyMisleads` | src/lsm/level_iterator.cpp:82 | two sources for which the merge yields the empty key after a greater one |
| `LevelMerges.SkipConsumes` | src/lsm/level_iterator.cpp:103-110 | skipping a key some source stands on strictly reduces what is left |
| `LevelMerges.MergeAfterSkip` | src/lsm/level_iterator.cpp:121-141 | skipping the current key consumes exactly the current pair |
| `LevelMerges.FirstValueAt` | src/lsm/level_iterator.cpp:103-110 | the value a source gives a key is that of its first pair with the key |
| `LevelMerges.MergeExact` | src/lsm/level_iterator.cpp:58-141 | from sorted sources with equal ids: strictly increasing keys, each with its lowest-index source's first value, leaving out exactly those where it is empty |
| `LevelMerges.MergeRightIff` | src/lsm/level_iterator.cpp:75-141 | the merge is exact for every choice of values on the sources' keys if and only if no source on the empty key precedes another non-empty one |
| `LevelMerges.StampedIsWrong` | src/lsm/level_iterator.cpp:82 | otherwise values that tell their source give a merge that is wrong |
| `LevelIterators.LevelIterator.constructor` | src/lsm/level_iterator.cpp:58-73 | what the iterator will yield is the merge of its sources |
| `LevelIterators.LevelIterator.GetMinKeyIdx` | src/lsm/level_iterator.cpp:75-101 | the loop computes the search that the lemmas are about |
| `LevelIterators.LevelIterator.SkipKeyInAll` | src/lsm/level_iterator.cpp:103-110 | every source moves past the key and no further |
| `LevelIterators.LevelIterator.SkipOne` | src/lsm/level_iterator.cpp:105-108 | one source moves past the key and no further |
| `LevelIterators.LevelIterator.UpdateCurrent` | src/lsm/level_iterator.cpp:112-119 | caches the chosen source's current pair |
| `LevelIterators.LevelIterator.Pass` | src/lsm/level_iterator.cpp:126-138 | one pass either stands on a live pair with no source moved, or consumes at least one element and nothing the merge yields |
| `LevelIterators.LevelIterator.FindLive` | src/lsm/level_iterator.cpp:125-139 | stops on a live pair or at the end, having consumed tombstones only |
| `LevelIterators.LevelIterator.Next` | src/lsm/level_iterator.cpp:121-141 | consumes exactly the current pair of the merge, and the sources hold strictly less |
| `LevelIterators.LevelIterator.Deref` | src/lsm/level_iterator.cpp:161-166 | the first pair still to be yielded; nothing if none was ever cached |
| `LevelIterators.LevelIterator.EndIffNothingRemains` | src/lsm/level_iterator.cpp:174-181 | the end is reached exactly when nothing is left to yield |
| `EngineScans.NegatedIndexExactIff` | src/lsm/level_iterator.cpp:35 | the narrowed index is the negated SST id if and only if the id is at most 2^31 |
| `EngineScans.NewerFirstIff` | src/lsm/level_iterator.cpp:35 | for all 64-bit ids, in terms of their last 32 bits, exactly when the larger one gets the smaller index |
| `EngineScans.SmallIdsInOrder` | src/lsm/level_iterator.cpp:35 | ids up to 2^31 always do |
| `EngineScans.L0NewestWins` | src/lsm/level_iterator.cpp:23-41 | where the larger id gets the smaller index, the L0 heap shows for every key what the SST with the largest id holds, for every read id |
| `EngineScans.L0NewestWinsIff` | src/lsm/level_iterator.cpp:23-41 | it does so for all contents of the SSTs if and only if the larger id always gets the smaller index |
| `EngineScans.L0IsOverlay` | src/lsm/level_iterator.cpp:23-41 | with its SSTs listed newest first L0 answers as their stack of tables does |
| `EngineScans.BuildL0Items` | src/lsm/level_iterator.cpp:24-38 | the loops over the L0 tables collect every entry of every table |
| `EngineScans.BuildLevelSources` | src/lsm/level_iterator.cpp:44-56 | the loops over the deeper levels add, after each table of a level, a source over the level's tables so far |
| `EngineScans.ChainedIsOverlay` | src/lsm/level_iterator.cpp:48-54 | a level read table by table answers, for every key, as its stack of tables does |
| `EngineScans.ChainedSorted` | src/lsm/level_iterator.cpp:48-54 | and is sorted if no key along the level comes before a smaller one |
| `EngineScans.DeepFirstLevel` | src/lsm/level_iterator.cpp:44-56 | the deeper levels answer as the tables of the first level that has the key |
| `EngineScans.PrefixSourcesHarmless` | src/lsm/level_iterator.cpp:44-56 | the extra source per prefix of a level's tables changes no answer |
| `EngineScans.EngineScanExact` | src/lsm/level_iterator.cpp:11-141 | a scan of the whole store, with a transaction or without, is strictly increasing and shows, per key, the first of memtable, L0 and levels that shows a value |
| `EngineScans.EngineScanRightIff` | src/lsm/level_iterator.cpp:16-41 | for every read id it shows exactly the store's live keys if and only if no tombstone a heap hides has a live version below it |
| `EngineScans.StoreIsOverlay` | src/lsm/level_iterator.cpp:16-56 | what the store holds is the newest version of the whole stack of tables: memtable, L0 newest first, levels in order |
| `EngineScans.TombstoneFreeScanIsRight` | src/lsm/level_iterator.cpp:11-141 | where neither memtable nor L0 holds a tombstone, a scan of the store lists exactly the newest live versions of that stack |
| `EngineScans.NonEmptyKeysFit` | src/lsm/level_iterator.cpp:82 | non-empty keys and tables in order are enough for all of this |
| `EngineScans.RemovedKeyReappears` | src/iterator/iterator.cpp:93-101 | whatever the store, a key with a live version in L0 that is then removed is scanned as if it had not been |
| `EngineScans.FlushedThenRemovedReappears` | src/iterator/iterator.cpp:93-101 | put, freeze, flush, remove of any key with any value under any limit reaches such a store |
| `EngineIterators.Drain` | src/iterator/iterator.cpp:71-104 | reading a heap iterator to its end gives exactly what it had left to yield |
| `EngineIterators.OpenSources` | src/lsm/level_iterator.cpp:16-56 | over an actual memtable the constructor collects its sources in order: memtable, L0, deeper levels |
| `EngineIterators.OpenScan` | src/lsm/level_iterator.cpp:11-73 | the level iterator over a store yields the scan of that store |

## Left out

- HeapIterators.HeapIterator.Deref: dereferencing at the end is undefined in C++ and is a precondition here.
- LevelMerges.MergeExact: with a transaction id, only for sources that report equal ids, as all of the store's do; the search itself is proved for unequal ids too.
- LevelMerges.MergeRightIff: speaks of every choice of values on given keys; for a particular choice the merge may come out right although an empty key misleads it, for instance when that key is deleted.
- EngineIterators.OpenScan: the heaps are read to their ends before the level merge starts, while the source reads them as it goes, under the same lock.
- EngineScans.EngineScanExact: SST contents and the chained deeper tables are sorted sequences; which versions a transaction may see is not modelled, because the code does not look.
- EngineScans.L0NewestWinsIff: SSTs have distinct ids; how the block reader delivers their entries is not modelled.
- MemTables.MemTable.FlushLast: sequential, without the unused minimum and maximum transaction ids; the SST builder is an append-only sink and no SST is built.
- TwoPhaseReads.ReadsAreLinearizable: holds key by key, as the condition in `BatchedReadAtomicIff` shows it must; `flush_last` is not a step, because it replaces the active table without holding its lock; a write may freeze or not at its end, which covers every size limit, and such a freeze follows its write in the history.
- MemTables.MemTable.Get: the locks are not part of the class; they are the subject of `TwoPhaseReads`.
- `get_` without locks is the same composition as `get`; `get_total_size` locks a mutex its own thread holds; `get_cur_size` and `get_frozen_size` only read a field.
- Reading through an iterator after its lock has been released.
- TwoPhaseReads.SomeThreadCanMove: is about deadlock; a thread may still wait for ever behind others.
- Operators `==` and `->` of the iterators, the `<` of search items and the node comparisons, which the modelled operations do not use.
- The distribution of `random_level`, the unused `dis_level`, `print_skiplist` and logging.
- Visibility by transaction id and isolation levels: `skip_by_tranc_id` is empty and lookups ignore the id.
- Blocks, SST files, the write-ahead log, bloom filters, the block cache, transactions, the engine and the Redis commands, most of which are still unwritten.
- The lock a level iterator holds, and the inside of the iterator over a level's tables.
