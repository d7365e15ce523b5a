# A verified model of the storage engine

The repository is a teaching relational database. This project models the parts of it that carry
real invariants and proves what they promise, for all inputs and over whole runs:

- the disk B+ tree: insertion with leaf and internal splits, deletion with merging, borrowing and
  root collapse, the leaf chain, the range scanner, and the page allocator below it (`BPlus*.dfy`,
  `Keys.dfy`, `UserKeys.dfy`, `BufferPool.dfy`);
- the slotted record file with its bitmaps and its scanner (`Bits.dfy`, `Bitmaps.dfy`,
  `Records.dfy`, `RecordScan.dfy`);
- the frame cache: the LRU list at pointer level, the memory pool and the frame manager
  (`Lru.dfy`, `Frames.dfy`);
- the recursive reader-writer lock as a step system over any number of threads (`SharedMutex.dfy`);
- streaming MD5, Julian day numbers, duration addition, the ring buffer with its buffered writer,
  and the redo log (`Md5.dfy`, `Dates.dfy`, `Durations.dfy`, `RingBuffers.dfy`, `RedoLog.dfy`);
- predicate pushdown as a transformation of query plans (`Pushdown.dfy`).

## How the B+ tree is modelled

Pages are a map from page number to node, as the source links them: child page numbers, parent page
number, next leaf. A ghost map gives every page the key interval it is responsible for and its
height, and the invariant `Struct` is one clause per kind of link (`BPlusState.dfy`). It has a hole
for one pending split, so that it also holds between the split of a node and the entry of its right
half in the parent. The structural steps are functions on this state with one lemma per clause
(`BPlusInsertSteps.dfy`, `BPlusDeleteSteps.dfy`, `BPlusContents.dfy`, `BPlusRefine.dfy`); the class
`BplusTreeHandler` performs the source's page operations in the source's order and is proved to
carry out those steps (`BPlusInsertRefine.dfy`, `BPlusDeleteRefine.dfy`, `BPlusTree.dfy`).

A key is the pair of an attribute value and a RID. The tree works on the rank of a key, an integer,
and compares ranks with a comparator that is part of its configuration: in an index on real keys it is
the source's own comparator applied to the keys of the two ranks. INTS keys lie in a window of 2^31
consecutive integers, where that comparator is exactly the order of ranks (`CompareKeyIsRank`,
`KeyCfgOk`); such a window exists if and only if every two of the values can be compared
(`WindowExact`). `BPlusKeyRun.RunKeys` states whole runs on keys, and `BPlusKeyScan.dfy` what a scan delivers
after such a run.

The "ignored" key in slot 0 of an internal node is modelled as stored: `create_new_root` writes zero
bytes there, and merging and borrowing copy it.

A debug build is modelled: an assertion in `free_internal` (frame_manager.cpp:88-99) stops the process
when a page is disposed of that somebody else still holds. `BPlusDrops.Drops` is the set of pages that
a deletion disposes of, computed from the tree before the deletion; the deletion fails if and only if
one of them is pinned.

A page that was given back and is handed out again is read from the file. Nothing in the repository writes
a page after the file has been created, so that this read fails; whether it does is a parameter, `stored`,
and every result is proved for both values. `BPlusCapacity.dfy` counts pages: a tree has no more pages than
entries, and with those that the next insertion takes still no more than entries, so a file has room for the next
entry while its bitmap leaves the tree as many pages as there are entries.

## Where the code does not do what one would expect

- `compare_int` subtracts in 32 bits: it compares correctly if and only if the difference fits
  (`CompareIntSign`). A search for a key, and the test for the right end of a scan, treat every stored
  key rightly if and only if every stored value differs from the searched one by what fits
  (`SearchExact`); a stored -2^31 is taken to lie beyond a right end of 2^31 - 1 (`EndTestWraps`).
- A repeated insertion is refused but leaves its leaf pinned (`InsertEntry`), so inserting an entry
  twice and then deleting it fails an assertion on every new index (`RepeatedThenDeleted`). `DeleteEntry`
  fails if and only if one of the pages of `Drops` is pinned.
- Once a deletion has given a page back, the next insertion that needs a page fails on reading it, and the page
  stays taken: inserting an entry, deleting it and inserting another fails on every new index
  (`InsertedAgain`, `AllocatePage`).
- An insertion that runs out of pages changes nothing if and only if no page was free at all. Otherwise
  the entry is in, the last free page is used up and one split stays pending (`InsertEntry`); child
  pointers then lead to none of the entries of its right half (`LostEntries`).
- Rounding an over-long left bound up is exact if and only if the incremented byte is below 255
  (`FixLeftExact`). `open` refuses the bounds ["ABCD", "ABCD1") although they admit the value ABCD;
  this is the only non-empty range it refuses (`RejectedEmpty`).
- `next_setted_bit` does not reset its offset when it passes a zero byte, nor `next_unsetted_bit` when
  it passes a byte 0xFF. Each returns the next bit it looks for if and only if `Sound` or `SoundClear`
  holds (`NextSettedBit`, `NextUnsettedBit`); the scans are right because they always resume in a byte
  with a set bit (`SoundAfterSet`), and insertions because they search from the start.
- The occupancy floor of the tree is half the maximum rounded down, not `min_size()`.
- `DateTime::operator+=` leaves a result of exactly midnight written as 24:00 (`AddSeconds`), and
  the day-normalising loop borrows 28 days for December (`TurnBack`), so that it ends on the right day
  if and only if that day does not lie before the year it starts in (`Normalize`).
- `MD5Update` never ends when the input is within 63 bytes of 2^32 and the buffer is that full: its
  32-bit counter passes the end of the input (`NeverEnds`). On all other inputs `Update` is right.
- In `get_exprs_can_pushdown` the second test on the operands can never fail, so a comparison is
  pushed as soon as one side is a field, contrary to the comment beside it. `set_predicates`
  overwrites the predicates a scan already has; the rule preserves meaning if and only if that is
  harmless (`RuleExact`).
- A reader that asks for the write lock waits for ever (`UpgradeDeadlocks`), and so does the writer
  that asks for a shared lock (`OwnerDeadlocks`).

## Model

| member | source | states |
|---|---|---|
| BPlusRun.Run | src/server/storage_engine/index/bplus_tree.cpp:1322-1355 | for every sequence of insertions and deletions: the return codes are those of a set of entries, and the states that the index goes through hold what the set holds, take and give back exactly the pages counted beforehand, and collect one pin per repeated insertion; no operation is stopped unless the state it starts from has too few pages for it, waits for an unreadable page, or has a pinned page to dispose of. Out of pages, the set has more entries than the bitmap has bits for index pages; an unreadable page was given back before the run or by an earlier deletion; a deletion fails only after a repeated insertion, or with a page pinned at the start. A stopped insertion has changed nothing, unless it used up the last free pages and its entry is in |
| BPlusRun.RunFromEmpty | src/server/storage_engine/index/bplus_tree.cpp:670-760 | the same from a newly created index file, starting from the empty set; a run is not stopped at all if the set never outgrows the bitmap before an operation and either nothing is deleted, or pages given back can be read again and no key is inserted while it is present |
| BPlusRun.ShortRun | src/server/storage_engine/index/bplus_tree.cpp:1322-1355 | so no run of insertions that is shorter than the bitmap has bits is stopped |
| BPlusRun.TraceHolds | src/server/storage_engine/index/bplus_tree.cpp:1322-1355 | the states of a run hold what the set of entries holds, and its pins number the repeated insertions |
| BPlusKeyRun.RunKeys | src/server/storage_engine/index/bplus_tree.cpp:1322-1355 | the same for keys made of an attribute value and a RID, with the source's comparator: for keys in one window, the answers and the contents are those of a set of keys, and what stops a run is told from the set of keys alone |
| BPlusKeyRun.RunsAgree | src/server/include/storage_engine/index/bplus_tree.h:72-95 | the set of keys and the set of ranks agree after every run, in contents, answers, size and repeated insertions |
| BPlusKeyScan.RunThenScanInts | src/server/storage_engine/index/bplus_tree.cpp:1322-1383 | after any run of insertions and deletions that is not stopped, a scan of an INTS index is refused if and only if its bounds cross, and otherwise delivers the RIDs of exactly the keys inserted and not deleted whose integer lies within the bounds, once each, ordered by integer, page and slot |
| BPlusKeyScan.RunThenScanText | src/server/storage_engine/index/bplus_tree.cpp:1626-1819 | the same on a CHARS index for text bounds of any length, ordered byte by byte, unless the incremented byte overflows |
| BPlusKeyScan.RunThenGet | src/server/storage_engine/index/bplus_tree.cpp:1357-1383 | after any run that is not stopped, get_entry delivers the RIDs of exactly the keys with the given attribute, on either kind of index |
| Keys.RankOrders | src/server/include/storage_engine/index/bplus_tree.h:72-95 | the order in an index is by attribute value, as integers or by the first different byte, then by page, then by slot |
| BPlusRun.Do | src/server/storage_engine/index/bplus_tree.cpp:1592-1616 | one operation: the abstract answer and the abstract new set, with the exact pages and pins, or it is stopped, exactly when pages are short or unreadable or a page it disposes of is pinned |
| BPlusRun.RepeatedThenDeleted | src/server/storage_engine/index/bplus_tree.cpp:1322-1355 | on every new index, inserting an entry twice and deleting it succeeds, is refused as a duplicate and fails the assertion |
| BPlusRun.InsertedAgain | src/server/storage_engine/buffer/buffer_pool.cpp:138-150 | on every new index whose pages cannot be read again, inserting an entry, deleting it and inserting another ends with a read error |
| BPlusCapacity.PagesBound | src/server/storage_engine/index/bplus_tree.cpp:1209-1260 | a tree has no more pages than entries, and fewer unless it is empty or has one entry |
| BPlusCapacity.PendingFinishes | src/server/storage_engine/index/bplus_tree.cpp:1120-1207 | finishing a pending split leads to a valid tree with the same entries and exactly as many more pages as the page demand says |
| BPlusCapacity.RoomForNext | src/server/storage_engine/index/bplus_tree.cpp:1083-1260 | in a file with room for as many index pages as there are entries, the next insertion finds the pages it needs |
| BPlusTree.BplusTreeHandler.InsertEntry | src/server/storage_engine/index/bplus_tree.cpp:1322-1355 | duplicate key exactly when the key is present; success adds exactly one entry, takes exactly the pages counted beforehand and keeps the invariant and all pins; a duplicate changes nothing but leaves one leaf pinned; with too few pages it fails, by a read error exactly if a page given back waits to be used again and cannot be read, and then nothing changes but that page is lost; out of pages, nothing changes if and only if no page was free, and otherwise the entry is in, no page is free any more and one split is pending |
| BPlusTree.BplusTreeHandler.InsertEntryIntoLeafNode | src/server/storage_engine/index/bplus_tree.cpp:1083-1118 | the same for the leaf that covers the key, with the exact number of pages it takes |
| BPlusTree.BplusTreeHandler.InsertEntryIntoParent | src/server/storage_engine/index/bplus_tree.cpp:1120-1207 | entering a pending right half, through any number of full ancestors, restores the invariant with unchanged contents, takes exactly the computed number of pages and gives back exactly the two pins; short of pages, the contents are unchanged and a split is pending at some level |
| BPlusTree.BplusTreeHandler.SplitLeafEntries | src/server/storage_engine/index/bplus_tree.cpp:1209-1229 | the two halves of a split leaf with the new entry in the half where it belongs and the chain relinked; a refused allocation changes nothing |
| BPlusTree.BplusTreeHandler.SplitInternalPage | src/server/storage_engine/index/bplus_tree.cpp:1209-1229 | the right half of the children moves to a fresh page and every moved child gets that page as its parent; without a free page nothing changes |
| BPlusTree.BplusTreeHandler.SetParents | src/server/storage_engine/index/bplus_tree.cpp:490-512 | the loop of copy_from: exactly the listed children change their parent, and no pin count changes |
| BPlusTree.BplusTreeHandler.InsertNewRoot | src/server/storage_engine/index/bplus_tree.cpp:1120-1150 | a new root over the two halves, or nothing when no page is free |
| BPlusTree.BplusTreeHandler.CreateNewTree | src/server/storage_engine/index/bplus_tree.cpp:1237-1260 | the tree of one leaf holding the entry, or nothing when the allocation is refused |
| BPlusTree.BplusTreeHandler.FindLeaf | src/server/storage_engine/index/bplus_tree.cpp:1035-1067 | the leaf returned is the one whose interval covers the key, and only it stays pinned |
| BPlusInsertSteps.AddChildOk | src/server/storage_engine/index/bplus_tree.cpp:364-373 | a parent with room that takes in the pending half makes the whole tree well formed |
| BPlusInsertSteps.NewRootOk | src/server/storage_engine/index/bplus_tree.cpp:351-362 | growing by one level keeps the tree well formed, slot 0 holding the zero key |
| BPlusInsertSteps.SplitLeafOk | src/server/storage_engine/index/bplus_tree.cpp:196-204 | cutting a leaf anywhere leaves a well-formed tree with one half pending |
| BPlusInsertSteps.SplitInternalOk | src/server/storage_engine/index/bplus_tree.cpp:375-386 | cutting an internal node leaves a well-formed tree with one half pending |
| BPlusRefine.SplitAndInsertIs | src/server/storage_engine/index/bplus_tree.cpp:1161-1199 | splitting a full parent and inserting into one half is the same as inserting into the overfull parent and cutting it |
| BPlusInsertRefine.FullParentDone | src/server/storage_engine/index/bplus_tree.cpp:1161-1199 | one round at a full parent: the same problem one level up, with occupancy, contents and page demand accounted for |
| BPlusInsertRefine.SplitLeafAndInsertDone | src/server/storage_engine/index/bplus_tree.cpp:1100-1118 | a full leaf split around the new entry: occupancy holds, contents grow by the entry, the split is pending |
| BPlusTree.BplusTreeHandler.DeleteEntry | src/server/storage_engine/index/bplus_tree.cpp:1592-1616 | whatever is pinned: not-exist exactly when the key is absent, and then nothing changes; otherwise exactly its entry and exactly the pages of Drops go, so many pages are free again, the invariant and every pin count are kept, and it fails if and only if one of those pages is pinned; pages wait unreadable afterwards exactly if they did before or some were given back |
| BPlusDeleteRefine.DropsStep | src/server/storage_engine/index/bplus_tree.cpp:1428-1534 | which pages the repair of a short node disposes of: none if the siblings do not fit in one page, else the right one of the two and what the parent then disposes of |
| BPlusPaths.LostEntries | src/server/storage_engine/index/bplus_tree.cpp:1120-1207 | while a split is pending, no leaf that child pointers lead to holds an entry of its right half |
| BPlusTree.BplusTreeHandler.DeleteEntryInternal | src/server/storage_engine/index/bplus_tree.cpp:1571-1590 | the same for the covering leaf, through merging, borrowing and root changes |
| BPlusTree.BplusTreeHandler.CoalesceOrRedistribute | src/server/storage_engine/index/bplus_tree.cpp:1428-1487 | a node at most one item short, at any height, is repaired: the invariant holds again, contents unchanged, pins as in the base, exactly the pages of DropsAt gone; it fails if and only if one of them is pinned |
| BPlusTree.BplusTreeHandler.Coalesce | src/server/storage_engine/index/bplus_tree.cpp:1489-1534 | two siblings become one page, the emptied page is given back to the pool, and the parent is at most one item short; it fails if and only if the emptied page is pinned by others |
| BPlusTree.BplusTreeHandler.Redistribute | src/server/storage_engine/index/bplus_tree.cpp:1536-1569 | one item crosses between siblings: the invariant holds, contents and pages unchanged, three pins released |
| BPlusTree.BplusTreeHandler.AdjustRoot | src/server/storage_engine/index/bplus_tree.cpp:1385-1426 | an empty root leaf empties the tree, a root with one child gives way to it, and the old root page is given back unless somebody else holds it |
| BPlusDeleteSteps.MergeLeafOk | src/server/storage_engine/index/bplus_tree.cpp:223-231 | merging two leaves keeps the tree well formed, chain included |
| BPlusDeleteSteps.MergeInternalOk | src/server/storage_engine/index/bplus_tree.cpp:452-461 | merging two internal nodes keeps the tree well formed, because slot 0 of the right one holds the separator between them |
| BPlusDeleteSteps.CollapseOk | src/server/storage_engine/index/bplus_tree.cpp:1385-1426 | losing a level keeps the tree well formed |
| BPlusRefine.ShiftLeafOk | src/server/storage_engine/index/bplus_tree.cpp:206-221 | moving the boundary between two leaves keeps the tree well formed and its contents |
| BPlusRefine.ShiftInternalOk | src/server/storage_engine/index/bplus_tree.cpp:463-488 | moving the boundary between two internal nodes keeps the tree well formed |
| BPlusDeleteRefine.LookupSelf | src/server/storage_engine/index/bplus_tree.cpp:1458-1462 | looking up a node's last key in its parent finds the node itself, so the index used for the neighbour is right |
| BPlusDeleteRefine.MergeLeafDone | src/server/storage_engine/index/bplus_tree.cpp:1480-1484 | leaves that fit in one page merge into a page that is neither overfull nor underfull |
| BPlusDeleteRefine.MergeInternalDone | src/server/storage_engine/index/bplus_tree.cpp:1480-1484 | the same for internal nodes |
| BPlusDeleteRefine.ShiftLeafDone | src/server/storage_engine/index/bplus_tree.cpp:1480-1484 | leaves that do not fit in one page: one entry repairs the short one and leaves the other in order |
| BPlusDeleteRefine.ShiftInternalDone | src/server/storage_engine/index/bplus_tree.cpp:1480-1484 | the same for internal nodes |
| BPlusTheorems.MinimumSize | src/server/storage_engine/index/bplus_tree.cpp:60-63 | a tree of height h >= 1 holds at least 2 * (internalMax/2)^(h-1) * (leafMax/2) entries |
| BPlusTheorems.SlotZeroKey | src/server/storage_engine/index/bplus_tree.cpp:351-386 | the ignored slot-0 key of a non-root internal node is the key beside its pointer in its parent |
| BPlusTheorems.SingleChildLookup | src/server/storage_engine/index/bplus_tree.cpp:1458-1462 | for small orders: a node left with one child is found by its slot-0 key if and only if, on the left spine, the zero key sorts below the first separator |
| BPlusPaths.ReachableAll | src/server/storage_engine/index/bplus_tree.cpp:929-953 | the pages of the index are exactly the pages reachable from the root |
| BPlusPaths.OnePath | src/server/storage_engine/index/bplus_tree.cpp:929-953 | each page has exactly one path from the root, of a length fixed by its height |
| BPlusPaths.LeavesLevel | src/server/storage_engine/index/bplus_tree.cpp:929-953 | all leaves are equally deep |
| BPlusChain.WholeChain | src/server/storage_engine/index/bplus_tree.cpp:955-995 | from the leftmost leaf, the chain lists all leaves once, left to right, and holds all entries in strictly increasing key order |
| BPlusChain.ChainLists | src/server/storage_engine/index/bplus_tree.cpp:955-995 | from any leaf, the chain visits exactly the leaves that start at or after it, once each |
| BPlusChain.LeafPasses | src/server/storage_engine/index/bplus_tree.cpp:267-328 | every leaf of a valid tree passes the source's own validation |
| BPlusChain.InternalPasses | src/server/storage_engine/index/bplus_tree.cpp:561-649 | every internal node of a valid tree passes the source's own validation |
| BPlusSearch.LowerBound | deps/common/lang/lower_bound.h:31-83 | the binary search returns the first position whose key is not below the searched one, and whether it is there |
| BPlusSearch.LeafLookup | src/server/storage_engine/index/bplus_tree.cpp:162-168 | the position where a key belongs in a leaf, and whether it is present |
| BPlusSearch.InternalLookup | src/server/storage_engine/index/bplus_tree.cpp:393-418 | the child slot whose separators enclose the key, and the slot for inserting |
| BPlusInsertRefine.LookupChild | src/server/storage_engine/index/bplus_tree.cpp:1035-1067 | the child a lookup picks covers the key |
| Keys.CompareIntSign | deps/common/lang/comparator.cpp:22-27 | the 32-bit subtraction has the sign of the comparison if and only if the difference fits in 32 bits |
| Keys.Memcmp | deps/common/lang/comparator.cpp:43-62 | the byte difference at the first place where two strings differ |
| Keys.MemcmpFirst | deps/common/lang/comparator.cpp:43-62 | different byte strings compare by the first byte in which they differ |
| Keys.MemcmpIsNum | deps/common/lang/comparator.cpp:43-62 | memcmp orders equally long byte strings as big-endian numbers and tells different ones apart |
| Keys.CompareKeyIsRank | src/server/include/storage_engine/index/bplus_tree.h:72-95 | within a window the key comparator is the integer order of ranks, and equal ranks are equal keys |
| Keys.KeyCfgOk | src/server/include/storage_engine/index/bplus_tree.h:72-95 | with the source's comparator on the keys of a window an index is well configured |
| Keys.WindowExact | deps/common/lang/comparator.cpp:22-27 | every two of a set of integers are compared correctly if and only if some window holds them all |
| Keys.SearchExact | deps/common/lang/comparator.cpp:22-27 | a search for a key, and the test for the end of a scan, compare every stored key correctly if and only if every stored value differs from the searched one by what fits in 32 bits |
| Keys.EndTestWraps | src/server/storage_engine/index/bplus_tree.cpp:1762-1771 | a stored -2^31 is taken to lie beyond a right end of 2^31 - 1 |
| BPlusScanner.BplusTreeScanner.OpenKeys | src/server/storage_engine/index/bplus_tree.cpp:1626-1755 | on success what remains to be delivered is exactly the entries between the bounds, in key order; beyond the current frame exactly the leaf of the left bound stays pinned, if all its entries are below the bound and the scan moves on |
| BPlusScanner.BplusTreeScanner.NextEntry | src/server/storage_engine/index/bplus_tree.cpp:1773-1819 | delivers the first of the remaining entries, or reports the end exactly when none remains |
| BPlusScanner.SeekFrom | src/server/storage_engine/index/bplus_tree.cpp:1686-1712 | wherever the left key leads, exactly the entries not below it are ahead |
| BPlusRange.Drain | src/server/storage_engine/index/bplus_tree.cpp:1371-1374 | calling next_entry to the end delivers everything that remained, in order |
| BPlusRange.ScanBounds | src/server/storage_engine/index/bplus_tree.cpp:1626-1819 | a scan between attribute bounds delivers the RIDs of exactly the entries within, once each, in key order |
| BPlusRange.BoundKeys | src/server/storage_engine/index/bplus_tree.cpp:1676-1682 | RID::min and RID::max in the search keys make the bounds inclusive or exclusive on the attribute |
| BPlusRange.ScanInts | src/server/storage_engine/index/bplus_tree.cpp:1626-1819 | the same for integer bounds on an index with the source's comparator, with bounds in the index's window, and the exact condition for refusing them |
| BPlusRange.GetIntEntry | src/server/storage_engine/index/bplus_tree.cpp:1357-1383 | on an INTS index, the RIDs of exactly the entries with the given value, in key order |
| BPlusRange.RejectedIntsEmpty | src/server/storage_engine/index/bplus_tree.cpp:1640-1648 | refused integer bounds admit no value when their difference fits; otherwise bounds are refused exactly when they are in order |
| BPlusTextScan.ScanText | src/server/storage_engine/index/bplus_tree.cpp:1626-1819 | a scan between text bounds of any length is refused if and only if the bounds are out of order, or equal with one side exclusive, as far as the attribute reaches; otherwise it delivers exactly the entries whose text lies within, in key order, unless the incremented byte overflows |
| BPlusTextScan.RejectedExact | src/server/storage_engine/index/bplus_tree.cpp:1639-1647 | bounds that are not over-long are refused exactly when they are out of text order, or equal with one side exclusive; over-long ones that differ before the cut are judged by their text, and ones that agree up to it are refused exactly when one is exclusive |
| BPlusTextScan.RejectedEmpty | src/server/storage_engine/index/bplus_tree.cpp:1640-1648 | refused text bounds admit a value if and only if the fronts are equal, the left bound is inclusive and not over-long, and the right one is over-long |
| BPlusTextScan.GetEntry | src/server/storage_engine/index/bplus_tree.cpp:1357-1383 | on a CHARS index, the RIDs of exactly the entries with the given attribute value, in key order |
| UserKeys.FixRightExact | src/server/storage_engine/index/bplus_tree.cpp:1832-1879 | cutting or padding a right bound admits exactly the values the original bound admits |
| UserKeys.TextOrder | deps/common/lang/comparator.cpp:43-62 | texts compare by the first byte in which they differ, the shorter one being read as if followed by zero bytes |
| UserKeys.FixLeftExact | src/server/storage_engine/index/bplus_tree.cpp:1832-1879 | the rewritten left bound is exact for every value if and only if no byte overflows in the increment |
| BufferPool.FileBufferPool.AllocatePage | src/server/storage_engine/buffer/buffer_pool.cpp:99-188 | hands out the lowest page not in use; refuses exactly when all are in use; fails to read exactly when the page was in use before and pages given back are not in the file, and then keeps the page and its pinned frame; the page count stays equal to the set bits |
| BufferPool.FileBufferPool.DisposePage | src/server/storage_engine/buffer/buffer_pool.cpp:320-336 | the page and its frame are given back and nothing else changes |
| BufferPool.FileBufferPool.FirstFree | src/server/storage_engine/buffer/buffer_pool.cpp:138-150 | with fewer pages in use than the file has, the search hits the first free one |
| Bits.BitIsShift | deps/common/lang/bitmap.cpp:55-71 | a bit is the one of its byte that the shift by its number modulo 8 selects |
| Bitmaps.NextSettedBit | deps/common/lang/bitmap.cpp:96-117 | returns the next set bit if and only if the search is sound, and otherwise the next one from the same offset of the first non-zero byte |
| Bitmaps.SoundAfterSet | deps/common/lang/bitmap.cpp:96-117 | a search that starts right after a set bit is sound, whatever follows |
| Bitmaps.MissedBit | deps/common/lang/bitmap.cpp:96-117 | a bitmap on which the search from 1 misses bit 8 |
| Bitmaps.NextUnsettedBit | deps/common/lang/bitmap.cpp:73-94 | from any start, returns the next clear bit if and only if the search is sound, and otherwise the next one from the same offset of the first byte that is not 0xFF |
| Bitmaps.MissedClearBit | deps/common/lang/bitmap.cpp:73-94 | a bitmap on which the search from 1 misses the clear bit 8 |
| Records.InsertInPage | src/server/storage_engine/recorder/record_manager.cpp:151-178 | the first free slot takes the record, the record count equals the set slots, and a full page refuses |
| Records.DeleteInPage | src/server/storage_engine/recorder/record_manager.cpp:202-225 | exactly the slot is cleared, with the error cases |
| Records.RecordFileHandler.InsertRecord | src/server/storage_engine/recorder/record_manager.cpp:299-356 | exactly one record is added and all others keep their data; a new page is taken only when every page is full; pins are balanced; it fails exactly when every page is full and none can be allocated |
| Records.RecordFileHandler.DeleteRecord | src/server/storage_engine/recorder/record_manager.cpp:369-392 | exactly the record goes and its page is known to have room again, with the error cases |
| Records.RecordFileHandler.GetRecord | src/server/storage_engine/recorder/record_manager.cpp:227-243 | the data of a live record, with the error cases |
| RecordScan.InitFreePages | src/server/storage_engine/recorder/record_manager.cpp:275-297 | opening a file finds exactly the pages with room |
| RecordScan.NextPage | src/server/storage_engine/buffer/buffer_pool.cpp:353-363 | the first allocated page after the current one |
| RecordScan.RecordFileScanner.NextSlot | src/server/storage_engine/recorder/record_manager.cpp:51-59 | the next live slot of the page, no live slot skipped |
| RecordScan.RecordFileScanner.FetchNext | src/server/storage_engine/recorder/record_manager.cpp:462-499 | the first of the records still to come becomes the next one |
| RecordScan.RecordFileScanner.Next | src/server/storage_engine/recorder/record_manager.cpp:554-562 | delivers the first upcoming record with its data |
| RecordScan.ScanAll | src/server/storage_engine/recorder/record_manager.cpp:433-562 | a scan delivers every live record that passes the filter, once, with its data, in page and slot order |
| Lru.LruCache.Get | deps/common/lang/lru_cache.h:100-110 | an item that is found moves to the front of the abstract list; the pointers form one list in both directions over exactly the hashed nodes |
| Lru.LruCache.Put | deps/common/lang/lru_cache.h:112-124 | the item is at the front afterwards, the others keep their order |
| Lru.LruCache.Remove | deps/common/lang/lru_cache.h:126-132 | the item is gone, the others keep their order |
| Lru.LruCache.Touch | deps/common/lang/lru_cache.h:161-182 | the pointer updates move one node to the front |
| Lru.LruCache.Push | deps/common/lang/lru_cache.h:184-199 | a new node at the front |
| Lru.LruCache.Erase | deps/common/lang/lru_cache.h:201-220 | a node leaves the list and the hash set |
| Lru.LruCache.ForEach | deps/common/lang/lru_cache.h:140-148 | visits a prefix of the list in order, up to the first callback that says stop |
| Lru.LruCache.ForEachReverse | deps/common/lang/lru_cache.h:150-158 | visits the list in reverse order, up to the first callback that says stop |
| Lru.LruCache.Count | deps/common/lang/lru_cache.h:95-98 | the number of items |
| Lru.WithoutAt | deps/common/lang/lru_cache.h:126-132 | dropping a key drops its one item and keeps the order of the others |
| Frames.FrameManager.Alloc | src/server/storage_engine/buffer/frame_manager.cpp:21-39 | the cached frame or the first free one, pinned once more; cached identifiers and used frames stay in bijection; no frame serves two pages |
| Frames.FrameManager.Get | src/server/storage_engine/buffer/frame_manager.cpp:53-60 | a cached frame moves to the front and is pinned; nothing else changes |
| Frames.FrameManager.Free | src/server/storage_engine/buffer/frame_manager.cpp:88-99 | the page leaves the cache and its frame, unpinned, joins the free list |
| Frames.FrameManager.FindList | src/server/storage_engine/buffer/frame_manager.cpp:66-79 | exactly the frames of a file, at strictly ascending positions of the list, each pinned once more |
| Frames.OneFrameOneId | src/server/storage_engine/buffer/frame_manager.cpp:21-39 | no frame is cached under two identifiers |
| Frames.MemPoolSimple.Init | deps/common/mm/mem_pool.h:187-214 | the pool holds the requested number of free frames, or refuses bad arguments |
| Frames.MemPoolSimple.Extend | deps/common/mm/mem_pool.h:241-267 | adds one pool of new free frames, unless the pool may not grow |
| Frames.MemPoolSimple.Alloc | deps/common/mm/mem_pool.h:270-292 | the frame at the head of the free list; used and free frames remain a partition of the pool |
| Frames.MemPoolSimple.Free | deps/common/mm/mem_pool.h:295-313 | a used frame goes to the end of the free list; any other is left alone |
| Frames.PartitionSize | deps/common/mm/mem_pool.h:240-313 | size is used plus free |
| SharedMutex.Safe | deps/common/lang/mutex.cpp:391-448 | in every state of every run of any number of threads: no writer beside readers or a second writer, recursion count positive exactly when owned, no reader asleep without a writer, a free lock with a sleeping writer has a woken one |
| SharedMutex.StepOk | deps/common/lang/mutex.cpp:391-448 | every step, spurious wake-ups included, keeps the invariant |
| SharedMutex.Progress | deps/common/lang/mutex.cpp:391-448 | whenever the lock is free and somebody waits, some woken thread acquires it as soon as it runs |
| SharedMutex.Recursive | deps/common/lang/mutex.cpp:419-448 | the owner locks again without waiting, and the unlock that frees the lock is the one that matches the first lock |
| SharedMutex.UpgradeDeadlocks | deps/common/lang/mutex.cpp:419-432 | a reader that asks for the write lock waits in every later state of the run |
| SharedMutex.OwnerDeadlocks | deps/common/lang/mutex.cpp:391-408 | the writer that asks for a shared lock waits in every later state of the run, and trying is refused |
| SharedMutex.RecursiveSharedMutex.LockSharedPass | deps/common/lang/mutex.cpp:391-398 | the caller becomes a reader if and only if nobody, itself included, holds the write lock, and waits otherwise; the counters keep counting the holders |
| SharedMutex.RecursiveSharedMutex.TryLockShared | deps/common/lang/mutex.cpp:400-408 | the same without waiting: refused if and only if somebody holds the write lock |
| SharedMutex.RecursiveSharedMutex.LockPass | deps/common/lang/mutex.cpp:419-432 | the caller holds the write lock once more if and only if the lock is free or the caller is the writer, and waits otherwise; readers exclude a writer throughout |
| SharedMutex.RecursiveSharedMutex.UnlockShared | deps/common/lang/mutex.cpp:410-417 | the caller holds one shared lock less, and a writer is notified if and only if no reader is left |
| SharedMutex.RecursiveSharedMutex.Unlock | deps/common/lang/mutex.cpp:434-448 | the writer holds the lock once less, and readers and a writer are notified if and only if it no longer holds it |
| Md5.Digest | deps/common/math/md5.cpp:154-230 | however a message is cut into updates on which the loop ends, the digest is that of the message padded as RFC 1321, sections 3.1 and 3.2, says, compressed block by block, for every compression function |
| Md5.PaddedIs | deps/common/math/md5.cpp:206-222 | the padded message is the shortest whole number of blocks that holds the message, a byte 128, zero bytes and eight bytes with the length in bits modulo 2^64, low byte first |
| Md5.PaddingUnique | deps/common/math/md5.cpp:206-222 | there is only one such padding |
| Md5.InitialBytes | deps/common/math/md5.cpp:154-164 | the initial state, low byte first, is the byte string 01 23 45 67 89 ab cd ef fe dc ba 98 76 54 32 10 |
| Md5.Context.Update | deps/common/math/md5.cpp:170-200 | on every input on which the loop ends: whole blocks of the message so far are compressed, the rest is buffered, and the two-word counter is the bit length modulo 2^64 |
| Md5.NeverEnds | deps/common/math/md5.cpp:187-197 | on the other inputs with a 32-bit length the condition for leaving the loop is never met |
| Md5.Context.Final | deps/common/math/md5.cpp:206-230 | the digest of the whole message, and a wiped context |
| Md5.CountSum | deps/common/math/md5.cpp:177-180 | the carry taken from the wrapped low word makes the two words the sum modulo 2^64 |
| Md5.Encode | deps/common/math/md5.cpp:329-340 | each word as four bytes, low byte first |
| Md5.Decode | deps/common/math/md5.cpp:345-352 | the words whose encoding is the input |
| Md5.EncodeInjective | deps/common/math/md5.cpp:329-352 | different words have different encodings, so decoding undoes encoding |
| Md5.PaddingInjective | deps/common/math/md5.cpp:206-222 | different messages are padded differently while their bit lengths fit in 64 bits |
| Dates.JulianNext | deps/common/time/datetime.h:249-255 | each day's number is one more than that of the day before |
| Dates.Epoch | deps/common/time/datetime.h:61-65 | 1 January 1970 is day 2440588 |
| Dates.YmdOfJulian | deps/common/time/datetime.h:249-269 | get_ymd undoes julian_date on every valid date from 1 March of year -4800 on |
| Dates.JulianOfYmd | deps/common/time/datetime.h:249-269 | julian_date undoes get_ymd, which yields a valid date, for every day number in range |
| Dates.JulianOrder | deps/common/time/datetime.h:249-255 | day numbers order dates as the calendar does |
| Dates.MaxDayIs | deps/common/time/datetime.cpp:232-250 | the month lengths are those of the proleptic Gregorian calendar |
| Dates.Truncates | deps/common/time/datetime.h:187-202 | the quotient truncates and the remainder has the sign of the dividend |
| Durations.Normalize | deps/common/time/datetime.cpp:209-227 | the day-normalising loop always ends, and on a valid date with the same day number if and only if the day meant does not lie before the year it is written in |
| Durations.TurnForward | deps/common/time/datetime.cpp:209-227 | a turn of the loop keeps the day number and reduces the day |
| Durations.TurnBack | deps/common/time/datetime.cpp:209-227 | a turn that borrows a month keeps the day number if and only if the month is not January |
| Durations.DateTime.AddDuration | deps/common/time/datetime.cpp:158-230 | twelve times the year plus the month grows by twelve times the years plus the months, the day is the same or the last of a shorter month; days and clock time are then added exactly; milliseconds are dropped |
| Durations.DateTime.AddSeconds | deps/common/time/datetime.h:187-202 | exact to the millisecond; the time of day is normal unless the sum falls exactly on midnight |
| Durations.DateTime.GetHms | deps/common/time/datetime.h:111-118 | the clock reading whose milliseconds are the time of day |
| RingBuffers.RingBuffer.Write | src/server/session/ring_buffer.cpp:73-92 | takes as many bytes as there is room for, in order |
| RingBuffers.RingBuffer.Read | src/server/session/ring_buffer.cpp:18-39 | takes the oldest bytes out, in order |
| RingBuffers.RingBuffer.Peek | src/server/session/ring_buffer.cpp:41-57 | the oldest bytes: all of them, or those up to the end of the array |
| RingBuffers.RingBuffer.Forward | src/server/session/ring_buffer.cpp:59-71 | drops the oldest bytes; nothing or too much is refused |
| RingBuffers.RingBuffer.ReadPos | src/server/include/session/ring_buffer.h:60-73 | the position of the oldest byte |
| RingBuffers.BufferedWriter.FlushInternal | src/server/session/buffered_writer.cpp:80-113 | bytes emitted followed by bytes held stay the same; at least the requested number is emitted, or all, and it fails exactly if the descriptor gave an error among the replies it used up |
| RingBuffers.BufferedWriter.Write | src/server/session/buffered_writer.cpp:34-47 | a prefix is accepted; on success with bytes to write it is not empty if and only if the ring has any capacity; it fails exactly if the descriptor gave an error |
| RingBuffers.BufferedWriter.Writen | src/server/session/buffered_writer.cpp:49-66 | all bytes are accepted, or a prefix, exactly if the descriptor gave an error |
| RingBuffers.BufferedWriter.Flush | src/server/session/buffered_writer.cpp:68-78 | it fails exactly if the descriptor gave an error; otherwise the ring is empty and everything accepted has been emitted |
| RingBuffers.BufferedWriter.Close | src/server/session/buffered_writer.cpp:19-32 | the descriptor is given up exactly when everything has been emitted, which fails exactly if the descriptor gave an error |
| RingBuffers.Session | src/server/session/buffered_writer.cpp:34-113 | for every sequence of calls and every behaviour of the descriptor, bytes emitted followed by bytes held are the bytes written, or a prefix of them after a failure; a call fails exactly if the descriptor gave an error, so all calls are made if it never does |
| RedoLog.ReadBack | src/server/storage_engine/recover/log_manager.cpp:9-40 | reading the bytes of any sequence of well-formed entries returns that sequence and then the end of the file |
| RedoLog.ReadTruncated | src/server/storage_engine/recover/log_manager.cpp:9-40 | reading any truncation returns exactly the entries that are whole, then the end of the file or a read error |
| RedoLog.WholeMax | src/server/storage_engine/recover/log_manager.cpp:9-40 | the number of whole entries is the largest whose bytes fit |
| RedoLog.ReadFile | src/server/storage_engine/recover/log_manager.cpp:9-40 | iterating over a file returns what the bytes say |
| RedoLog.LogEntryIterator.Next | src/server/storage_engine/recover/log_manager.cpp:9-40 | one entry and the position after it, or the reason for stopping |
| RedoLog.ReadOneBack | src/server/storage_engine/recover/log_entry.cpp:119-142 | a written entry is read back, whatever follows it |
| RedoLog.LogBuffer.Append | src/server/storage_engine/recover/log_file.cpp:9-24 | the entry is queued unless the buffer would reach its limit |
| RedoLog.LogBuffer.WriteEntry | src/server/storage_engine/recover/log_file.cpp:26-60 | the bytes of the header and of what the type calls for |
| RedoLog.EntryLayout | src/server/include/storage_engine/recover/log_entry.h:24-58 | where each 32-bit integer of an entry is, low byte first: transaction at 0, type at 4, length at 8, and the number of a commit or the six integers and the data of a record from 12 on |
| RedoLog.LogBuffer.Flush | src/server/storage_engine/recover/log_file.cpp:62-86 | the queued entries go to the file in order and the queue is empty |
| RedoLog.LogManager.AppendCommit | src/server/storage_engine/recover/log_manager.cpp:79-87 | unless the buffer is full, every accepted entry and the commit entry are in the file in order, reading the file returns them, and the queue is empty |
| Pushdown.RewritePreserves | src/server/query_engine/optimizer/rewriter.cpp:11-46 | every plan on which overwriting scan predicates is harmless yields the same rows in the same order after rewriting, for all tables, comparisons and other operators |
| Pushdown.PlannedIsReady | src/server/query_engine/planner/node/logical_plan_generator.cpp:100-116 | overwriting is harmless on the plans that the planner makes, whose scans have no predicates yet |
| Pushdown.RuleExact | src/server/query_engine/optimizer/predicate_pushdown_rewriter.cpp:8-52 | scan and filter conditions mean the same before and after the rule if and only if overwriting the scan's predicates is harmless |
| Pushdown.PushedMoves | src/server/query_engine/optimizer/predicate_pushdown_rewriter.cpp:60-103 | exactly the comparisons with a field on one side that only ANDs lead to are moved, one for each way down to them, from left to right |
| Pushdown.RuleMoves | src/server/query_engine/optimizer/predicate_pushdown_rewriter.cpp:8-52 | the scan gets the moved comparisons, or keeps what it had if there are none, and then nothing changes at all; a condition that was moved whole leaves TRUE behind |
| Pushdown.RewritesAll | src/server/query_engine/optimizer/rewriter.cpp:11-46 | the rule is carried out at every predicate node over a scan, wherever it is in the plan |
| Pushdown.ChangesExact | src/server/query_engine/optimizer/rewriter.cpp:11-46 | a pass reports a change if and only if the one condition of some predicate node directly over a single scan has a comparison to move |
| Pushdown.OverwrittenPredicate | src/server/query_engine/optimizer/predicate_pushdown_rewriter.cpp:47-50 | a scan that already has a predicate loses it |
| Pushdown.SplitMeaning | src/server/query_engine/optimizer/predicate_pushdown_rewriter.cpp:60-103 | the moved comparisons together with what stays mean what the expression meant, for AND and OR nested at will |
| Pushdown.Conserved | src/server/query_engine/optimizer/predicate_pushdown_rewriter.cpp:60-103 | every comparison is either moved or stays, as often as it occurs |
| Pushdown.RestIsFixed | src/server/query_engine/optimizer/predicate_pushdown_rewriter.cpp:60-103 | what stays has nothing more to move, and only pushable comparisons were moved |
| Pushdown.RewriteTwice | src/server/query_engine/optimizer/rewriter.cpp:11-46 | a second pass changes nothing and reports no change |
| Pushdown.GetExprsCanPushdown | src/server/query_engine/optimizer/predicate_pushdown_rewriter.cpp:60-103 | the recursive walk moves exactly the comparisons with a field on one side that only ANDs lead to, from left to right, and returns the rest that the lemmas are about |
| Pushdown.PushdownChildren | src/server/query_engine/optimizer/predicate_pushdown_rewriter.cpp:70-86 | the loop that erases moved children while walking them |
| Pushdown.RewriteRule | src/server/query_engine/optimizer/predicate_pushdown_rewriter.cpp:8-52 | the rule at one node, and whether it changed anything |
| Pushdown.Rewrite | src/server/query_engine/optimizer/rewriter.cpp:11-46 | the rule at every node; it reports a change if and only if some predicate node directly over a single scan has a comparison to move |

## Left out

- Writing and evicting pages: the bodies of the flush and evict functions are empty in the source, and a page stays in its frame between unpin and dispose. A page is read only when it is used again; such reads fail all or never, as `stored` says.
- AllocatePage: running out of frames, where the source waits in a loop that does not end, because evicting does nothing.
- Concurrency of the tree, the buffer pool, the record file and the log: each operation runs alone. Only the lock is modelled with threads.
- FLOATS keys, whose comparison has an epsilon and is not transitive, and DATES keys, which compare like INTS.
- Runs and scans on INTS indexes whose values lie in no common window: the comparator then is no order, and only single comparisons are described (`SearchExact`).
- Release builds, in which the assertion about pinned pages does nothing and such a page would be disposed of under its holder.
- Indexes over several columns, whose scan bounds zero-fill the suffix, and scans with `isdelete`.
- Bounds shorter than the attribute are read as if followed by zero bytes in the argument check of `open`, where the source compares whatever follows them in memory.
- RunThenScanInts: keys whose RID is (0, 0) or has the largest page and slot numbers, which no record has and which the search keys of a scan use; RunThenScanText and RunThenGet likewise.
- Orders below `leafMax` 4 and `internalMax` 6, where the lookup after a removal can read slot 0 or slot -1; `SingleChildLookup` states what happens at slot 0.
- InsertEntry: after a refused duplicate the pin count of the leaf is one too high, as in the source. Operations on a tree with a pending split are not modelled.
- DeleteEntry: after a failed assertion nothing is promised, because the process has stopped.
- Scanners are opened once; reopening a record scanner in the middle of a page is not modelled.
- `recover_page`, `recover_insert_record` and everything else that only recovery calls.
- `fix_record_capacity` and the page geometry: the slot capacity of a record page is a parameter.
- The condition filter of a record scan is a total function and there is no transaction.
- `reinit`, `reset` and the page number in a frame.
- The body of MD5Transform: the compression of one block is a parameter, so nothing depends on its 64 steps.
- Update: inputs on which the source's loop does not end (`NeverEnds`), and lengths that are no 32-bit number.
- Julian day numbers beyond the range of 32-bit integers, and dates before 1 March of year -4800.
- AddDuration: negative durations; `Normalize` states where their day loop goes wrong. Parsing durations from text.
- Normalize: days before 1 March of year -4800, where the day number formula changes.
- Descriptors that answer EAGAIN or zero for ever: the retry loop of the source does not end on them.
- Writen: bytes to write on a ring without capacity, on which the source's loop does not end because `Write` accepts nothing.
- DeleteRecord: record identifiers that name the header page or a negative slot, which the source reads as if they were records. A page that the file never had gives a read error, as on the first attempt in the source; the frame that such an attempt leaves behind, because evicting a page does nothing there, is not modelled.
- GetRecord: the same record identifiers.
- Failures while writing the log file, on which the source stops the process.
- Expressions whose evaluation fails, and predicates evaluated together with the row of an outer query.
- SQL parsing, the network server, metadata, transactions and the other rewrite rules.
