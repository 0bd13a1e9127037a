# Verified model of scale-kv

scale-kv keeps rows in a paged B+Tree, old versions of them in undo pages, and
replicates page images from one compute node to storage nodes, which log them,
apply them to a buffer pool and recover from the log. Beside this it has a
small transactional store (`txn_kv`) and secondary indexes. In each of these
places a fast paged or logged structure has to agree with a plain mapping or a
plain history. This project models those structures in Dafny and proves that
they do.

`dafny verify dfyconfig.toml` verifies everything.

**Byte layer and tree.** `Params`, `Bytes` and `KeyOrder` are shared. `TreePage` relates
the bytes of a tree page to the node it holds, and `TreeSplit` the bytes of a
split to the halves of the node. `TreeModel` says what a well-formed graph of
pages is, by the range and level of each page, and what mapping it stands for.
`TreeSteps` and `TreePut` prove what a split, a new root and a leaf write do to
both; `TreeHeight` bounds the depth, `TreeScan` follows the leaf chain and
`TreeCount` relates keys to leaves.
`BPlusTree` has the tree itself: a class over a map from page ids to bytes,
whose `Insert`, `Get` and `Range` refine a mapping. `RangeLimit` builds a tree
on which `Range` does not.

**Versions.** `UndoPage`, `MetaPage` and `LeafValue` are the stored forms.
`UndoModel` defines committed histories, what a reader must see, and when an
undo chain spells out a history. `MvccState` has the engine invariant: which
segment owns which undo page, the history list, the rows, the snapshots.
`MvccWrite`, `MvccEnd` and `MvccGc` prove every step keeps it, and `Mvcc` has
the engine, in which a snapshot's read is exactly the newest version it may see
and never follows a pointer into a purged segment. The primary tree is a map
there.

**Replication.** `Replication` is the protocol between sequencer and storage
nodes as a state machine, with late, lost and rejected requests, failing log
writes and lost replies; its main theorem is about whole runs.
`ReplicationAhead` shows that it needs its assumption: from every connection
with a node past the LSN the sequencer starts from, some run loses a commit. `Sequencer` has the code that runs
inside the steps. LSNs number log positions; the nodes number records from 1,
so position 0 of the common log stands for no record.

**Recovery.** `RedoModel` and `PageStore` are a storage node's buffer pool,
page file, checkpoint, persisted applied LSN and log segments, with crashes that
may tear pages being written; `WalFrames` is what a log segment reads as, also when
its last frame is cut off.

**txn_kv.** `TxnCodec`, `TxnStore` and `TxnSnapshot` are log, store and
snapshot file; `TxnState` and `TxnIsolation` are snapshot isolation as a
machine with its runs, `TxnManager` the manager with crash-transparent
checkpoints, `TxnScan` the range scan. The checksum is any function.

**Secondary indexes and slotted pages.** `SecondaryIndex` and `IndexManager`
agree with a scan of the committed rows at every LSN, and `IndexHeld` says when
they do under the engine's own planning; `PostingPage` and `PostingLog` are the log, and `IndexRecovery` rebuilds them from it after a
restart. `SlottedPage` is the slotted page, in place.

Each engine step is one atomic method that keeps a validity predicate, so what
holds of every valid state holds in every run of such steps.

Seven properties do not hold of the code as it is. Each is shown to fail, and the
condition under which it holds is stated exactly:

- a range scan that looks at more than 8192 leaves (`Range`, `UnsortedRange`);
- a commit returned while a node is past the start LSN
  (`CoveredExactlyWhenNonePast`, `NodeAheadLosesARecord`);
- the reads of a transaction begun inside the window of a commit
  (`RepeatsExactly`, `UnrepeatableRead`);
- what such a transaction overwrites (`OverwritesExactly`, `LostUpdate`);
- a snapshot read through an undo page cached while it was filling (`Read`,
  `StaleRead`);
- the pages of a storage node opened after a crash (`OpenRestoresExactly`,
  `LosesAPage`);
- a secondary index on a row put back over its tombstone (`CommitGoodExactly`,
  `MissedRow`).

Names are followed by what the code does: the collection's `budget_pages`, for
one, counts rows (`src/embedded_compute.rs:700-704`).

## Model

| member | source | states |
|---|---|---|
| `Bytes.CopyInto` | src/page_bptree.rs:1693-1696 | Copying bytes into a page buffer at an offset changes that window and nothing else. |
| `KeyOrder.LexIsNumeric` | src/page_bptree.rs:1769-1783 | Row keys, compared as byte strings, are ordered exactly as the numbers they spell, and equal exactly when those are; the tree invariants use the numbers. |
| `TreePage.HeaderRoundTrip` | src/page_bptree.rs:1588-1654 | A page header read back is the header that was written: type, level, count, leaf links, left child, high key. |
| `TreePage.HoldsReadsAt` | src/page_bptree.rs:1698-1735 | On a page that holds a node, reading the i-th key and value through the offset table gives the i-th entry. |
| `TreePage.HoldsUnique` | src/page_bptree.rs:1737-1752 | The bytes of a page determine its header and its entries. |
| `TreePage.SpanMonotone` | src/page_bptree.rs:1785-1801 | The space n entries need grows with n, so capacity is one threshold per page type. |
| `TreePage.CollectEntries` | src/page_bptree.rs:1737-1752 | Inverts encoding: returns exactly the entries the page holds, in order. |
| `TreePage.WriteHeader` | src/page_bptree.rs:1626-1654 | Writes the 48 header bytes and leaves the rest of the page alone. |
| `TreePage.PackEntries` | src/page_bptree.rs:1962-1991 | The packing loop lays out offset table and entries without overlap, or reports the first entry with a key or value of the wrong size or no space left, by the error for that. |
| `TreePage.EncodeEntries` | src/page_bptree.rs:1962-1991 | Succeeds exactly when every entry has the size of its page type and all fit in the page; then the page holds the given header and entries, every offset inside the page and below 2^16. |
| `TreePage.NewPage` | src/page_bptree.rs:1656-1669 | A new page holds an empty node of its type. |
| `TreePage.FindKeyPos` | src/page_bptree.rs:1769-1783 | Binary search on sorted keys: the position of the key if present, else the only position that keeps the order. |
| `TreePage.ChildInsertPosForKey` | src/page_bptree.rs:1817-1832 | The number of separators not above the key: those before the position are at most the key, those from it on are greater. |
| `TreePage.LowerBoundInLeaf` | src/page_bptree.rs:1943-1960 | The first position whose key is not below the bound. |
| `TreePage.ChildIdIsKid` | src/page_bptree.rs:1834-1842 | The child read for a position is the left child for 0, else the id in the entry before. |
| `TreePage.RebuildPageWithInsert` | src/page_bptree.rs:1844-1879 | The rebuilt page holds the old entries with the new one inserted at the position, under the old header. |
| `TreeSplit.SplitLeaf` | src/page_bptree.rs:1993-2013 | Splits a leaf at half its entries: both halves hold their part, the separator is the right half's first key, the left high key becomes the separator and the right half keeps the old one. |
| `TreeSplit.SplitPage` | src/page_bptree.rs:1365-1416 | Both halves of a full page of either kind; the halves of a leaf are spliced into the leaf chain. |
| `TreeSplit.SplitHalves` | src/page_bptree.rs:1365-1416 | The halves differ by at most one entry and together are the page: a leaf's entries are shared out, and of an internal page the middle entry goes up, its child to the right half. |
| `TreeSplit.SplitInternal` | src/page_bptree.rs:2015-2037 | Splits an inner node around its middle entry, whose key moves up and whose child becomes the right half's left child. |
| `TreeSplit.OverwriteValue` | src/page_bptree.rs:469-480 | Overwriting a leaf value in place changes that entry's value in the node and nothing else. |
| `TreeModel.CoverUnique` | src/page_bptree.rs:1097-1123 | Two pages of one level never cover the same key. |
| `TreeModel.LeafDecides` | src/page_bptree.rs:413-437 | A key is in the tree's contents exactly when the one leaf covering it has it, with the value that leaf has. |
| `TreeSteps.SplitKeepsTree` | src/page_bptree.rs:1365-1416 | Splitting a full child and hooking the right half into the parent keeps order, separator bounds, uniform depth, high keys and the leaf chain. |
| `TreeSteps.SplitKeepsContents` | src/page_bptree.rs:1365-1416 | A split does not change the mapping the tree stands for. |
| `TreeSteps.SplitKeepsAnchored` | src/page_bptree.rs:1993-2037 | After a split, the first key of every leaf but the leftmost is still its lower separator. |
| `TreePut.RaiseKeepsTree` | src/page_bptree.rs:1305-1362 | Putting a new root above the old one keeps the tree well formed, one level deeper everywhere. |
| `TreePut.PutKeepsTree` | src/page_bptree.rs:447-535 | Writing one key into the leaf that covers it keeps the tree well formed. |
| `TreePut.PutKeepsContents` | src/page_bptree.rs:447-535 | Writing one key into its leaf updates the mapping at that key only. |
| `TreePut.InsertIsPut` | src/page_bptree.rs:482-487 | Inserting at the binary-search position is the ordered insertion of the key. |
| `TreePut.OverwriteIsPut` | src/page_bptree.rs:468-480 | Overwriting at the found position is the update of the key. |
| `TreeHeight.SubtreeSize` | src/page_bptree.rs:1365-1416 | A non-empty subtree of height h holds at least 2^h keys. |
| `TreeHeight.HeightBound` | src/page_bptree.rs:1097-1123 | The tree has at most 128 levels above the leaves, whatever was inserted. |
| `TreeScan.ChainIsInOrder` | src/page_bptree.rs:1993-2013 | The chain of next-leaf links from the leftmost leaf is exactly the in-order sequence of leaves. |
| `TreeScan.HighKeyIsNextFirst` | src/page_bptree.rs:2001-2011 | A leaf's high key is the first key of the next leaf, and the upper bound of the leaf's range. |
| `TreeScan.ListingsAgree` | src/page_bptree.rs:888-896 | A strictly ascending listing of a mapping's entries in a range is unique, and a prefix of the listing of any longer range from the same start. |
| `TreeCount.LeafCapacity` | src/page_bptree.rs:1785-1801 | A leaf page holds at most 15 entries. |
| `TreeCount.ManyKeys` | src/page_bptree.rs:957-1024 | A range of n keys needs at least n / 15 leaves. |
| `TreeCount.FewKeysFewLeaves` | src/page_bptree.rs:957-1024 | A scan of a range of n keys looks at no more than n + 2 leaves. |
| `TreeScan.ScanAdvances` | src/page_bptree.rs:956-1026 | Each hop of a range scan reaches the leaf that follows and has visited every key before it. |
| `TreeScan.ScanEnds` | src/page_bptree.rs:956-1026 | A scan that stops at a key past the end, or at the last leaf, has visited every key in the range. |
| `BPlusTree.SplitStep` | src/page_bptree.rs:1365-1416 | Page writes of a child split refine the split of the node graph. |
| `BPlusTree.RootSplitStep` | src/page_bptree.rs:1305-1362 | Page writes of a root split refine raising the tree and splitting the old root. |
| `BPlusTree.PutStep` | src/page_bptree.rs:447-535 | The page write of a leaf put refines the update of the mapping. |
| `BPlusTree.PageBPlusTree.constructor` | src/page_bptree.rs:379-389 | An empty tree is valid and stands for the empty mapping. |
| `BPlusTree.PageBPlusTree.SplitChildAndUpdateParent` | src/page_bptree.rs:1365-1416 | Splits a full child under a parent with room: the pages are those of the split node graph, and the mapping is unchanged. |
| `BPlusTree.PageBPlusTree.EnsureRootNotFull` | src/page_bptree.rs:1305-1362 | Afterwards the root has room, and the mapping is unchanged. |
| `BPlusTree.PageBPlusTree.DescendForInsert` | src/page_bptree.rs:490-534 | Each round of the descent splits the child if it is full and goes one level down to a page that covers the key and has room, so a full parent is never met. |
| `BPlusTree.PageBPlusTree.PutInLeaf` | src/page_bptree.rs:467-488 | Overwrites or inserts in the leaf reached: the mapping is updated at the key. |
| `BPlusTree.PageBPlusTree.Insert` | src/page_bptree.rs:447-535 | Fails exactly on a key of the wrong size, changing nothing; else the mapping is the old one updated at the key only, for every tree built by inserts. |
| `BPlusTree.PageBPlusTree.Get` | src/page_bptree.rs:413-437 | Equals lookup in the mapping. |
| `BPlusTree.PageBPlusTree.FindLeafForRead` | src/page_bptree.rs:1097-1123 | Reaches the one leaf that covers the key within 129 page reads. |
| `BPlusTree.PageBPlusTree.ScanLeaf` | src/page_bptree.rs:991-1015 | Takes from one leaf the entries in range, in order, and says whether the end was passed. |
| `BPlusTree.PageBPlusTree.ScanPass` | src/page_bptree.rs:956-1026 | One pass over the leaf chain, up to the hop limit. |
| `BPlusTree.PageBPlusTree.Range` | src/page_bptree.rs:888-896 | Returns exactly the entries of the inclusive range, strictly ascending, if and only if the scan looks at no more than 8192 leaves; beyond that the retries make the result repeat entries. In keys of the range: always up to 8190, never above 15 * 8192. |
| `RangeLimit.Build` | src/page_bptree.rs:446-534 | 122881 inserts into a new tree give a tree with exactly those keys. |
| `RangeLimit.UnsortedRange` | src/page_bptree.rs:957-1024 | The range over all keys of that tree comes back not ascending. |
| `LeafValue.RowRoundTrip` | src/page_bptree.rs:2039-2096 | A row decodes to what was encoded exactly when its undo pointer is not to page 0; such a pointer is lost. |
| `UndoPage.RecordRoundTrip` | src/undo_pg.rs:215-315 | An undo record read back is the record written. |
| `UndoPage.HeaderRoundTrip` | src/undo_pg.rs:170-213 | A segment header read back is the header written. |
| `UndoPage.RecordCapacity` | src/undo_pg.rs:215-222 | Under either page header, an undo page takes a record exactly while it holds fewer than 15. |
| `UndoPage.NewUndoPage` | src/undo_pg.rs:117-124 | A new undo page holds no records and no next page. |
| `UndoPage.NewSegmentPage` | src/undo_pg.rs:126-142 | A new segment page holds no records and an in-progress header naming itself first and last. |
| `UndoPage.WriteSegmentHeader` | src/undo_pg.rs:193-213 | Replaces the segment header and leaves next link and records; refuses other pages unchanged. |
| `UndoPage.ReadSegmentHeader` | src/undo_pg.rs:170-191 | Returns the stored segment header, or the error for a wrong size or type. |
| `UndoPage.SetPageNext` | src/undo_pg.rs:164-168 | Replaces the next link and leaves header and records. |
| `UndoPage.PageNext` | src/undo_pg.rs:151-162 | Returns the stored next link, or the error for a wrong size or type. |
| `UndoPage.AppendRecord` | src/undo_pg.rs:215-258 | Appends after the records already there, in place, leaving them readable; full, with nothing changed, exactly at 15 records. |
| `UndoPage.ReadRecord` | src/undo_pg.rs:260-315 | Returns the record of a slot, and slot-out-of-range exactly past the last one. |
| `UndoPage.StoresUnique` | src/undo_pg.rs:260-315 | The bytes of an undo page determine everything it stores. |
| `UndoPage.BytesDeterminePage` | src/undo_pg.rs:30-65 | The engine's undo pages are determined by their bytes. |
| `UndoPage.AppendAgrees` | src/undo_pg.rs:215-258 | Appending in the engine's model of a page is appending in its stored form. |
| `MetaPage.Encode` | src/meta_page.rs:38-59 | The encoded page stores every field, and the first 1024 ids of the free list. |
| `MetaPage.Decode` | src/meta_page.rs:61-119 | Refuses exactly a wrong size, magic or version; of any encoded page returns what was encoded with zero ids and ids past the cap dropped. |
| `MetaPage.RoundTrip` | src/meta_page.rs:38-119 | Encoding then decoding gives the page back exactly when the free list is within the cap and has no zero; every other field always. |
| `UndoModel.VisibleIsNewest` | src/embedded_compute_visibility.rs:4-27 | What a reader must see is the newest committed version not after its read LSN, or nothing. |
| `UndoModel.VisibleStable` | src/embedded_compute_visibility.rs:4-27 | Later commits do not change what a reader at an earlier LSN sees. |
| `UndoModel.ChainKept` | src/embedded_compute.rs:700-809 | An undo chain goes on spelling out a key's history through appends, commits, a rising watermark and the release of every segment at or below the watermark, although links past it may dangle. |
| `MvccWrite.AllocFresh` | src/embedded_compute.rs:1076-1088 | The page taken is the one freed last, or, when none is free, the counter's, which moves on by one; it belonged to no live segment and was not lost, and afterwards belongs to its taker alone. |
| `MvccWrite.OpenKeeps` | src/embedded_compute.rs:1090-1099 | Opening the transaction's segment keeps the engine invariant. |
| `MvccWrite.ExtendKeeps` | src/embedded_compute.rs:1128-1141 | Chaining another page to the segment keeps the engine invariant. |
| `MvccWrite.AppendKeeps` | src/embedded_compute.rs:1117-1155 | Appending a record keeps the engine invariant, and the record is found under the pointer returned. |
| `MvccWrite.WriteKeeps` | src/embedded_compute.rs:1157-1224 | Writing an intent keeps the engine invariant and changes the transaction's view at that key only. |
| `MvccEnd.IntentChain` | src/embedded_compute.rs:1176-1214 | Behind an intent hangs the whole committed history of its key. |
| `MvccEnd.HistoryAppends` | src/embedded_compute.rs:1615-1655 | Committing a segment extends the doubly linked history at its tail, with a larger commit LSN. |
| `MvccEnd.CommitKeeps` | src/embedded_compute.rs:1456-1712 | A commit keeps the engine invariant and only appends versions after the durable LSN. |
| `MvccEnd.CommitPublishesView` | src/embedded_compute.rs:1578-1607 | Readers at the commit LSN see exactly what the transaction saw, for every key. |
| `MvccEnd.RestoredIsBase` | src/embedded_compute.rs:357-415 | The record behind an intent, never itself an intent, holds the row as it was when the transaction began. |
| `MvccEnd.AbortKeeps` | src/embedded_compute.rs:1443-1454 | Abort keeps the engine invariant; the pages of its segment are never handed out again. |
| `MvccGc.SweepKeeps` | src/embedded_compute.rs:700-730 | Removing and unhooking any rows at or below a watermark no snapshot is below keeps the engine invariant, whatever the budget leaves over. |
| `MvccGc.PushPartitions` | src/meta_page.rs:125-129 | Freeing a segment moves each of its pages to the free list or, past the cap, out of use: never to two places. |
| `MvccGc.PurgeKeeps` | src/embedded_compute.rs:746-795 | Purging the oldest segment, once its commit LSN is at or below the watermark, keeps the engine invariant. |
| `MvccGc.PurgeLosesNothing` | src/meta_page.rs:125-129 | No purged page is lost while the free list is below its cap. |
| `MvccGc.PurgeStops` | src/embedded_compute.rs:746-760 | Where a purge stops, every segment left is above the watermark. |
| `Mvcc.SnapshotStable` | src/embedded_compute_visibility.rs:51-90 | A snapshot sees the same version of every key for ever after it was taken. |
| `Mvcc.Engine.constructor` | src/embedded_compute.rs:180-245 | A new engine is valid, with no rows and no history. |
| `Mvcc.Engine.BeginRo` | src/embedded_compute.rs:483-516 | A snapshot reads at the durable LSN and is registered at it under a new id. |
| `Mvcc.Engine.EndRo` | src/active_reads.rs:39-41 | Ending a snapshot unregisters it and it alone. |
| `Mvcc.Engine.GetPageForRead` | src/embedded_compute.rs:1032-1048 | A snapshot's page image is its cached one, else the current one, and always a prefix of the page's records. |
| `Mvcc.Engine.ReadFromUndo` | src/embedded_compute_visibility.rs:4-27 | The walk ends at the newest version not after the snapshot, and touches only pages of segments committed after the snapshot or still in progress; it fails exactly when it meets, before that version, a pointer past a cached image. |
| `Mvcc.Engine.Read` | src/embedded_compute_visibility.rs:51-90 | A read that answers gives exactly the newest version committed at or before the read LSN; it waits exactly on an intent not newer than the snapshot; it fails exactly when the undo chain of the row leads, before that version, past an image the snapshot cached while the page was filling; it never follows a pointer into a purged segment. |
| `Mvcc.StaleRead` | src/embedded_compute.rs:1032-1048 | A concrete snapshot read that fails: the page cached by reading one key gains the record of another. |
| `Mvcc.Engine.BeginRw` | src/embedded_compute.rs:519-526 | The transaction starts from the versions visible at the durable LSN. |
| `Mvcc.Engine.OpenSegment` | src/embedded_compute.rs:1090-1099 | Takes the page freed last, or a new one when none is free, and makes it the first and last page of a segment in progress with no records. |
| `Mvcc.Engine.ExtendSegment` | src/embedded_compute.rs:1128-1141 | Takes a page the same way, empty, and links it behind the segment's last page. |
| `Mvcc.Engine.AppendUndo` | src/embedded_compute.rs:1050-1155 | Saves a row in the transaction's segment, with its links, and returns where; opens or extends the segment when needed. |
| `Mvcc.Engine.Supersede` | src/embedded_compute.rs:1184-1214 | The undo pointer of an intent: the row saved now if it is committed, the one of the intent it replaces otherwise. |
| `Mvcc.Engine.Put` | src/embedded_compute.rs:1157-1224 | The transaction's view changes at that key only, to the value; committed history is untouched. |
| `Mvcc.Engine.Delete` | src/embedded_compute.rs:1368-1441 | The transaction's view changes at that key only, to absent; a row that is there becomes a tombstone that keeps its old bytes, and nothing changes if there is none. |
| `Mvcc.Engine.ReadOwn` | src/embedded_compute_visibility.rs:60-85 | A transaction reads its own writes over its snapshot. |
| `Mvcc.Engine.Commit` | src/embedded_compute.rs:1456-1712 | The commit LSN is the end of a fresh range; the rows changed are committed at it as they stand, their intents gone, and no other row changes; every key's version visible at it is the transaction's view; histories only grow, after the old durable LSN. |
| `Mvcc.Engine.RetireSegment` | src/embedded_compute.rs:1615-1655 | Gives the segment its final header and links it behind the history tail. |
| `Mvcc.Engine.Restore` | src/embedded_compute.rs:365-412 | Puts one key back to its row at transaction start, or to absence. |
| `Mvcc.Engine.Abort` | src/embedded_compute.rs:1443-1454 | Every row is exactly what it was when the transaction began: value, commit LSN, undo pointer, flags, or absence. |
| `Mvcc.Engine.GcLsn` | src/embedded_compute.rs:425-429 | The smallest registered read LSN, else the durable LSN. |
| `Mvcc.Engine.ListRows` | src/embedded_compute.rs:691-694 | The scan of a collection pass has every row once. |
| `Mvcc.Engine.Sweep` | src/embedded_compute.rs:700-730 | Of the rows within the budget, exactly the tombstones at or below the watermark are removed, every other row at or below it loses its undo pointer, and all else stays; LSNs are spent exactly if a row changed. |
| `Mvcc.Engine.FreeChain` | src/embedded_compute.rs:779-788 | Appends the pages of a segment to the free list in order; only a full list drops any, the last ones. |
| `Mvcc.Engine.PurgeOldest` | src/embedded_compute.rs:752-795 | Takes the oldest segment off the list, on copies read before the pass began: the next one becomes the head and the header of the old one is marked purged and unlinked; no other page is written. |
| `Mvcc.Engine.PurgeSegments` | src/embedded_compute.rs:735-809 | Shortens the history from its old end only, by exactly the segments at or below the watermark. |
| `Mvcc.Engine.GcOnce` | src/embedded_compute.rs:685-733 | A pass changes no history: what any snapshot sees stays; the rows are swept as above and the oldest segments purged until every live one is above the watermark, which is the oldest snapshot or the durable LSN. |
| `Mvcc.Engine.Step` | src/embedded_compute.rs:483-1712 | Any step of any run has the effect of its operation when that is possible, keeps the engine invariant, only appends versions after the durable LSN, and leaves open snapshots open. |
| `Mvcc.Engine.ReadTwice` | src/embedded_compute_visibility.rs:51-90 | Repeatable reads: whatever sequence of begins, puts, deletes, commits, aborts, collections and other reads lies between two reads of a key by one open snapshot, two answers are the same answer. |
| `Replication.GroupIsNext` | src/node_wal_writer.rs:118-148 | The writer's queue never holds more than the one batch that follows the log, so a group append extends the log without a gap and the stored durable LSN is its length. |
| `Replication.AcksReached` | src/compute_sequencer.rs:172-222 | The quorum-th largest ack is at or past the end of the batch and has been reached by a quorum of logs. |
| `Replication.NextKeeps` | src/compute_sequencer.rs:140-227 | Every step of the protocol keeps its invariant: reserve, dispatch, complete, receive in any way, log, fail to log, answer. |
| `Replication.RunSafe` | src/compute_sequencer.rs:140-227 | In every run from nodes that share a log and are not past the start LSN, whatever is lost, late or rejected: each node's log is a gap-free prefix of what was dispatched, and the durable LSN and every returned commit LSN are covered by the full log on a quorum of nodes. |
| `Replication.RunGrows` | src/compute_sequencer.rs:200-227 | What is dispatched, durable, returned or logged stays so. |
| `ReplicationAhead.CoveredExactlyWhenNonePast` | src/compute_sequencer.rs:46-56 | From a given connection, every commit LSN returned in any run is covered by the full log on a quorum of nodes if and only if no node is past the LSN the sequencer starts from. |
| `ReplicationAhead.AheadLosesACommit` | src/compute_sequencer.rs:46-56 | Whenever some node is past the start LSN there is a run in which a commit is returned although fewer than a quorum hold its log: nodes ahead refuse batches until they are reached, take the next and are counted. |
| `ReplicationAhead.NodeAheadLosesARecord` | src/compute_sequencer.rs:46-56 | Such a connection exists: two nodes, quorum two, one a record ahead. |
| `Sequencer.SortDescending` | src/quorum_client.rs:44-46 | Sorts in place, descending, keeping how many values reach each LSN. |
| `Sequencer.QuorumDurableLsn` | src/quorum_client.rs:39-48 | The largest LSN that at least a quorum of nodes reaches; 0 when there are fewer nodes. |
| `Sequencer.PickIsQuorumth` | src/compute_sequencer.rs:219-222 | What the code picks from the collected acks is the quorum-th largest ack of the protocol. |
| `Sequencer.StartIsReached` | src/compute_sequencer.rs:46-56 | The start LSN picked at connection is the one the protocol starts from. |
| `Sequencer.ComputeSequencer.constructor` | src/compute_sequencer.rs:24-69 | Next, dispatch and durable LSN all start at the quorum-th largest durable LSN of the nodes. |
| `Sequencer.ComputeSequencer.Reserve` | src/compute_sequencer.rs:87-119 | Hands out consecutive ranges of 1 to 256 LSNs, each a reserve step of the protocol; refuses exactly an empty or too large batch or request id 0, changing nothing. |
| `Sequencer.ComputeSequencer.Collect` | src/compute_sequencer.rs:172-226 | Succeeds exactly when at least a quorum of nodes report a commit or durable LSN that reaches the end of the batch, and only then moves the durable LSN, to the largest LSN that a quorum of those acks reaches; lets the next range out either way. Given outcomes the nodes replied, it is a completion step of the protocol. |
| `Sequencer.ValidateBatch` | src/node.rs:700-740 | Accepts exactly a batch that starts at the durable LSN, whose range matches its records, numbered without a gap. |
| `Sequencer.StorageNode.AppendTxnBatch` | src/node.rs:765-861 | A known request id is answered from the index; a batch is queued exactly when it is well formed, starts at the durable LSN and there is room. Each outcome is a receive step of the protocol. |
| `RedoModel.ReplayIsPool` | src/node_wal_replay.rs:144-198 | Replay from a base LSN applies every record after it once and in order, however many older segments survive. |
| `RedoModel.RecoveryRestores` | src/node_wal_replay.rs:144-198 | Replaying the surviving segments over a page file that is right about pages not touched after the checkpoint gives every page its last logged image. |
| `PageStore.TornStillRecovers` | src/node_wal_replay.rs:144-198 | However the page file is torn on dirty pages, replay from the checkpoint gives every page its last logged image. |
| `PageStore.OpenRestoresExactly` | src/node.rs:436-456 | Replay from the base LSN that opening uses restores every page, however dirty pages of the file are torn, if and only if no dirty page has its last record at or before that base. |
| `PageStore.OpensWhole` | src/node.rs:436-456 | Under that condition the reopened pool and file again hold every page as the whole log has it. |
| `PageStore.SurvivingKeeps` | src/node_wal_files.rs:85-103 | Truncation deletes no record after the checkpoint, whichever deletions fail. |
| `PageStore.NodeStore.constructor` | src/page_store.rs:199-226 | A new store is valid and its log, pool and file are empty. |
| `PageStore.NodeStore.Get` | src/page_store.rs:242-267 | Returns a page's last applied image wherever it lives; a page that is not in the pool reads as absent exactly if the file has none or only zeros. |
| `PageStore.NodeStore.LogBatch` | src/node_wal_writer.rs:46-63 | Appends the batch to the log: as a new segment when there is none yet or the current one is full, else at the end of the current one. |
| `PageStore.NodeStore.ApplyBatch` | src/node_wal_replay.rs:40-65 | Applies the records of a batch in LSN order, skipping those applied and stopping at a gap; the persisted applied LSN is the last one whose write succeeded. |
| `PageStore.NodeStore.Flush` | src/page_store.rs:369-383 | Writes the given pages to the file; at any moment the file differs from before on those pages only. |
| `PageStore.NodeStore.Checkpoint` | src/page_store.rs:353-402 | Afterwards nothing is dirty, and the checkpoint LSN, which stays or is that of a page that was dirty, covers every page that was; contents are unchanged. |
| `PageStore.NodeStore.Evict` | src/page_store.rs:422-470 | Drops pages from the pool, dirty ones after writing them, and loses nothing. |
| `PageStore.NodeStore.SegmentMaxLsn` | src/node_wal_files.rs:65-83 | At least the end LSN of every batch in the segment, and the end LSN of one of them or 0. |
| `PageStore.NodeStore.Truncate` | src/node_wal_files.rs:85-103 | The segments left are the old ones in order without exactly those that are not the last, have a batch ending after 0, have every batch end at or below the checkpoint, and whose file can be removed. |
| `PageStore.NodeStore.Replay` | src/node_wal_replay.rs:144-198 | The segment, batch and record loops replay the surviving records in order, persisting the applied LSN as they go. |
| `PageStore.NodeStore.CrashAndOpen` | src/node.rs:428-476 | A crash between two log appends, with anything on the dirty pages of the file, and opening again: the pool is the replay from the larger of the persisted applied LSN and the checkpoint; the store is valid with the whole log applied if no dirty page depends on a record up to that LSN and the last LSN is persisted; the applied LSN is the end of the log exactly when it is persisted or was the base. |
| `PageStore.LosesAPage` | src/node.rs:357-380 | A concrete page that is logged, applied and read, and reads as absent after a crash. |
| `WalFrames.CutSegment` | src/node_wal_codec.rs:79-103 | Of a log segment cut inside its last frame the whole frames are read; reading then ends normally exactly when the cut is inside the length field, and else fails, and with it opening the node. |
| `WalFrames.ReadsOnlyFrames` | src/node_wal_codec.rs:79-103 | A frame is read exactly when the bytes start with the encoding of a payload of 1 byte to 16 MiB; the end is reported exactly below 4 bytes. |
| `WalFrames.SegmentExactly` | src/node_wal_codec.rs:79-103 | Of any bytes, exactly whole frames are taken off the front, until fewer than 4 bytes are left or the rest starts with no whole frame, which is an error. |
| `WalFrames.ReadSegment` | src/node_wal_codec.rs:79-103 | The reading loop computes that result. |
| `TxnCodec.DecodesExactlyEncodings` | src/txn_kv/codec.rs:217-265 | The payload decoder accepts exactly the encodings of commits, and returns what was encoded. |
| `TxnCodec.DecodePayload` | src/txn_kv/codec.rs:217-265 | The cursor loop computes the payload parser, error by error. |
| `TxnCodec.EncodePayload` | src/txn_kv/codec.rs:14-41 | Encodes exactly the commits whose values are within the size limit. |
| `TxnCodec.PrefixReplays` | src/txn_kv/codec.rs:43-93 | Of any byte prefix of the log of any commits, replay finds exactly the commits whose records are wholly contained, and reports their total length as valid; for any checksum function. |
| `TxnCodec.ScanFindsALog` | src/txn_kv/codec.rs:43-93 | Whatever bytes are in the file, the valid part is exactly the log of the commits found. |
| `TxnStore.ValueAtIsNewest` | src/txn_kv/manager.rs:234-240 | A read at a timestamp returns the last version not after it. |
| `TxnStore.ValueAtStable` | src/txn_kv/manager.rs:234-240 | Versions after a timestamp do not change reads at it. |
| `TxnStore.ReplayWal` | src/txn_kv/codec.rs:43-93 | The replay loop applies the commits found that are after the snapshot, in order, and returns the largest timestamp and the valid length. |
| `TxnStore.ApplyOpsAt` | src/txn_kv/manager.rs:211-219 | Publishing a commit appends one version to each key it wrote and none elsewhere. |
| `TxnSnapshot.SnapshotInverts` | src/txn_kv/codec.rs:101-215 | Loading a snapshot file gives the entries that were written, each at the snapshot's timestamp. |
| `TxnSnapshot.LoadsOnlySnapshots` | src/txn_kv/codec.rs:101-160 | A file loads only if it is, byte for byte, the snapshot of the entries it loads. |
| `TxnSnapshot.SnapshotKeepsLatest` | src/txn_kv/codec.rs:162-215 | A snapshot keeps the latest value of every key, and drops deleted keys. |
| `TxnSnapshot.WriteSnapshot` | src/txn_kv/codec.rs:162-215 | Writes the latest value of every key that has one, once; succeeds exactly when fewer than 2^32 keys have one and each is within the value size. |
| `TxnSnapshot.LoadSnapshot` | src/txn_kv/codec.rs:101-160 | The cursor loop computes the snapshot parser, error by error. |
| `TxnState.CrashScan` | src/txn_kv/codec.rs:43-93 | A log cut off inside its last record replays without it, and with it when it is all there. |
| `TxnState.SnapshotCovers` | src/txn_kv/manager.rs:56-69 | After a snapshot at the commit timestamp nothing left in the log is replayed, and latest values are unchanged. |
| `TxnState.RecoveredStoreOk` | src/txn_kv/manager.rs:42-54 | A recovered store has ascending versions, none after the recovered timestamp. |
| `TxnIsolation.NextKeeps` | src/txn_kv/manager.rs:79-222 | Every step of every transaction, begin, write, end, start of commit, append, failed append, publication, keeps snapshot isolation. |
| `TxnIsolation.SnapshotReads` | src/txn_kv/manager.rs:105-113 | In every state a transaction sees its own writes over the store it began with, or, if it began in the window of a commit published since, over that store and that commit. |
| `TxnIsolation.PublishTxn` | src/txn_kv/manager.rs:211-222 | Publication moves exactly the transactions of the commit's window to the published store; for all others the new versions are after their read timestamp. |
| `TxnIsolation.RunCarries` | src/txn_kv/manager.rs:79-222 | Over any run, what an open transaction reads from changes at most once, by the commit of its window. |
| `TxnIsolation.WindowView` | src/txn_kv/manager.rs:199-222 | Publishing the commit of the window changes what the transaction sees at exactly the keys the commit wrote and the transaction did not. |
| `TxnIsolation.RepeatsExactly` | src/txn_kv/manager.rs:79-222 | All reads a transaction makes in the rest of any run, of keys it has not written, repeat if and only if no unpublished commit has its read timestamp, or that commit writes only what the transaction sees already. |
| `TxnManager.UnrepeatableRead` | src/txn_kv/manager.rs:199-219 | A concrete read that does not repeat, begun inside such a window. |
| `TxnIsolation.OverwritesExactly` | src/txn_kv/manager.rs:187-198 | When the conflict check lets a transaction overwrite a key, the value lost is the one it saw when it began, if and only if no commit of its window published since wrote another. |
| `TxnManager.LostUpdate` | src/txn_kv/manager.rs:187-198 | A concrete lost update: a transaction reads nothing, a commit writes the key, and the transaction overwrites it without a conflict. |
| `TxnIsolation.PublishDone` | src/txn_kv/manager.rs:187-198 | First committer wins, by timestamps: of two published writers of a key, the later has a read timestamp at least the earlier's commit timestamp. |
| `TxnManager.TxnManager.constructor` | src/txn_kv/manager.rs:42-54 | A new manager is valid over empty files. |
| `TxnManager.TxnManager.Begin` | src/txn_kv/manager.rs:79-88 | Takes the commit timestamp as read timestamp, which inside a window is that of the unpublished commit, and changes no other transaction's window. |
| `TxnManager.TxnManager.Get` | src/txn_kv/manager.rs:105-113 | Returns the transaction's own write, else the version at its read timestamp, which is that of the store it began with, plus its window's commit if published. Refuses exactly keys of the wrong size. |
| `TxnManager.TxnManager.Put` | src/txn_kv/manager.rs:115-123 | Adds one write to the transaction, refusing exactly wrong sizes. |
| `TxnManager.TxnManager.Delete` | src/txn_kv/manager.rs:125-130 | Adds one deletion to the transaction. |
| `TxnManager.TxnManager.HasConflict` | src/txn_kv/manager.rs:187-198 | Finds a conflict exactly when a written key has a version after the read timestamp. |
| `TxnManager.TxnManager.CommitStart` | src/txn_kv/manager.rs:182-200 | Nothing to do for a read-only or empty transaction; refused exactly on a conflict; else takes the next timestamp. |
| `TxnManager.TxnManager.CommitAppend` | src/txn_kv/manager.rs:201-209 | The record joins the log, and recovery would now include the commit. |
| `TxnManager.TxnManager.CommitAppendFails` | src/txn_kv/manager.rs:209-209 | A failed append publishes nothing; isolation holds though the log may be damaged. |
| `TxnManager.TxnManager.CommitPublish` | src/txn_kv/manager.rs:211-222 | The versions appear all at once, lists stay ascending, and writers of one key stay serial. |
| `TxnManager.TxnManager.WriteSnapshotFile` | src/txn_kv/manager.rs:56-66 | Succeeds exactly when fewer than 2^32 keys have a live latest value and each is within the value size; then the snapshot loads at the commit timestamp with the same latest values, and recovery still gives them; else nothing changes. |
| `TxnManager.TxnManager.TruncateLog` | src/txn_kv/storage.rs:88-94 | Empties a log the snapshot covers; recovery still gives the same latest values, also after appends that failed. |
| `TxnManager.TxnManager.CrashAndOpen` | src/txn_kv/manager.rs:42-69 | A crash at any point, before the snapshot is renamed, between snapshot and truncation, after it, or inside an append, recovers every key's latest value, with the commit in progress exactly if its record is whole; the timestamp bounds every version. |
| `TxnManager.TxnManager.Step` | src/txn_kv/manager.rs:56-222 | Any step of any run has the effect of its operation when that is possible, keeps the manager valid and is a step of the isolation machine. |
| `TxnManager.TxnManager.GetTwice` | src/txn_kv/manager.rs:105-113 | Repeatable reads: whatever sequence of begins, writes, commits, failed appends and checkpoints lies between two reads of a key the transaction has not written, both answer the same, unless it is exposed to a commit that changes what it sees. |
| `TxnScan.Scan` | src/txn_kv/manager.rs:132-180 | Returns exactly the rows the transaction sees, its writes included, from the start key on and before the end key in byte order, in key order, up to the limit. |
| `TxnScan.ScansAgree` | src/txn_kv/manager.rs:132-180 | Scans repeat: the same scan over stores the transaction sees alike gives the same rows. |
| `TxnScan.RunScansAgree` | src/txn_kv/manager.rs:132-180 | Two scans of one range by one transaction in any run return the same rows, if it wrote nothing in between and its reads repeat. |
| `SecondaryIndex.ExtendedReads` | src/secondary_index.rs:216-229 | A posting at a commit LSN, overwriting one at the same LSN, decides membership from there on and changes nothing before. |
| `SecondaryIndex.PlanExactly` | src/secondary_index.rs:158-199 | A mutation is planned for an index exactly if it removes the old value's bytes at the index's offset, and the new value does not have them there, or adds the new value's and the old one does not have them. |
| `SecondaryIndex.RowKeepsIndex` | src/secondary_index.rs:158-199 | The mutations planned for one row change keep an index in agreement with the rows. |
| `SecondaryIndex.ApplyPlan` | src/secondary_index.rs:201-230 | Applying a plan makes the row change in every index it covers and leaves the others alone. |
| `SecondaryIndex.CommitKeepsGood` | src/secondary_index.rs:158-230 | Applying all mutations of a commit, with several writes of one row, leaves every index in agreement with the rows after it. |
| `SecondaryIndex.IndexNext` | src/secondary_index.rs:201-230 | Between commits an index agrees with the committed rows at every LSN. |
| `IndexManager.VisibleMembership` | src/secondary_index.rs:266-275 | The partition point of a history decides membership as of the read LSN. |
| `IndexManager.SecondaryIndexManager.constructor` | src/secondary_index.rs:44-47 | A new manager has no indexes and agrees with no rows. |
| `IndexManager.SecondaryIndexManager.CreateIndex` | src/secondary_index.rs:95-145 | Creates an index exactly for a new non-empty name and a range inside the value. |
| `IndexManager.SecondaryIndexManager.PlanMutations` | src/secondary_index.rs:158-199 | Plans exactly, for every index, the removal of the bytes the old value has at the index's offset and the addition of those the new value has there, unless they are the same. |
| `IndexManager.SecondaryIndexManager.ApplyCommit` | src/secondary_index.rs:201-230 | Applies the mutations in order at the commit LSN. |
| `IndexManager.SecondaryIndexManager.CommitWrites` | src/secondary_index.rs:158-230 | A commit of any writes, planned against the live values, keeps all indexes in agreement with the rows, at every read LSN. |
| `IndexManager.SecondaryIndexManager.PlanHeld` | src/embedded_compute.rs:1165-1174 | The engine's planning: each write against the bytes the tree holds, tombstones included. |
| `IndexHeld.StepLeavesPosting` | src/embedded_compute.rs:1165-1174 | One write planned so leaves every posting history right, except that a row put back over its tombstone with the same slice stays missing until a write changes the slice. |
| `IndexHeld.CommitLeaves` | src/embedded_compute.rs:1165-1174 | A whole commit planned so leaves every index right but for the rows it misses. |
| `IndexHeld.PlannedNames` | src/embedded_compute.rs:1165-1174 | A commit plans a mutation of an index exactly when one of its writes changes the bytes the index covers. |
| `IndexManager.CommitGoodExactly` | src/embedded_compute.rs:1165-1174 | A commit as the engine plans it leaves all indexes in agreement with the rows if and only if it does not end with a row put back over its tombstone with the indexed slice the tombstone has. |
| `IndexManager.SecondaryIndexManager.CommitPlanned` | src/secondary_index.rs:201-230 | Applying the planned mutations of a commit keeps all indexes in agreement with the rows. |
| `IndexManager.SecondaryIndexManager.QueryEqual` | src/secondary_index.rs:232-263 | Returns, ascending and up to the limit, the primary keys posted under the slice at the read LSN; when the indexes agree with the rows these are exactly the keys whose value has those bytes at the index's offset. |
| `PostingPage.ParseRecsInverts` | src/secondary_posting_log.rs:99-160 | Decoding a page's data gives the records appended to it. |
| `PostingPage.NewLogPage` | src/secondary_posting_log.rs:29-36 | A new page holds no records and no next page. |
| `PostingPage.AppendRecord` | src/secondary_posting_log.rs:53-97 | Appends exactly when the record fits in what is left of the page, leaving the others; refuses bad lengths. |
| `PostingPage.DecodeRecords` | src/secondary_posting_log.rs:99-160 | Returns exactly the records of the page, in order; refuses exactly a page of wrong size, magic or version. |
| `PostingPage.WriteNext` | src/secondary_posting_log.rs:47-51 | Replaces the next link and leaves the records. |
| `PostingPage.ReadNext` | src/secondary_posting_log.rs:38-45 | Returns the stored next link. |
| `PostingLog.PostingLog.AppendOne` | src/embedded_compute.rs:977-995 | Appends to the tail page or to a new page linked behind it; refuses exactly a record with a bad length or larger than a page. |
| `PostingLog.PostingLog.Append` | src/embedded_compute.rs:946-1005 | Across page overflows, the log gains exactly the commit's mutations under its LSN, in order, or nothing. |
| `PostingLog.PostingLog.Replay` | src/embedded_compute_recovery.rs:97-118 | Walking from the head gives every mutation ever appended, with its LSN, in order. |
| `PostingLog.ReplayRebuilds` | src/embedded_compute_recovery.rs:97-118 | Replaying the log record by record rebuilds the postings the commits built batch by batch. |
| `IndexRecovery.Commit` | src/embedded_compute.rs:1658-1705 | A commit as the engine runs it keeps manager and log together: replaying the log over the bare definitions gives the manager's indexes; these agree with the rows exactly when no row is missed. It fails, changing nothing, exactly when it changes the bytes covered by an index whose records do not fit a page. |
| `IndexRecovery.Recover` | src/embedded_compute_recovery.rs:17-31 | A manager rebuilt from definitions and log has the same indexes, and agrees with the same rows exactly when the one before did. |
| `IndexRecovery.QueryAcrossRestart` | src/embedded_compute_recovery.rs:97-118 | A query after a restart returns the keys posted before it, which are those a scan of the committed rows would find when the indexes agreed with them. |
| `IndexRecovery.MissedRow` | src/embedded_compute.rs:1405-1410 | A concrete row put, deleted and put back, which a scan finds and the query misses. |
| `SlottedPage.PayloadsDisjoint` | src/slotted_page.rs:311-366 | Live payloads overlap neither each other nor the directory. |
| `SlottedPage.LiveBound` | src/slotted_page.rs:103-137 | There are never more live slots than payload areas handed out, so packing fits. |
| `SlottedPage.NewPage` | src/slotted_page.rs:72-76 | A new page has no slots. |
| `SlottedPage.FreeSpace` | src/slotted_page.rs:78-84 | Page size less header, directory and payload areas handed out. |
| `SlottedPage.FindFreeSlot` | src/slotted_page.rs:40-48 | The lowest slot id with no payload, if any. |
| `SlottedPage.InsertRecord` | src/slotted_page.rs:311-366 | Inserts in the lowest free slot or a new one and leaves every other slot as it was; fails, changing nothing, exactly on a wrong size or without room. |
| `SlottedPage.InsertedReads` | src/slotted_page.rs:166-185 | A record just inserted reads back under its slot and key, and its commit LSN, undo pointer and flags are zero. |
| `SlottedPage.ClearSlot` | src/slotted_page.rs:94-99 | Frees the slot and leaves every other slot as it was. |
| `SlottedPage.ReadValue` | src/slotted_page.rs:166-185 | Returns a value exactly of a live slot whose first 16 bytes are the key and whose tombstone bit is clear, and it is the 1024 bytes after the key. |
| `SlottedPage.OverwriteValue` | src/slotted_page.rs:190-221 | Replaces the value of a live slot with this key and nothing else; refuses anything else unchanged. |
| `SlottedPage.Defragment` | src/slotted_page.rs:103-137 | Every slot keeps its id and bytes, and the areas in use afterwards are exactly the live payloads. |

## Left out

- Removal from the B+Tree and its repair helpers: the borrowing branches rebuild a child without writing it back, so no refinement is claimed; the version engine uses removal from a map.
- `prev_leaf` links: a split does not update the old right neighbour.
- Latches, semaphores, async scheduling and tree reads racing a split: every operation is one step.
- Overlapping read-write transactions, commits that fail after rows are stamped, transaction timeouts and the reaper, eviction of uncommitted pages from the page cache.
- The existence and scan variants of a snapshot read, which walk the same chains.
- Restarting the version engine from stored pages.
- Replies of a node that restarts, and log bytes a failed write may leave behind in a node's log file.
- Log operations other than page images, and appending to a log segment that ends in part of a length field.
- Checkpoints interleaved with writes to the pool.
- Quorum storage, repair and replica choice in txn_kv.
- Backfilling and dropping a secondary index, and the catalog page.
- RPC, file I/O, metrics, configuration, demand paging and warm-up.
- BPlusTree.PageBPlusTree.Insert: requires 256 unused page ids, because the allocator's wrap-around at 2^64 is not modelled.
- BPlusTree.PageBPlusTree.Get: requires a 16-byte key, as its callers check (`src/embedded_compute.rs:1226-1232`); slices of other lengths, which the code would compare too, are not modelled.
- BPlusTree.PageBPlusTree.FindLeafForRead: requires a 16-byte key, for the same reason.
- BPlusTree.PageBPlusTree.Range: requires 16-byte bounds, as its callers check (`src/embedded_compute.rs:1245-1257`).
- Mvcc.Engine.Read: does not model the wait on a pending transaction, only that it is needed.
- Mvcc.Engine.Put: the error on another transaction's intent is not modelled, because with one writer there is none.
- Mvcc.Engine.Commit: takes the number of pages to log as a parameter, and the commit is atomic and successful.
- Mvcc.Engine.Abort: the pages of the aborted segment stay out of use, as in the code.
- Replication.RunSafe: each reserved range is dispatched at most once and a request is delivered at most once.
- Sequencer.StorageNode.AppendTxnBatch: room in the log is a parameter.
- PageStore.NodeStore.Evict: which pages are coldest is a parameter.
- TxnManager.TxnManager.CommitStart: requires at most 4,000,000 writes, because a longer record does not fit its length field, and leaves the timestamp below 2^64.
- TxnManager.TxnManager.CrashAndOpen: requires that no append has failed since the log was last emptied, because a failed append can leave bytes that hide later records.
- TxnScan.Scan: requires start not after end, because the code's range lookup panics otherwise.
- IndexManager.SecondaryIndexManager.CreateIndex: requires that no row is committed yet, because backfilling is left out.
- IndexManager.SecondaryIndexManager.CommitWrites: requires the live old value of each row; what the engine passes instead is modelled by `IndexRecovery.Commit`.
- PageStore.NodeStore.CrashAndOpen: takes the log to end at a frame boundary; `WalFrames.CutSegment` says what happens otherwise.
- PostingPage.DecodeRecords: index names are bytes, so the check that they are UTF-8 is not modelled, and only pages built by appending are decoded.
- PostingLog.PostingLog.Append: models the commit path, which works on a copy of the log state; `append_secondary_posting_log` (`src/embedded_compute_recovery.rs:43-85`) changes head, tail and next in place before it returns the same error.
- SlottedPage.ReadValue: requires an existing slot, because reading another one looks outside the directory.
- SlottedPage.OverwriteValue: requires an existing slot, for the same reason.
- SlottedPage.ClearSlot: requires an existing slot, because clearing another one writes outside the directory.
