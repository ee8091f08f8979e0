# A verified model of the B+Tree storage engine

This project models the storage engine layer by layer and proves what each layer promises about something simpler:

* a **B+Tree over pages** that are changed in place. A ghost tree says what the pages spell; insertion and deletion
  are first defined as functions on trees (`TreeInsert`, `TreeDelete`), proved to be map update and map removal that
  keep depth, separators, occupancy and leaf links, and then the page methods (`Pages`, `PageStore`, `Rebalance`,
  `BPlusTree`) are proved to change the pages, the root and the log exactly as those functions say;
* **cursors** that stand at a position of the range they iterate over;
* the **write-ahead log**: its bytes, what any byte prefix of it still says, transaction brackets, exactly which records
  of any log take effect (`WalCounts`), replay, and restart of an interrupted recovery;
* **recovery of the tree**: every lookup after replay is that of the map (`CrashReplay`); exactly which page images
  and which range scans replay restores after any run (`Restored`, `Scans`, `LeafOrder`, `DeadLeaves`, `ScanRuns`);
  what a crash between two records of one operation leaves (`TornInsert`, `TornDelete`); and what further operations
  do on a recovered tree (`ReadPages`, `RecoveredOps`, `RecoveredDelete`); no new page takes the id of a page that a
  recovered tree has (`KnownIds`, `EndToEnd`);
* the **buffer pool and the file-backed pager**: recency, the write-ahead rule over the records themselves, what
  recovery finds after a crash at any point (`LiveLog`, `FilePager`), exactly when `get_page` returns the current page,
  and page objects that change after they were logged, as the left half of every split does;
* **the tree on the pager**: the acts of an operation (`TreeActs`, `ActRuns`), run on the pager (`PagerRuns`), and the
  data file that a flush leaves after any run (`FlushedRuns`);
* **slotted pages, records and page images** as bytes (`SlottedLayout`, `SlottedPage`, `Record`, `PageCodec`,
  `PageBytes`), and the exact bound under which no page of any run overflows (`Capacity`);
* **end to end** (`EndToEnd`, `TornRuns`): from the pager's files, cut at any byte by a crash, also inside an operation,
  to the answers of the recovered tree, and the durability and atomicity of transactions;
* the **lock manager** with its wait-for graph, **transactions** with their overlay, and **serializability** of every
  interleaving;
* **secondary indexes, access paths and joins** over tables, with what each condition means (`Conditions`).

`dafny verify dfyconfig.toml` checks everything. Every module is in a file of its own. Ids and keys are unbounded
naturals or the 32-bit `Key` type; widths are written out where bytes are made.

Where the code and its comments disagree, the model follows the code:

* a commit without staged writes returns before it releases its locks (src/transaction.py:183-184), although commit is
  described as releasing all locks; `Serializability.CommitReleases` says exactly when nothing is left;
* replay restores point lookups, but not every page: the image of a left half is logged before its split only. A page
  is restored exactly if and only if it has been logged since it was last cut (`Restored.ImagesRestored`), and range
  scans are right exactly when what is read of each leaf that was not stands for leaves of the tree
  (`ScanRuns.RunScansIff`); `ScanRuns.RangeScanNotRestored` is a run where they are not;
* a crash after the last but one record of a deletion that ends in a borrow makes a lookup wrong, and no other cut
  does (`TornDelete.DeleteSafe`, `TornDelete.DeleteTorn`); between the records of a root that lost its last key and of
  the new root, the page bytes read back have no child, and no lookup finds anything (`EndToEnd.CollapseTorn`). Inside
  a transaction neither can happen, since nothing of it counts before its commit record
  (`TornRuns.TransactionsDurable`). At orders 2 and 3 a merge can leave an index page without keys in the middle of a
  deletion's log as well, with the same effect on the lookups that come upon it (`TornRuns.TornRecovered`);
* a split changes the left page after it was logged (src/bplus_tree.py:383-392, 403-413), so the image that goes to the
  data file need not be that of the record whose number it carries. `FilePager.FilePager.SameImage` says exactly when
  it is, and `FilePager.ChangedRun` is a run in which it is not. The cut is lost when the new page pushes the left one
  out of the pool before it is made (`FilePager.FilePager.SplitPage`), outside a transaction; the data file then has the
  page as it was logged, and lookups are still right (`TreeActs.InsertKept`);
* on a recovered tree, stale pages can bring deleted rows back: a deletion borrows from a stale left leaf
  (`RecoveredDelete.DeletedRowsReturn`). Operations that read no stale page are right, on recovered pages and on pages
  whose cut was lost (`RecoveredOps.RunServes`);
* replay does not compare transaction ids at abort and begin records (src/wal.py:442-473): such a record of another
  transaction inside an open one drops what was changed before it, although the commit record is there
  (`WalCounts.BodyWhole`, `WalCounts.ForeignAbort`);
* `get_page` does not look among deferred evictions, so during a transaction's apply phase it can return old contents,
  and keep them in the pool after the commit. `FilePager.FilePager.CurrentIff` says exactly when a read is current,
  `FilePager.StaleRead` is a run in which it is not, and `FilePager.FilePager.Recovered` shows that a stale read alone
  does not affect recovery;
* `fsync_up_to` takes a number that no record has yet as flushed (src/wal.py:281-302); `Wal.WAL.FsyncUpTo` says when
  that leaves the flushed number true of the log;
* an index page without keys loses its only child in its byte form (`PageCodec.IndexTrip`);
* an INSERT over an existing key can leave the old index entry behind; `Indexes.TookAgrees` says exactly when it does
  not;
* an exhausted cursor does not step back (src/cursor.py:112);
* the leaf header is 13 bytes and the slotted body 4083 (src/bplus_page.py:52-55), not 5 and 4091 as the comments say.

## Model

| member | source | states |
|---|---|---|
| TreeInsert.InsertShape | src/bplus_tree.py:372-414 | insertion keeps uniform depth, strict separators and occupancy, and the tree grows by one level exactly when the root splits |
| TreeInsert.InsShape | src/bplus_tree.py:372-414 | every subtree an insertion leaves is well formed within its bounds, and a returned separator lies strictly inside them |
| TreeInsert.SlotIsChild | src/bplus_page.py:329-338 | a separator inside a child's bounds is put right after that child, so the new page sits beside the one that split |
| TreeInsert.SplitEven | src/bplus_page.py:204-225 | a split cuts a page in the middle |
| TreeInsert.InsertContents | src/bplus_tree.py:90-102 | the entries read left to right become the old map with the key set: nothing is lost or duplicated by copy-up, push-up or root growth |
| TreeInsert.InsertIds | src/bplus_tree.py:372-414 | no page is used twice, and new pages are exactly the next free ids |
| TreeInsert.InsertChain | src/bplus_page.py:204-225 | the leaf links still run through all leaves from left to right |
| TreeDelete.BorrowRightIsCut | src/bplus_tree.py:273-298 | borrowing from the right is merging the two neighbours and cutting one key later |
| TreeDelete.BorrowLeftIsCut | src/bplus_tree.py:300-325 | borrowing from the left is merging the two neighbours and cutting one key earlier |
| TreeDelete.MendIsRepair | src/bplus_tree.py:234-271 | which pair a repair touches, where it cuts, that it borrows exactly when a sibling has a key to spare, and what it logs |
| TreeDelete.MendFormed | src/bplus_tree.py:234-350 | after any borrow or merge the node is well formed, and it has lost a key exactly when two children merged |
| TreeDelete.RepairKeeps | src/bplus_tree.py:273-350 | a repair moves entries between neighbours and nothing else |
| TreeDelete.RepairChain | src/bplus_tree.py:343-345 | a repair keeps the leaf links |
| TreeDelete.DeleteSound | src/bplus_tree.py:126-232 | deletion through every cascade of merges and the root collapse keeps depth, separators, occupancy and links, and removes exactly the key from the sorted contents |
| TreeDelete.DeleteContents | src/bplus_tree.py:126-172 | deletion is map removal |
| TreeRecovery.InsertReplay | src/bplus_tree.py:372-414 | replaying an insertion's log rebuilds its tree up to upper halves that routing never reaches, and names its root |
| TreeRecovery.CutLeafStale | src/bplus_tree.py:383-392 | the image of a leaf logged before its split is its lower half plus entries at or above the separator |
| TreeRecovery.CutIndexStale | src/bplus_tree.py:403-413 | the same for an index page |
| TreeDeleteRecovery.DeleteReplay | src/bplus_tree.py:126-232 | replaying a deletion's log rebuilds its tree, and names the root after a collapse |
| TreeDeleteRecovery.LookupCorrect | src/bplus_tree.py:364-370 | descending over pages, stale upper halves included, finds exactly what the tree contains |
| TreeLeaves.ChainThreads | src/bplus_tree.py:104-124 | the leaf links visit the leaves in order and end at the last |
| TreeLeaves.RoutedLeaf | src/bplus_tree.py:364-370 | everything left of the leaf a key is routed to is below the key, everything right of it above |
| TreeLive.Climb | src/bplus_tree.py:198-220 | once a node on the path has enough keys, nothing above it changes |
| TreeClimb.AfterRepair | src/bplus_tree.py:207-224 | a repair finishes its level; after a borrowed key the deletion is done |
| TreeClimb.AtRoot | src/bplus_tree.py:226-232 | an index root without keys has one child, which becomes the root |
| Pages.LeafPage.Search | src/bplus_page.py:162-175 | binary search finds the record of a key, or none |
| Pages.LeafPage.Insert | src/bplus_page.py:177-187 | the sorted cells with the key replaced or inserted in order |
| Pages.LeafPage.DeleteKey | src/bplus_page.py:189-202 | the cells without the key, and whether it was there |
| Pages.LeafPage.Split | src/bplus_page.py:204-225 | lower half here, upper half and link in the right page, its first key returned |
| Pages.IndexPage.FindChild | src/bplus_page.py:322-327 | the child left of the first separator above the key, else the last |
| Pages.IndexPage.InsertKey | src/bplus_page.py:329-338 | separator at its sorted place, new child right after it |
| Pages.IndexPage.Split | src/bplus_page.py:340-361 | the middle key leaves both halves and is returned |
| PageStore.Pager.MarkDirty | src/bplus_pager.py:277-300 | the log gets the current image of the page |
| Rebalance.BorrowFromRight | src/bplus_tree.py:273-298 | the three pages after a borrow from the right, and their log records in order |
| Rebalance.BorrowFromLeft | src/bplus_tree.py:300-325 | the three pages after a borrow from the left, and their log records in order |
| Rebalance.MergePages | src/bplus_tree.py:327-350 | the absorbed page, the parent without separator and child, and their log records |
| Rebalance.BorrowOrMerge | src/bplus_tree.py:234-271 | the pages and the log change as the model's repair does: right borrow, else left borrow, else merge |
| BPlusTree.BPlusTree.constructor | src/bplus_tree.py:74-79 | without a root in the pager: a new tree is one empty leaf, its root is logged, and it stands for the empty map |
| BPlusTree.BPlusTree.Reopen | src/bplus_tree.py:71-73 | with a root in the pager: the tree that its pages spell is opened as it is |
| PageStore.Pager.Load | src/bplus_pager.py:252-271 | the page objects show exactly the pages of the file |
| BPlusTree.BPlusTree.Insert | src/bplus_tree.py:90-102 | on any sound tree over pages the contents become the map with the key set, and pages, root, next id and log are those of the model |
| BPlusTree.BPlusTree.InsertAt | src/bplus_tree.py:372-414 | the recursive step changes the pages below it, and nothing else, as the model does |
| BPlusTree.BPlusTree.Delete | src/bplus_tree.py:126-172 | for any integer: true exactly when the key was there; the contents become the map without it; nothing is logged or changed otherwise |
| BPlusTree.BPlusTree.FindPath | src/bplus_tree.py:174-196 | for any integer: the pages from the root to the leaf, each with the position routing chose |
| BPlusTree.BPlusTree.FixUnderflow | src/bplus_tree.py:198-232 | walking up, repairing and collapsing the root ends in the model's outcome |
| BPlusTree.BPlusTree.FindLeaf | src/bplus_tree.py:364-370 | the leaf the key is routed to |
| BPlusTree.BPlusTree.Search | src/bplus_tree.py:85-88 | the record the map has for the key, for any integer |
| BPlusTree.BPlusTree.RangeScan | src/bplus_tree.py:104-124 | terminates with exactly the entries of the contents in the range, in order |
| Entries.RangeExact | src/bplus_tree.py:104-124 | a range is sorted and has exactly the entries within its bounds |
| CursorModel.RowsBefore | src/cursor.py:112-119 | what precedes a position is the range up to the key before it |
| CursorModel.Cursor.constructor | src/cursor.py:53-67 | a new cursor stands at the first entry of the range |
| CursorModel.Cursor.Next | src/cursor.py:87-97 | one position forward; an exhausted cursor stays |
| CursorModel.Cursor.Prev | src/cursor.py:99-127 | one position back, also across leaves; not from the first entry and not when exhausted |
| CursorModel.Cursor.Reset | src/cursor.py:129-138 | back to the first entry |
| CursorModel.Cursor.Rest | src/cursor.py:144-152 | iterating yields the rest of the range in order |
| CursorModel.Cursor.NextThenPrev | src/cursor.py:87-127 | going back undoes going forward exactly when there is a next row; otherwise the cursor stays behind the last row |
| CursorModel.Cursor.Seek | src/cursor.py:169-204 | from any cell, the next entry of the range at the same position, or its end |
| CrashReplay.CrashRefinement | src/bplus_pager.py:140-166 | after any run of inserts and deletes from a checkpointed tree, the replayed pages answer every key as the map does |
| CrashReplay.RunAndRecover | src/bplus_tree.py:90-172 | the same for the tree over pages: its log replayed over the pages it started from answers as the live tree |
| CrashReplay.ReplayOverwrites | src/bplus_pager.py:140-166 | pages that reached the file after the checkpoint do not matter: replay overwrites each of them |
| CrashReplay.RecoveryRestarts | src/bplus_pager.py:140-166 | stopping replay after any number of writes and running it again gives the same pages |
| Restored.PageRestored | src/bplus_tree.py:383-414 | after any run, replay restores a page of the tree exactly if and only if it has been logged since it was last cut |
| Restored.StaleMeans | src/bplus_tree.py:403-414 | a page is stale exactly when some operation cut it as a left half and no later one logged it |
| Restored.ImagesRestored | src/bplus_pager.py:140-166 | after any run, replay restores the whole tree if and only if none of its pages is stale |
| Restored.InsertRestored | src/bplus_tree.py:372-414 | replay of one insertion restores every page if and only if its leaf did not have to split |
| LeafOrder.OpOrder | src/bplus_tree.py:90-232 | an operation adds leaves or takes some away, and never reorders those that stay |
| DeadLeaves.OpDead | src/bplus_tree.py:327-350 | a leaf that an operation takes away is no page of the tree any more, and was logged last, if at all, as the leaf that lost the key |
| ScanRuns.RunStretches | src/bplus_page.py:204-225 | after any run, following recorded links from a leaf, through pages that were merged away, ends or comes to a later leaf of the tree, and meets no key below the leaf's first |
| Scans.CoveredScans | src/bplus_tree.py:104-124 | when what is read from each leaf until the next page of the tree is exactly the entries of the leaves skipped, every range scan over the recorded pages ends with exactly its rows |
| Scans.ScansIff | src/bplus_tree.py:104-124 | and only then, when links lead forward in the tree |
| ScanRuns.RunScansIff | src/bplus_tree.py:104-124 | after any run, all recovered range scans are right if and only if what is read of each stale leaf stands for leaves of the tree |
| ScanRuns.RangeScanNotRestored | src/bplus_tree.py:104-124 | a run after which a recovered scan along the links misses a row that a point lookup finds |
| RecoveredOps.ReopenAndRun | src/bplus_tree.py:64-79 | recovered without stale pages, the tree is opened on the pages as they are, and further operations follow the map |
| RecoveredOps.StaleAfterReplay | src/bplus_pager.py:140-166 | the pages of the tree that replay does not restore exactly are those that were cut and not logged since |
| ReadPages.InsSame | src/bplus_tree.py:372-414 | what an insertion does depends only on the pages on the way to its leaf |
| ReadPages.DelSame | src/bplus_tree.py:126-350 | what a deletion does depends only on these and the siblings that its repairs read: the right one, and the left one when the right cannot lend |
| RecoveredOps.StepServes | src/bplus_tree.py:90-232 | over stale pages, an operation that reads none of them does what it would do to the tree itself, and leaves no page stale that was not, but those whose cut was lost |
| RecoveredOps.RunServes | src/bplus_tree.py:90-232 | so does any run of such operations: the pages still hold the tree, whose contents follow the map |
| RecoveredOps.RecoveredRun | src/bplus_tree.py:364-370 | run, crash, recovery and such a run: every lookup is that of the map of both runs |
| RecoveredDelete.DeletedRowsReturn | src/bplus_tree.py:300-325 | a run on recovered pages in which two deletions find their rows, and lookups find both rows afterwards |
| RecoveredDelete.ReadsStale | src/bplus_tree.py:257-262 | its second deletion reads the stale page |
| TornInsert.InsertTorn | src/bplus_tree.py:90-102 | crash inside an insertion: with none of its records every lookup is that of the old map, with any of them that of the new one |
| TornDelete.DeleteSafe | src/bplus_tree.py:126-232 | crash inside a deletion after at least one record, over any recovered pages: every lookup is that of the new map unless just the parent's record of a last borrow is missing |
| TornDelete.DeleteTorn | src/bplus_tree.py:273-325 | and from a checkpoint exactly then: with just that record missing some lookup is wrong |
| LogLinks.RunBelow | src/bplus_tree.py:90-232 | no page that a run logs, and no id or link inside it, lies beyond the next free id |
| WalFormat.ParseEncoded | src/wal.py:207-263 | a whole record is read back whatever follows it |
| WalFormat.ParseTorn | src/wal.py:395-403 | a record cut anywhere is not read, whatever its checksum |
| WalFormat.ParseCorrupt | src/wal.py:400-411 | a whole record with a wrong checksum is not read, whatever follows it |
| WalFormat.ParseUnknown | src/wal.py:474-475 | a record of an unknown type stops the scan |
| WalFormat.ParseOnly | src/wal.py:395-473 | whatever is read was encoded that way: the bytes read are the encoding of the record returned |
| WalFormat.RecordLayout | src/wal.py:80-108 | type bytes, sizes and the place of every field |
| WalFormat.TornLog | src/wal.py:395-480 | of a log cut after any number of bytes exactly the whole records before the cut are read |
| WalRecovery.TakeItem | src/wal.py:395-473 | a whole item takes effect: an automatic change itself, a transaction's changes only if it committed |
| WalRecovery.CutItems | src/wal.py:395-473 | a log cut inside a transaction applies nothing of it |
| WalRecovery.TornAtomicity | src/wal.py:342-483 | cut after any byte, recovery applies exactly the automatic writes and the committed brackets that are whole, in log order |
| WalRecovery.RecoverRestarts | src/bplus_pager.py:140-166 | an interrupted recovery run again gives the same pages, root and next page id |
| WalRecovery.RecoverTwice | src/bplus_pager.py:155-166 | so does one that stopped after the meta page and before the truncation |
| WalRecovery.CheckpointTail | src/wal.py:318-336 | a checkpoint record left in the log changes nothing |
| WalCounts.RecoveryApplies | src/wal.py:342-483 | of any log at all, recovery applies exactly the changes in no transaction and those whose next begin, commit or abort record is the commit record of the transaction they are in, in log order |
| WalCounts.BodyWhole | src/wal.py:442-473 | between a begin record and its commit record, all changes take effect if and only if no other begin, commit or abort record stands there |
| WalCounts.ForeignAbort | src/wal.py:463-467 | an abort record of another transaction inside drops what was changed before it |
| WalCounts.RecoverRestores | src/bplus_pager.py:140-166 | for any database and any log: a page has the image of the last effective record that writes it, else its own; the root is that of the last effective root record, else the old one; the next page id is beyond the old one and all written ids, and no further |
| Wal.WAL.constructor | src/wal.py:130-205 | no number found in an existing log is used again |
| Wal.WAL.Append | src/wal.py:207-275 | the next number, and the record at the end of the buffer |
| Wal.WAL.FsyncUpTo | src/wal.py:281-302 | every record up to the number is in the file, in order, and the rest stay buffered; for a number not yet assigned, exactly when the flushed number stays true of the log |
| Wal.WAL.Fsync | src/wal.py:304-307 | nothing is left in the buffer |
| Wal.WAL.RecordDurable | src/wal.py:281-312 | a record of this process is durable exactly when it is among those written, and always when the flushed number, being true, covers it |
| Wal.WAL.FlushedIsDurable | src/wal.py:309-312 | everything up to the flushed number is durable, and buffered numbers are consecutive above it |
| Wal.WAL.FileRecords | src/wal.py:281-302 | the file holds the encoded records written since the last checkpoint |
| Wal.WAL.Checkpoint | src/wal.py:318-336 | everything durable, then an empty file |
| Wal.Recover | src/wal.py:342-483 | the loop over the file with its pending lists writes what the replay of the parsed records says |
| BufferPools.BufferPool.Get | src/buffer_pool.py:54-64 | the cached page; its frame moves to the end of the order, and the others keep theirs |
| BufferPools.BufferPool.Put | src/buffer_pool.py:66-104 | the page goes to the end of the order; with a full pool exactly the least recently used unpinned frame goes, and it is returned exactly when dirty |
| BufferPools.BufferPool.EvictOne | src/buffer_pool.py:147-160 | the victim is the least recently used unpinned frame; with all pinned nothing goes |
| BufferPools.BufferPool.DirtyPages | src/buffer_pool.py:123-129 | each dirty frame once |
| BufferPools.BufferPool.Unpin | src/buffer_pool.py:111-116 | the count goes down and never below zero |
| FilePager.FilePager.Open | src/bplus_pager.py:124-166 | reopening leaves each page as the last effective record of it has it, the root of the last effective root record, and as next page id the least beyond the old one and every page that an effective record writes; the log is empty |
| FilePager.FilePager.WritePage | src/bplus_pager.py:200-205 | the write-ahead rule: a dirty page may be written only when the record with its number, a write of this page, is durable; its contents may have changed since |
| FilePager.FilePager.WriteBack | src/bplus_pager.py:406-424 | the log up to the page's record becomes durable, then the page is written as it is now |
| FilePager.FilePager.PoolPut | src/bplus_pager.py:406-424 | the least recently used frame may go; a dirty one is written behind the log as it is now, or deferred while a transaction applies; every page's contents stay findable |
| FilePager.FilePager.NewPage | src/bplus_pager.py:230-246 | a fresh id with the given contents in pool and file, whatever frame goes for it |
| FilePager.FilePager.GetPage | src/bplus_pager.py:252-271 | the frame as it is now, also when it was changed after it was logged, or else what the data file holds, which is then pooled; outside a transaction nothing becomes stale by it |
| FilePager.FilePager.CurrentIff | src/bplus_pager.py:252-271 | a read gives the contents that the pager keeps of the page if and only if its frame is not stale, or it has no frame and its image is not deferred or already in the file |
| FilePager.FilePager.AllCurrent | src/bplus_pager.py:391-404 | with nothing deferred, every read is current if and only if no frame is stale |
| FilePager.StaleRead | src/bplus_pager.py:252-271 | with one frame, a page that a transaction changed and that was evicted is read with its old contents, and still after the transaction has ended |
| FilePager.FilePager.MarkDirty | src/bplus_pager.py:277-300 | exactly this page's image is appended to the log, the page has that record's number and contents, its frame is dirty and no longer stale |
| FilePager.FilePager.ChangeFrame | src/bplus_page.py:204-225 | a page object in the pool changes without a record: in a dirty frame its contents are new from now on, in a clean one they are stale |
| FilePager.FilePager.Alter | src/bplus_tree.py:273-350 | the change of a page object is kept if and only if its frame is dirty, or it has none and was deferred |
| FilePager.FilePager.SplitPage | src/bplus_tree.py:383-392 | the page is logged whole, a new one is allocated and logged; the cut is kept if and only if a transaction applies or the new page does not push out the old one, which is with a full pool and every other page used later |
| FilePager.FilePager.SameImage | src/bplus_pager.py:200-205 | the image of a dirty frame is that of the record with its number if and only if the page has not changed since it was logged |
| FilePager.ChangedRun | src/bplus_tree.py:383-392 | a run after which the data file has an image under a number whose record has another |
| FilePager.FilePager.LogMetaUpdate | src/bplus_pager.py:370-379 | a record of the new root, and nothing else changes |
| FilePager.FilePager.BeginTxnWrite | src/transaction.py:186-194 | the begin record is logged and evictions are deferred from here on |
| FilePager.FilePager.CommitTxn | src/transaction.py:206-209 | the commit record is logged and all of the log is durable |
| FilePager.FilePager.EndTxnWrite | src/bplus_pager.py:391-404 | deferred pages are written behind the log as they are now, every page's contents stay findable, and the same frames are stale as before |
| FilePager.FilePager.Flush | src/bplus_pager.py:302-339 | the data file equals the pages as they are now, left halves as cut since their record included; the meta page is current, the log is empty |
| FilePager.FilePager.WriteAheadRule | src/bplus_pager.py:406-424 | at every point of every run: the log file holds the durable records, and each page of the last checkpoint still has its image in the data file or is written by a durable record |
| FilePager.FilePager.TornCrash | src/bplus_pager.py:140-166 | crash anywhere with any byte prefix of the log that holds the durable part: exactly the whole records count, and recovery gives every checkpointed page what it gives over the checkpoint itself |
| FilePager.FilePager.Recovered | src/bplus_pager.py:140-166 | with the log durable outside a transaction, recovery brings back the root and the body of every page as it was last logged |
| TreeActs.OpExact | src/bplus_tree.py:90-350 | when the cuts are kept, the acts of an operation leave exactly the pages of the tree after it, and log what it logs |
| TreeActs.InsertKept | src/bplus_tree.py:372-414 | after an insertion the pages are exactly those of the tree if and only if no cut was lost, and every page is right up to stale upper halves either way |
| ActRuns.RunAble | src/bplus_tree.py:90-350 | every act of any run whose pages fit can be done: pages that are changed or read are there, new ones are next |
| ActRuns.RunActed | src/bplus_tree.py:90-350 | with pages read anywhere in between, a run logs exactly its log, moves the root and the next id as the tree does, and leaves exactly its pages if every cut was kept |
| PagerRuns.DoHalve | src/bplus_tree.py:383-413 | a split on the pager logs both images, and the cut is lost if and only if no transaction applies and the new page pushes the old one out |
| PagerRuns.DoRead | src/bplus_pager.py:252-271 | outside a transaction a page that is not stale reads as the bytes of the tree's page |
| PagerRuns.Perform | src/bplus_tree.py:90-350 | any acts on the pager: the log grows by what they tell, the pager's pages are those that they leave, no frame is stale but those changed and not yet logged, and no cut is lost while the pool has room |
| FlushedRuns.DiskHolds | src/bplus_page.py:90-310 | a data file with the pages of a sound tree, under any numbers, reads back as that tree exactly |
| FlushedRuns.RunOps | src/bplus_tree.py:90-172 | a run of operations on a flushed pager, with any pool: the log tells what the run logs, and if every cut was kept the pager has exactly the pages of the tree |
| FlushedRuns.RunAndFlush | src/bplus_pager.py:302-339 | after any run whose cuts were kept a flush leaves a data file that holds the tree of the run exactly, so that it is the next checkpoint |
| FlushedRuns.Create | src/bplus_tree.py:74-79 | a new database comes to rest with the empty tree |
| LiveLog.GuardedReplay | src/bplus_pager.py:140-166 | replaying any part of the log that holds the durable records gives a checkpointed page the same over the current data file as over the checkpoint |
| FilePager.PutKeeps | src/bplus_pager.py:406-424 | a frame in and a frame out keep every page's contents findable |
| FilePager.DrainKeeps | src/bplus_pager.py:391-404 | writing the oldest deferred image keeps every page's contents findable |
| FilePager.PageTrip | src/bplus_page.py:90-130 | body and number of a page come back from its bytes |
| EndToEnd.PagerTells | src/bplus_pager.py:277-300 | the record that the pager logs for a page whose body is the page's bytes tells of exactly that page |
| EndToEnd.RecordsReplay | src/wal.py:395-433 | writing the images of records that tell of tree changes and reading the pages back is replaying the changes, up to index pages without keys |
| EndToEnd.RootsReplay | src/wal.py:224-239 | the last root record names the root after the changes |
| EndToEnd.Answers | src/bplus_pager.py:140-166 | records in effect that tell of a run, over pages as a crash left them: every lookup by page bytes is that of the map after the run |
| KnownIds.PartReached | src/bplus_tree.py:372-414 | replay any part of a run's log: every page that can be reached from the root is a page of the checkpoint or one that this part writes |
| EndToEnd.RecoveredApart | src/bplus_pager.py:153-156 | after recovery from any part of a run's log, every page that can be reached from the root lies below the next page id, so no page allocated later is one of these |
| EndToEnd.CrashedPager | src/bplus_pager.py:140-166 | crash the pager at any point with any torn log: the recovered database answers every key as the operations do whose records count, and gives out no page id of its tree |
| TornRuns.TornRecovered | src/bplus_pager.py:140-166 | a log of any run and any part of one more operation: the recovered lookup fails if it comes upon an index page without keys, and else finds what it finds over the pages of the log |
| TornRuns.TornAnswers | src/bplus_tree.py:90-232 | whole operations and a part of one more, over pages as a crash left them: the lookups are those of the map after the whole ones and, with a record of the cut one, its change, if that part leaves lookups right |
| TornRuns.DeletionsRight | src/bplus_tree.py:198-350 | from order 4 on, a part of a deletion leaves lookups right unless it lacks just the parent's record of a last borrow, or just that of the new root |
| TornRuns.LogCut | src/bplus_pager.py:277-300 | a run's log cut after any number of records is that of some of its operations and a part of the next |
| TornRuns.CrashedAnywhere | src/bplus_pager.py:140-166 | crash the pager at any point with any torn log that tells of whole operations and a part of one more: the recovered database answers every key accordingly, and gives out no page id of its tree |
| TornRuns.RunAndCrash | src/bplus_pager.py:140-166 | the tree's acts on a flushed pager, stopped anywhere in a run, then a crash with any torn log and recovery: the whole records are those of some operations and a part of the next, the lookups are right for these, and no page id of the tree is given out again |
| TornRuns.TransactionsDurable | src/wal.py:342-483 | cut a log of automatic operations of any number of records and of transactions after any byte: the recovered lookups are those of the map after exactly the operations and committed transactions that are whole, and after the operation that is cut, if its part leaves lookups right |
| EndToEnd.CollapseTorn | src/bplus_tree.py:226-232 | between the record of a root that lost its last key and the record of the new root, the recovered page has no child and every lookup fails |
| Locks.AdvanceExact | src/lock_manager.py:196-220 | a hand-over grants exactly the longest prefix of the queue that can be granted one after the other |
| Locks.NewEdges | src/lock_manager.py:122-131 | edges from a transaction that does not reach itself keep the graph acyclic |
| LockSafety.AdvanceOk | src/lock_manager.py:196-220 | a hand-over weakens no hold, grants only queued requests, and leaves the next one ungrantable |
| LockSafety.AcquireInv | src/lock_manager.py:86-135 | a request keeps: exclusive holders alone, no empty entry, heads ungrantable, every hold and wait recorded, one wait per transaction, acyclic graph |
| LockSafety.AcquireOutcome | src/lock_manager.py:86-135 | granted exactly when the hold serves the request, waiting exactly when recorded as waiting |
| LockSafety.AcquireIff | src/lock_manager.py:86-135 | the same on who holds what, and refused exactly when it cannot be granted and another holder waits, at whatever remove, for the requester |
| LockSafety.AcquireState | src/lock_manager.py:86-135 | every hold, queue and edge after a request: the hold granted, or the place at the end of the queue with edges to all other holders, and nothing else |
| LockSafety.ReleaseInv | src/lock_manager.py:150-175 | a release keeps the same invariant |
| LockSafety.ReleaseLeavesNothing | src/lock_manager.py:150-171 | it leaves the transaction holding and awaiting nothing |
| LockSafety.ReleaseOthers | src/lock_manager.py:150-220 | every other hold is no weaker, and every waiter still waits or holds what it asked for |
| LockSafety.ReleaseState | src/lock_manager.py:150-220 | every hold and queue after a release: the first requests of a queue hold what they asked for, and the next one is incompatible with a holder |
| LockSafety.ReleaseWakes | src/lock_manager.py:196-220 | shared requests at the head of a queue all hold the key once no other exclusive holder is left, and an exclusive one once no other holder is |
| LockSafety.ReleaseEdges | src/lock_manager.py:167-218 | who still waits has the edges it had, everybody else has none |
| LockManagement.LockManager.HasCycle | src/lock_manager.py:222-241 | the search ends, and is true exactly when the transaction reaches itself along at least one edge |
| LockManagement.LockManager.AdvanceWaiters | src/lock_manager.py:196-220 | queue, holders and graph after a hand-over |
| LockManagement.LockManager.Acquire | src/lock_manager.py:86-135 | granted exactly when the own hold serves, nobody else holds the key, or the request and all other holds are shared; else queued, or refused exactly when waiting would close a cycle |
| LockManagement.LockManager.ReleaseAll | src/lock_manager.py:150-175 | the table after releasing every lock and handing each over |
| Transactions.OverlayIsReplay | src/transaction.py:94-138 | overlay and deleted set are disjoint, and laid over any committed rows give the staged ops replayed on them |
| Transactions.Transaction.Put | src/transaction.py:94-106 | staged exactly when the exclusive lock is granted |
| Transactions.Transaction.Delete | src/transaction.py:108-118 | the same for a delete |
| Transactions.Transaction.Get | src/transaction.py:124-138 | the row of the staged ops replayed over the tree |
| Transactions.Transaction.Scan | src/transaction.py:140-164 | refused when closed; else the sorted rows of the view in the range, with a shared lock on each in key order, or none when a lock is not granted |
| Transactions.Transaction.Commit | src/transaction.py:173-213 | the tree becomes exactly the view and its log grows by what the staged ops log one after the other; locks are released when something was staged |
| Transactions.Transaction.Rollback | src/transaction.py:219-235 | the locks are released, once; tree and log are not in reach of it |
| Serializability.ReadsSurvive | src/transaction.py:124-213 | a commit leaves every read of another running transaction true |
| Serializability.StepOk | src/transaction.py:94-235 | every step of every transaction keeps locks, coverage and the serial history |
| Serializability.AskAnswers | src/transaction.py:94-138 | a granted read gets the last own write to the key, or else the committed row; a granted write is staged; a request that waits or is refused changes neither |
| Serializability.ResumeAnswers | src/lock_manager.py:136-148 | a request that has waited is answered the same way |
| Serializability.CommitShows | src/transaction.py:173-213 | a commit makes the last staged write to each key visible, changes no other row, and comes last in the serial order |
| Serializability.RollbackHides | src/transaction.py:219-235 | a rollback changes no row, leaves no lock, and is not in the serial order |
| Serializability.OtherSteps | src/transaction.py:94-235 | a transaction begins once, asks and ends only while it is active; anything else changes nothing |
| Serializability.OneWriter | src/transaction.py:94-213 | begin, write a row, commit: the row is in the store, the transaction in the serial order, and its locks are gone |
| Serializability.Serializable | src/transaction.py:94-235 | in every interleaving the committed reads and the final store are those of a serial run in commit order |
| Serializability.LocksInOrder | src/lock_manager.py:86-241 | in every interleaving the lock invariant holds and the wait-for graph is acyclic |
| Serializability.CommitReleases | src/transaction.py:183-213 | a commit leaves the transaction without locks if and only if it staged a write or had none |
| SlottedLayout.NoOverlap | src/slotted_page.py:118-160 | live records never share a byte with each other or the slot array |
| SlottedLayout.InsertedLayout | src/slotted_page.py:118-160 | an insertion appends one slot that reads the record; all others read as before; free space shrinks by record, length and slot |
| SlottedLayout.DeletedLayout | src/slotted_page.py:202-219 | a deletion empties one slot and reclaims nothing |
| SlottedLayout.CompactedLayout | src/slotted_page.py:225-270 | compaction keeps every slot id and what it reads; free space is all that header, slots and live records do not take |
| SlottedPages.SlottedPage.Insert | src/slotted_page.py:118-160 | the new slot id, or refusal exactly when record, length and slot do not fit |
| SlottedPages.SlottedPage.Read | src/slotted_page.py:168-196 | payload, deleted, or an invalid slot |
| SlottedPages.SlottedPage.Delete | src/slotted_page.py:202-219 | refused exactly for a slot that was never allocated |
| SlottedPages.SlottedPage.Compact | src/slotted_page.py:225-270 | rows unchanged, free space maximal |
| Records.EncodeRecord | src/record.py:27-54 | the bytes of a row, or failure exactly when an integer does not fit 32 bits, a string is longer than 65535 bytes, or the header is too long |
| Records.DecodeRecord | src/record.py:56-80 | the loop computes the decoding of the header's types |
| Records.RecordTrip | src/record.py:27-80 | a row that fits is read back whatever bytes follow, for any number and mix of columns |
| Records.ValueRead | src/record.py:56-80 | what is read at any offset of any bytes: an integer needs four bytes, a string two for its length and takes what there is of the rest |
| Records.RowHeader | src/record.py:39-54 | header size, column count and type bytes in their places |
| Records.RowLayout | src/record.py:39-54 | the values follow in order |
| Records.ValueBytes | src/record.py:27-36 | an integer in two's complement, lowest byte first; a string after its length |
| ByteOrder.LEDigit | src/record.py:33-35 | the lowest byte comes first |
| PageCodec.Rebuild | src/bplus_page.py:144-149 | a fresh page takes the entries if and only if they need at most 4071 bytes |
| PageCodec.RebuildThenRead | src/bplus_page.py:132-149 | a page rebuilt from entries reads back exactly those entries |
| PageCodec.LeafTrip | src/bplus_page.py:90-130 | a leaf comes back if and only if its link is not the sentinel value |
| PageCodec.IndexFits | src/bplus_page.py:261-286 | an index page fits exactly up to 509 keys |
| PageCodec.IndexTrip | src/bplus_page.py:261-310 | an index page comes back if and only if it has a key |
| PageBytes.PageBack | src/bplus_page.py:90-310 | a page that fits is read back from its bytes as it was, if and only if it is not an index page without keys |
| PageBytes.NumberApart | src/bplus_page.py:113-130 | the record number in the header plays no part in what the page says |
| Capacity.RunWritable | src/bplus_page.py:144-149 | with (order + 1) * (r + 12) at most 4071, no run from a sound tree with records of at most r bytes logs a page that does not fit |
| Capacity.CapacityIff | src/slotted_page.py:141-151 | from the empty tree, every page of every such run fits if and only if (order + 1) * (r + 12) is at most 4071 |
| Indexes.InsertAgrees | src/executor.py:229-231 | after storing a row the index agrees with the table if and only if the key was new, or its old value NULL or the same |
| Indexes.DeleteAgrees | src/index_manager.py:111-116 | after a deletion the index agrees with the table |
| Indexes.UpdateAgrees | src/index_manager.py:118-127 | after an update the index agrees with the table |
| Indexes.TookAgrees | src/index_manager.py:104-109 | after all indexes took in a row, each agrees with the table if and only if no index loses track of the row that was replaced |
| Indexes.IndexManager.OnInsert | src/index_manager.py:104-109 | every index takes in the new row; they agree with the table exactly when no replaced row is lost track of |
| Indexes.IndexManager.OnDelete | src/index_manager.py:111-116 | every index forgets the key |
| Indexes.IndexManager.OnUpdate | src/index_manager.py:118-127 | every index moves the key to the new value |
| Indexes.IndexManager.CreateIndex | src/index_manager.py:67-82 | the back-filled index agrees with the table |
| Indexes.IndexManager.Remove | src/index_manager.py:177-186 | the entry without the key, and no entry when none is left |
| Indexes.RangeLookup | src/index_manager.py:148-156 | each key whose row holds a value in the range, once |
| Execution.Executor.FetchRows | src/executor.py:378-423 | the same list as a full scan with the condition, and for equality on an indexed column the same rows up to order |
| Execution.Executor.PlansAgree | src/executor.py:378-423 | any access path against the full scan: same multiset, and same list on all paths but index equality |
| Execution.Executor.FullScan | src/executor.py:418-423 | the rows that satisfy the condition, in key order |
| Conditions.EvalInt | src/executor.py:49-60 | each of the five comparisons of a value with an integer is that of arithmetic; NULL and missing columns satisfy none |
| Conditions.EvalStr | src/executor.py:49-60 | the same with a string, by the first byte in which two strings differ |
| Conditions.EvalEqual | src/executor.py:47-63 | equality with any value, and ranges of integers and strings |
| Conditions.EvalNotEqual | src/executor.py:47-63 | inequality with any value; NULL and missing columns never satisfy it |
| Conditions.EvalBoth | src/executor.py:64-67 | both and either |
| Conditions.LessIff | src/executor.py:54-59 | the order of strings is that of the first difference, a prefix coming first |
| Conditions.OneFirst | src/executor.py:54-59 | of two different strings exactly one comes first |
| Conditions.FirstOfThree | src/executor.py:54-59 | the order of strings is transitive |
| Conditions.CompareInt | src/executor.py:417-423 | the rows that a comparison of a column with an integer finds are exactly those whose cell stands in that relation |
| Conditions.CompareStr | src/executor.py:417-423 | the same with a string |
| Conditions.EqualOrBetween | src/executor.py:417-423 | the same for equality and ranges |
| Conditions.Combined | src/executor.py:64-67 | intersection, union, and all rows without a condition |
| Conditions.UnknownColumn | src/executor.py:47-63 | a column that the table has not is NULL in every row |
| Execution.Executor.Insert | src/executor.py:206-232 | which rows are rejected, and with what error: the number of values, a key that is no integer, a parent key that no parent row has; a rejected row changes nothing; a stored one keeps every index right if and only if no index loses track of the row it replaces |
| Execution.Executor.Update | src/executor.py:248-275 | in exactly the matching rows every cell is the value of the last assignment to its column, or what it was; all other rows are unchanged, and every index stays right |
| Execution.Executor.Delete | src/executor.py:277-303 | the matching rows go one by one until a row of a child table, or of what remains of this one, holds the key in its referencing column; every index stays right either way |
| Conditions.ReferencesIff | src/executor.py:285-298 | a key is referenced exactly when the query for it on the referencing column finds a row |
| Execution.Executor.CreateIndex | src/executor.py:186-193 | the new index agrees with the table from the start |
| Joins.JoinSelect | src/executor.py:309-372 | one row for each pair of rows with the same value other than NULL in the columns joined whose merged row satisfies the condition, each pair once, with the selected cells; an error exactly if there is such a pair and a selected name is unknown; on every access path the bag of the nested loop |
| Joins.MergeIs | src/executor.py:353-363 | a merged row has the right row's cells under the right table's names, the left row's under the left table's, under a plain name the left cell or else the right one, and no other name |
| Joins.MergedOnce | src/executor.py:353-363 | and is determined by that |
| Joins.JoinRowsBag | src/executor.py:324-370 | the order of the right rows changes only the order of the result |
| Joins.ProjectBag | src/executor.py:110-126 | rows in another order project to the same rows in another order |

## Left out

- Order 1: a tree of order 1 has index pages without keys; every tree here has `order >= 2`.
- BPlusTree.BPlusTree: works on a page store that keeps every page; eviction is the subject of `FilePager`, and the two meet in `EndToEnd` through the records that the pager logs. A pager without a file that drops pages is not modelled.
- FilePager.FilePager: holds pages as values: of two objects of one page, one of them no longer in the pool, it follows the one that the pager keeps, and what the tree marks dirty; a transaction whose apply phase raises an exception, which ends it without a commit record, is not modelled.
- FilePager.FilePager.LogOther: between a begin record and its commit record only changes are logged, as commits run one at a time; what recovery makes of other records there is `WalCounts`.
- TornDelete.DeleteTorn: starts from pages that are exact, as a checkpoint leaves them; over pages that are stale already, the surplus of a stale leaf can make the lookup right again when the borrow is between index pages.
- TornRuns.TornAnswers: at orders 2 and 3, parts of a deletion whose log has an index page without keys are `TornRuns.TornRecovered` alone: exactly which lookups fail, and that the others are those over the pages of the log.
- TornRuns.TransactionsDurable: rollbacks appear in the log as their abort record alone, since a transaction writes nothing before it commits.
- RecoveredOps.RunServes: its condition is sufficient, not necessary: an operation that reads a stale page can leave lookups right too, as an insertion into a stale leaf does that splits off the surplus.
- RecoveredOps.ActsOn: opens the tree to the height that it had, where the program descends to the first leaf; the pages that an operation reads under the condition are the same.
- CursorModel.Cursor: reads leaves through the tree by page id instead of keeping a leaf object, and its values are record bytes.
- Pages.LeafPage: holds its cells as a list; the bytes behind the list are `SlottedPages`, `PageCodec` and `PageBytes`.
- Transactions.Transaction.Scan: phantoms; a scan locks the rows it returns and no gaps, so scans are not part of `Serializability`.
- Transactions.Transaction.Commit: works on the tree alone; the exception path during apply, which skips the release, is not modelled; the bracket records around the tree's own are those of `FilePager.FilePager.BeginTxnWrite` and `FilePager.FilePager.CommitTxn`.
- Transactions.Transaction.Rollback: the abort record it buffers is `FilePager.FilePager.LogOther`, outside this class.
- Locks: timeouts, threads, events and the mutex are left out; each critical section is one step, and a blocked transaction neither asks nor releases.
- Lock starvation and completeness of the recorded graph: edges are not refreshed at hand-over and new readers can pass a queued writer, so the facts are about the recorded graph and the queue.
- Execution.Executor: one table with its indexes; literals compared with the key or an indexed column are integers, and errors of mixed-type comparisons are not modelled.
- Execution.Executor.Insert: values of indexed columns are NULL or in the key range. Keys from 2^31 on are stored here, although packing the row's key column as a signed 32-bit integer raises for them (src/record.py:32); an index entry that has grown too long for a page makes the code raise after the row is stored, and the model has no such bound.
- Foreign keys under UPDATE, and foreign keys to columns other than the key: the code makes no such check.
- Projection of single-table results, DROP INDEX and CREATE TABLE: they would add only easy members.
- Checksum strength and UTF-8: the checksum is any function of the payload, and strings are their encoded bytes.
- Files: handles, seeking and operating-system buffering; the log and the data file are durable contents.
- Engine, database, catalog, parser, lexer and shell: wiring and interface; the older leaf in src/btree.py and the separate experiment under scratch_codes.
