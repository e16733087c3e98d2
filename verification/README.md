# StingDB in Dafny: storage, executors, transactions, memo, arena, null mask

StingDB is a small database engine in C++. This project models the parts of it that keep
state and proves what they promise over all inputs and all runs:

* **Buffer pool over an asynchronous disk** (`Disk`, `BufferPool`, `PoolRuns`, `PageIds`,
  `Completions`, `LruStack`, `PoolManager`). A write in flight points at a frame and stores
  the bytes the frame holds when it lands; the device decides when that is. The pool plus the disk refines a plain map
  from page ids to bytes, frame reuse never races with a write exactly under a condition on
  the state before the call, and the LRU list is the front of a move-to-front list.
* **Slotted page** (`SlottedPage`, `PageObject`). The bytes of a page refine a sequence of
  rows, live or deleted, with the 16-bit arithmetic of the code.
* **Executors** (`LsnChain`, `Chains`, `Rids`, `LogBound`, `EndToEnd`, `Runs`, `Executors`).
  A scan counts the rows inserted up to the page's capacity, whatever page traffic lies between; pin counts
  balance; a page's LSN chain in the log visits exactly its inserts and rebuilds it.
* **Transactions, epochs, log** (`Transactions`, `TransactionManager`, `Log`).
* **Memo and rewrite rules** (`Memo`, `MemoRules`, `MemoCollision`), **arena** (`Arena`), **null mask** (`NullMask`).

Each stateful entity appears twice: as a value with functions, over which the theorems are
proved, and as a class whose methods update fields or bytes in place and are proved to do
exactly what those functions say. `Abs()` maps the object to the value.

Device behaviour is a parameter: a `schedule` lists which writes land before each poll of a
spin-wait, an `order` which land before one poll. Theorems hold for every schedule under
which the wait ends.

Where code and intent differ, the model follows the code and the difference is a theorem with
an exact condition, and a concrete input on which the intent fails:

* The wait after an eviction write accepts any completion, and `FlushPage` does not wait, so
  a forgotten flush can lose a page (`PoolRuns.ReuseExact`, `PoolRuns.ForgottenFlushLosesPage`).
* `FlushAllPages` says it waits for all writes; its loop condition `< 0` is never true, so it
  polls once, and guarantees a page on disk only if it was there before
  (`PoolRuns.FlushAllExact`, `PoolRuns.FlushAllLosesPage`).
* `NewPage` does not look whether its id is in use (`BufferPool.NewExact`,
  `PoolRuns.NewPageDoublesResident`) or its page on disk (`PoolRuns.NewContentExact`,
  `PoolRuns.NewPageHidesOld`).
* `InsertTuple` cuts the required space to 16 bits, so tuples of 65532 to 65535 bytes pass
  the check and are written outside the page (`SlottedPage.OverrunExact`,
  `SlottedPage.OverrunHappens`).
* `GetOldestActiveEpoch` returns the newest active epoch (`Transactions.ScanExact`,
  `Transactions.ScanMissesOldest`).
* Finishing a transaction twice in the same way drops an epoch counter below the number of
  active transactions (`Transactions.CounterExact`, `Transactions.DoubleCommitGoesNegative`).
* The log loses a buffer when more than 16384 bytes are appended between flushes
  (`Log.CommitHandsOver`, `LogBound.CommitLosesRecords`).
* A group is meant to hold all equivalent expressions, but groups are never merged
  (`MemoRules.ApplyExact`, `MemoRules.JoinsStayApart`).
* The memo looks expressions up by hash alone, so an insertion can return a group that does
  not hold the expression (`Memo.InsertFindsExact`, `MemoCollision.RunMisplaces`).

## Model

| member | source | states |
|---|---|---|
| PoolRuns.RunRefinesStore | src/storage/buffer_pool/buffer_pool_manager.cpp:29-178 | In every run of fetches, new pages, unpins, flushes, client writes, device landings and polls, pool plus disk agrees with a plain map that only client writes change; the invariant (frame partition, writes aimed at their own page, clean unowed pages equal to the disk) holds throughout |
| PoolRuns.StepRefinesStore | src/storage/buffer_pool/buffer_pool_manager.cpp:29-178 | The single-step form: each step keeps the invariant and changes the map as the step says |
| PoolRuns.FetchReadsStore | src/storage/buffer_pool/buffer_pool_manager.cpp:29-88 | After any run from a fresh pool, a fetch that obtains a frame shows exactly the bytes last written to that page, or what the file held |
| PoolRuns.FetchKeepsContent | src/storage/buffer_pool/buffer_pool_manager.cpp:33-88 | A fetch, with whatever eviction it needs, changes no page's content and returns the page's content |
| PoolRuns.NewKeepsContent | src/storage/buffer_pool/buffer_pool_manager.cpp:144-178 | A new page under whose id nothing but zeros is stored, and that is not resident once the victim is gone, changes no page's content |
| PoolRuns.NewContentExact | src/storage/buffer_pool/buffer_pool_manager.cpp:144-178 | A new page changes no page's content if and only if the content under its id, in the pool or on disk, was zeros |
| PoolRuns.NewPageHidesOld | src/storage/disk/disk_manager.h:39-46 | Over a file that already has page 0, the first new page reads as zeros in its place |
| PoolRuns.NewPageDoublesResident | src/storage/buffer_pool/buffer_pool_manager.cpp:166-175 | With page 0 already fetched, the first new page leaves two frames with one page id |
| PoolRuns.EveryRunPartitioned | src/storage/buffer_pool/buffer_pool_manager.cpp:14-178 | In every run in which no new page gets the id of a page that stays resident, also after frames were reused too early or writers unpinned as clean: each frame is in exactly one of free list, LRU list and pinned set, the page table is injective and agrees with the frames, writes in flight name taken frames, the device can end every wait, and reuse is free of races exactly under the condition of ReuseExact |
| PoolRuns.StepPartitioned | src/storage/buffer_pool/buffer_pool_manager.cpp:29-178 | Each such step keeps that partition, with no condition on frame reuse or dirtiness |
| PoolRuns.StepPartitionedExact | src/storage/buffer_pool/buffer_pool_manager.cpp:29-178 | A step of the code keeps the partition if and only if it is no NewPage under the id of a page that stays resident |
| PoolRuns.WaitCanEnd | src/storage/buffer_pool/buffer_pool_manager.cpp:64 | In every such state the device can let the eviction's wait end |
| PoolRuns.FramesUsedInOrder | src/storage/buffer_pool/buffer_pool_manager.cpp:14-17 | Frames are put to use in the order 0, 1, 2, ...: in every run the free list is the rest of them, in order |
| PageIds.IdsAreConsecutive | src/storage/disk/disk_manager.h:39-41 | The j-th new page of any run from counter c gets the id (c + j) mod 2^32 |
| PageIds.IdsAreDistinct | src/storage/disk/disk_manager.h:39-46 | No id is handed out twice before all 2^32 have been |
| PageIds.StepCounts | src/storage/buffer_pool/buffer_pool_manager.cpp:166-175 | A NewPage that gets a frame returns the counter as its page's id and moves the counter on by one; no other step touches it |
| PageIds.EmptyFileRun | src/storage/buffer_pool/buffer_pool_manager.cpp:144-178 | Over an empty file, in every run that fetches only ids already handed out, the id of a new page is never resident and nothing is stored under it, so the pool behaves as a plain store with nothing asked about ids |
| Completions.RunBalances | src/storage/disk/disk_manager.cpp:51-88 | Over every run, writes submitted (one per dirty victim, one per dirty page flushed) are those in flight and those landed, and writes landed are those that polls returned and those still queued |
| Completions.PollDrains | src/storage/disk/disk_manager.cpp:71-88 | A poll always leaves the completion queue empty |
| Completions.WaitBalances | src/storage/buffer_pool/buffer_pool_manager.cpp:62-64 | So does a spin-wait, whose polls return exactly what was queued before and what landed meanwhile |
| Completions.FullPollIsSafe | src/storage/buffer_pool/buffer_pool_manager.cpp:52-77 | A poll that finds every write landed makes the next reuse of a frame safe |
| Completions.EvictionLeavesSafe | src/storage/buffer_pool/buffer_pool_manager.cpp:52-67 | An eviction that starts with nothing outstanding leaves nothing outstanding |
| PoolRuns.UnpinKeepsContent | src/storage/buffer_pool/buffer_pool_manager.cpp:90-113 | An unpin changes no content, as long as the last pin of a page whose bytes were written while its frame was clean is given back dirty |
| PoolRuns.FlushKeepsContent | src/storage/buffer_pool/buffer_pool_manager.cpp:115-128 | A flush changes no content although it clears the dirty flag before the write lands |
| PoolRuns.WriteUpdatesContent | src/storage/page/page.h:43-51 | A client's write to a pinned page changes that page and no other |
| PoolRuns.LandKeepsContent | src/storage/disk/disk_manager.cpp:51-69 | A write may land at any time without changing any page's content |
| PoolRuns.PollStepKeepsContent | src/storage/disk/disk_manager.cpp:71-88 | A poll with any set of landed writes changes no page's content |
| PoolRuns.ReuseExact | src/storage/buffer_pool/buffer_pool_manager.cpp:52-77 | No device schedule leaves a write in flight that reads the reused frame, if and only if a clean victim has no write in flight and a dirty victim finds nothing in flight and no completion queued; it needs only that writes in flight name taken frames, which every run keeps |
| PoolRuns.SafeReuseNeverRaces | src/storage/buffer_pool/buffer_pool_manager.cpp:151-170 | The safe direction for one schedule |
| PoolRuns.EvictionIsDurable | src/storage/buffer_pool/buffer_pool_manager.cpp:52-67 | With nothing outstanding at the start of a miss, the wait leaves nothing in flight and the dirty victim's exact bytes are on disk before its frame is reset |
| PoolRuns.ForgottenFlushLosesPage | src/storage/buffer_pool/buffer_pool_manager.cpp:115-128 | A flush that has not landed followed by an eviction loses the page, for any bytes |
| PoolRuns.CleanUnpinLosesWrite | src/storage/buffer_pool/buffer_pool_manager.cpp:99-101 | A writer that unpins as clean loses its write at the next eviction |
| PoolRuns.FlushEachCleans | src/storage/buffer_pool/buffer_pool_manager.cpp:132-139 | Flushing a list of pages leaves them clean, changes no content and dirties nothing |
| PoolRuns.FlushAllExact | src/storage/buffer_pool/buffer_pool_manager.cpp:130-142 | Under every behaviour of the device a page's content is on disk after a full flush if and only if it was on disk before the call |
| PoolRuns.FlushAllLosesPage | src/storage/buffer_pool/buffer_pool_manager.cpp:140-141 | A full flush of one dirty page can return with its write in flight, and a new pool over the file reads zeros |
| PoolRuns.FlushAllSurvivesRestart | src/storage/buffer_pool/buffer_pool_manager.cpp:130-142 | If the poll does find all writes landed, a new pool over the file holds everything the old one held |
| PoolRuns.FreshGood | src/storage/buffer_pool/buffer_pool_manager.cpp:7-18 | A fresh pool satisfies the invariant and agrees with the file |
| BufferPool.FetchValid | src/storage/buffer_pool/buffer_pool_manager.cpp:29-88 | Fetch keeps the frame partition (each frame free, evictable or pinned, page table injective), maps the page, and fails exactly on a miss with all frames pinned, changing nothing |
| BufferPool.NewValid | src/storage/buffer_pool/buffer_pool_manager.cpp:144-178 | Unless it gets a frame for the id of a page that stays resident, NewPage keeps the frame partition; it pins its page once, and fails exactly when all frames are pinned, changing nothing |
| BufferPool.NewExact | src/storage/buffer_pool/buffer_pool_manager.cpp:144-178 | When it finds a frame, NewPage keeps the frame partition if and only if, before the call, its id is not resident or is that of the page it is about to evict |
| BufferPool.UnpinValid | src/storage/buffer_pool/buffer_pool_manager.cpp:90-113 | Unpin keeps the frame partition: a frame enters the LRU list once, when its last pin goes |
| BufferPool.FreshValid | src/storage/buffer_pool/buffer_pool_manager.cpp:14-17 | A fresh pool of any size satisfies the frame partition with every frame free |
| BufferPool.TakeFrameFails | src/storage/buffer_pool/buffer_pool_manager.cpp:47-72 | No frame is found if and only if every frame is pinned |
| BufferPool.TakeFrameDetaches | src/storage/buffer_pool/buffer_pool_manager.cpp:47-72 | The frame found is in no list and in no table entry, and the other frames are still partitioned |
| BufferPool.MissLoads | src/storage/buffer_pool/buffer_pool_manager.cpp:74-87 | After a miss the frame holds the disk's bytes for the page, one pin, clean |
| BufferPool.HitKeepsFrames | src/storage/buffer_pool/buffer_pool_manager.cpp:33-45 | A hit adds one pin to its frame and changes no bytes, page id or dirty flag of any frame |
| BufferPool.NewIsClean | src/storage/buffer_pool/buffer_pool_manager.cpp:166-175 | A new page is zero bytes, pinned once and clean, and no other frame changes |
| BufferPool.FetchPins | src/storage/buffer_pool/buffer_pool_manager.cpp:39-42 | A successful fetch adds one pin to its page and none to any other, evictions included |
| BufferPool.NewPins | src/storage/buffer_pool/buffer_pool_manager.cpp:166-175 | The same for NewPage |
| BufferPool.UnpinPins | src/storage/buffer_pool/buffer_pool_manager.cpp:103-110 | An unpin takes one pin from its page and none from any other |
| Disk.LoneWriteLands | src/storage/buffer_pool/buffer_pool_manager.cpp:62-64 | With one write outstanding, every schedule that ends the wait puts exactly that frame's bytes on disk |
| Disk.LandAllCounts | src/storage/disk/disk_manager.cpp:71-88 | Landed writes leave the in-flight list and appear in the completion queue, one for one |
| LruStack.ResidentIsMoveToFront | src/storage/buffer_pool/buffer_pool_manager.cpp:33-67 | After any trace of fetch-then-unpin pairs the resident pages in LRU order are the first min(frames, distinct pages) entries of the trace's move-to-front list |
| LruStack.MoveToFrontExact | src/storage/buffer_pool/buffer_pool_manager.cpp:103-110 | The move-to-front list of a trace holds each distinct page of the trace exactly once and nothing else |
| LruStack.MoreFramesMoreHits | src/storage/buffer_pool/buffer_pool_manager.cpp:103-110 | A page resident with m frames is resident with any larger number after the same trace: no Belady anomaly |
| LruStack.TraceTracks | src/storage/buffer_pool/buffer_pool_manager.cpp:29-113 | The correspondence with the move-to-front list, from any idle pool that already tracks one |
| PoolManager.DiskManager.ReadPage | src/storage/disk/disk_manager.cpp:34-49 | Reads the file's bytes, zeros past its end |
| PoolManager.DiskManager.WritePageAsync | src/storage/disk/disk_manager.cpp:51-69 | Queues a write that points at the frame and changes nothing else |
| PoolManager.DiskManager.AllocatePage | src/storage/disk/disk_manager.h:39-41 | Returns the counter and advances it modulo 2^32, as PageIds.StepCounts needs |
| PoolManager.DiskManager.RetrieveAsyncCompletions | src/storage/disk/disk_manager.cpp:71-88 | Drains the completion queue (Completions.PollDrains) and returns how many completions it held |
| PoolManager.BufferPoolManager.constructor | src/storage/buffer_pool/buffer_pool_manager.cpp:7-18 | Builds the fresh pool, frame i at place i of the free list, valid |
| PoolManager.BufferPoolManager.SpinWait | src/storage/buffer_pool/buffer_pool_manager.cpp:64 | The loop polls until one poll reaps something, and leaves the disk as the recursive specification does |
| PoolManager.BufferPoolManager.FetchPage | src/storage/buffer_pool/buffer_pool_manager.cpp:29-88 | The object moves exactly as the value the theorems are about, and stays valid |
| PoolManager.BufferPoolManager.NewPage | src/storage/buffer_pool/buffer_pool_manager.cpp:144-178 | Moves exactly as the value does, returning the allocated id; stays valid exactly under the condition of NewExact |
| PoolManager.BufferPoolManager.UnpinPage | src/storage/buffer_pool/buffer_pool_manager.cpp:90-113 | Likewise; false exactly for a page that is not resident |
| PoolManager.BufferPoolManager.FlushPage | src/storage/buffer_pool/buffer_pool_manager.cpp:115-128 | Likewise; false exactly for a page that is not resident |
| PoolManager.BufferPoolManager.FlushAllPages | src/storage/buffer_pool/buffer_pool_manager.cpp:130-142 | The loop over the page table in any order flushes each dirty page and then polls once |
| SlottedPage.RunRefines | src/storage/table/slotted_page.cpp:15-100 | Every sequence of inserts, deletes and LSN stamps stays inside the page, and the bytes then represent the row sequence the same operations build abstractly, and its LSN |
| SlottedPage.InsertRefines | src/storage/table/slotted_page.cpp:15-52 | Insert succeeds if and only if 12 + 4(n+1) + all accepted sizes including the new one is at most 8192; it then appends the row and leaves every other row and the LSN unchanged |
| SlottedPage.OverrunExact | src/storage/table/slotted_page.cpp:20-49 | The code writes outside the page exactly for sizes 65532 to 65535 when the wrapped requirement fits |
| SlottedPage.OverrunHappens | src/storage/table/slotted_page.cpp:25-31 | It does so for 65532 bytes on an empty page |
| SlottedPage.PlanExact | src/storage/table/slotted_page.cpp:20-31 | The decision of the 16-bit check for every size, in and out of the wrapping band |
| SlottedPage.TupleReadsBack | src/storage/table/slotted_page.cpp:15-90 | The slot returned by an insert reads back the same bytes after any later run, unless the tuple is empty or that slot was deleted |
| SlottedPage.RowsPersist | src/storage/table/slotted_page.cpp:76-90 | Rows are never removed or changed; a row is hidden exactly when its own slot was deleted, for ever |
| SlottedPage.GetTupleReads | src/storage/table/slotted_page.cpp:54-74 | GetTuple returns the row's bytes if it is live and not empty, nothing for tombstones and for slots past the count |
| SlottedPage.DeleteRefines | src/storage/table/slotted_page.cpp:76-90 | MarkDelete succeeds exactly for existing slots and hides exactly that row |
| SlottedPage.SpaceConserved | src/storage/table/slotted_page.cpp:20-49 | On every page the slot array ends at or before the free pointer, free pointer plus all accepted sizes, deleted ones too, is 8192, and every tuple lies in the range above the free pointer |
| SlottedPage.TuplesDisjoint | src/storage/table/slotted_page.cpp:20-49 | Any two tuple ranges are disjoint, the newer one below the older one |
| SlottedPage.InitRepresents | src/storage/table/slotted_page.cpp:7-13 | Init on any bytes gives the empty page with LSN 0 |
| SlottedPage.SetLSNRepresents | src/storage/table/slotted_page.cpp:92-100 | Stamping an LSN below 2^64 changes the LSN and no row |
| PageObject.SlottedPage.Init | src/storage/table/slotted_page.cpp:7-13 | In place: the buffer ends as the specification's bytes and represents the empty page |
| PageObject.SlottedPage.InsertTuple | src/storage/table/slotted_page.cpp:15-52 | In place: succeeds exactly when the rows fit, leaves exactly the specified bytes, marks the page dirty only on success and returns the new slot |
| PageObject.SlottedPage.GetTuple | src/storage/table/slotted_page.cpp:54-74 | Copies out exactly the bytes the specification reads |
| PageObject.SlottedPage.MarkDelete | src/storage/table/slotted_page.cpp:76-90 | In place: exactly the specified bytes, dirty only on success; it needs only the slot itself to lie in the page |
| PageObject.SlottedPage.GetLSN | src/storage/table/slotted_page.cpp:92-95 | Folds the eight little-endian bytes into the number they stand for |
| PageObject.SlottedPage.SetLSN | src/storage/table/slotted_page.cpp:97-100 | In place: the eight bytes of the number, nothing else |
| EndToEnd.SelectCountsInserts | src/execution/seq_scan_executor.h:28-70 | From an empty table, after any run of INSERT batches totalling m rows of k bytes with arbitrary other page traffic, evictions and log records between them, and with more traffic between the calls of the scan, Next returns true exactly min(m, 8180 / (k+4)) times |
| EndToEnd.LogRebuildsTable | src/execution/insert_executor.h:33-100 | After any run of batches with transactions, other log records (BEGIN, COMMIT, ABORT, inserts into other pages) and other page traffic over the pool, following prev_lsn from the table page's LSN falls at every record and ends at 0, visits exactly its INSERT records, and replaying them on an Init'ed page rebuilds the page byte for byte, whether its last version is in a frame, in flight or on disk |
| EndToEnd.RunFillsTable | src/execution/insert_executor.h:33-100 | After any such run the table's page, wherever it is, holds exactly the first min(m, capacity) rows |
| EndToEnd.RowsAreZeros | src/execution/insert_executor.h:61-63 | Each of these rows reads as k zero bytes |
| EndToEnd.InsertDoes | src/execution/insert_executor.h:33-100 | One INSERT changes the content of the table's page only and leaves every pin count as it was |
| EndToEnd.ScanNextDoes | src/execution/seq_scan_executor.h:28-70 | One Next returns true exactly below the row count, changes no content and leaves every pin count as it was |
| EndToEnd.ScanCounts | src/execution/seq_scan_executor.h:28-70 | Any number of Next calls return true min(calls, rows) times |
| EndToEnd.BatchFills | src/execution/insert_executor.h:68-91 | A batch of m rows on a page with c rows leaves min(c + m, capacity) rows |
| EndToEnd.CapacityExact | src/storage/table/slotted_page.cpp:20-31 | One more row of k bytes fits exactly while the count is below 8180 / (k+4) |
| EndToEnd.TrafficKeepsTable | src/storage/buffer_pool/buffer_pool_manager.cpp:29-178 | Other clients' calls, writes to other pages and the device leave the table's rows alone |
| LsnChain.ChainRebuildsPage | src/execution/insert_executor.h:68-85 | In every run of executor batches over many pages and one log, following prev_lsn from a page's LSN falls at every record and ends at 0, visits exactly that page's INSERT records, and replaying them oldest first on an Init'ed page rebuilds the page byte for byte |
| LsnChain.RunChained | src/execution/insert_executor.h:68-85 | The invariant behind it: every page stays chained through batches, formatting and other records |
| LsnChain.BatchKeepsChain | src/execution/insert_executor.h:68-91 | A batch keeps its page chained and logs nothing but inserts on it |
| LsnChain.InsertRowDoes | src/execution/insert_executor.h:69-85 | One row logs one INSERT whose predecessor is the page's old LSN, stamps the page with its LSN, and the page is what redoing the record gives |
| LsnChain.InsertRowKeepsPage | src/execution/insert_executor.h:69-88 | A row leaves a slotted page; without a transaction it logs nothing and the page keeps its LSN |
| Rids.RidsReadBack | src/execution/insert_executor.h:68-85 | Over every run the record id in an INSERT record reads the record's tuple back from its page, and no two INSERT records have the same id |
| Chains.PageInsertsExact | src/transaction/log_record.h:32-38 | The list of a page's inserts is strictly falling and contains exactly its INSERT records |
| Chains.InsertExtends | src/transaction/log_manager.h:24-41 | Appending an insert that names the page's LSN extends the chain and its replay by one |
| Chains.OtherRecordKeeps | src/transaction/log_manager.h:24-41 | Any other record leaves a page's chain and its replay as they were |
| Executors.InsertExecutor.Next | src/execution/insert_executor.h:33-100 | The executor over the pool, page and transaction objects: opens or creates the page, runs the loop, unpins dirty; pool, log and table end exactly as the specification says, the log buffer never overflows, and it never returns true |
| Executors.InsertExecutor.InsertAll | src/execution/insert_executor.h:68-91 | The loop leaves page and log as the recursive specification does, stopping at the first refused row |
| Executors.InsertExecutor.InsertOne | src/execution/insert_executor.h:69-88 | One row: insert, then log and stamp only with a transaction; a refused row changes nothing |
| Executors.InsertExecutor.LogAndStamp | src/execution/insert_executor.h:72-85 | The record carries the page's old LSN, the page then carries the record's LSN, the log manager has appended the record, and the transactions are in a reachable state again |
| Executors.SeqScanExecutor.constructor | src/execution/seq_scan_executor.h:19-26 | The cursor starts at slot 0 of the table's first page |
| Executors.SeqScanExecutor.Next | src/execution/seq_scan_executor.h:28-70 | Fetches, compares the cursor with the count, unpins clean; true exactly below the count; false and no change for an empty table and when no frame is free; it needs only the slot under the cursor to name bytes in the page |
| Executors.BatchIsInsertStep | src/execution/insert_executor.h:33-100 | What the insert object does to pool, table and log is the INSERT step of the end-to-end theorems |
| Executors.RunsCanFill | src/execution/insert_executor.h:49-59 | Along the runs of the end-to-end theorems the page the insert object opens is a slotted page, so its precondition holds |
| Executors.NextIsScanStep | src/execution/seq_scan_executor.h:28-70 | What the scan object does is the scan step of the end-to-end theorem, and on a slotted page it can always look at its slot |
| Memo.RunSound | src/sql/planner/memo.h:83-98 | In every memo built by inserting expressions over existing groups or rule outputs into their source's group, for every hash function: the group graph is acyclic, each expression is stored once, and all expressions of a group mean the same under every semantics where binary join commutes and hash join equals logical join |
| Memo.ReachablePlansAgree | src/sql/planner/memo.h:50-71 | Any two complete plans taken from one group of such a memo mean the same |
| Memo.PlansAgree | src/sql/planner/memo.h:50-71 | A plan chosen freely from a group's alternatives at every level means what the group means |
| Memo.RulePreservesMeaning | src/sql/planner/rule.h:31-71 | Every output of join commutativity and of the hash-join rule means what its input means |
| MemoRules.MirrorOffered | src/sql/planner/rule.h:31-46 | After both rules on a stored join whose sides offer p and q, with no hash in the way, its group offers the join of q and p |
| MemoRules.HashJoinOffered | src/sql/planner/rule.h:59-71 | And the hash join of p and q |
| MemoRules.ApplyExact | src/sql/planner/memo.h:83-98 | The expression a rule yields ends up in its source's group if and only if its hash is new or already stands for it in that group: groups are never merged |
| MemoRules.JoinsStayApart | src/sql/planner/memo.h:50-59 | When join(1, 2) and join(2, 1) were added on their own, each has its own group, and commuting one does not bring the other over |
| MemoRules.CommutesBack | src/sql/planner/rule.h:40-45 | Commuting a join twice gives it back, and commuting changes it unless both sides are the same group |
| MemoRules.PlanStays | src/sql/planner/memo.h:57-59 | A plan a group offers stays on offer |
| MemoRules.ComputedHashOffersPlans | src/sql/planner/memo.h:36-42 | With the computed hash, a run from the empty memo that adds a scan, a filter over it and their join, then both rules, leads to a memo that offers the mirrored join and the hash join |
| MemoRules.ChildlessHashes | src/sql/planner/memo.h:36-42 | Expressions without children hash to 0 to 7 in the order of the operators |
| MemoRules.OperatorsApart | src/sql/planner/memo.h:36-42 | Over the same single child different operators never share a hash |
| Memo.InsertFindsExact | src/sql/planner/memo.h:83-98 | The returned group holds the expression if and only if no different expression with its hash was stored |
| Memo.InsertReturnsMeaning | src/sql/planner/memo.h:83-98 | Without such a collision the returned group means what the expression means |
| Memo.InsertValid | src/sql/planner/memo.h:83-98 | Insertion keeps index and groups in agreement, expressions unique and the graph acyclic |
| Memo.InsertSound | src/sql/planner/memo.h:88-97 | Inserting an expression into a group of its meaning keeps all groups sound, also when the hash collides |
| Memo.StoredOnce | src/sql/planner/memo.h:73-77 | An (operator, children) pair sits in one place only |
| Memo.JoinsCollide | src/sql/planner/memo.h:36-42 | The hash of join(1, 66) equals that of join(2, 1) |
| Memo.JoinCollisionMisplaces | src/sql/planner/memo.h:84-86 | In any valid memo that stores join(1, 66), inserting join(2, 1) changes nothing and returns a group that does not hold it |
| MemoCollision.RunMisplaces | src/sql/planner/memo.h:83-98 | From the empty memo, adding a scan, seven filters on top of each other and aggregation(3, 8), aggregation(8, 4) is then answered with a group that does not hold it |
| Memo.CollisionMisplaces | src/sql/planner/memo.h:84-86 | The same for any two different expressions of one hash |
| Memo.ComputeHash | src/sql/planner/memo.h:36-42 | The loop computes the 64-bit fold whose values MemoRules and MemoCollision pin |
| Memo.MemoTable.InsertExpression | src/sql/planner/memo.h:83-98 | In place: groups and index end as specified, and the returned group holds the expression exactly without a collision |
| Transactions.LogIsConsistent | src/transaction/transaction_manager.h:21-69 | In every run no transaction has both COMMIT and ABORT, its state matches its record, its only BEGIN precedes all its other records, and its write set is strictly rising and holds exactly the LSNs of its BEGIN and INSERT records |
| Transactions.ChangesExact | src/transaction/transaction.h:47-50 | The list the write set is compared with is strictly rising and complete |
| Transactions.RunSafe | src/transaction/transaction_manager.h:39-69 | The invariant over runs, and a terminal state is never left |
| Transactions.StepSafe | src/transaction/transaction_manager.h:21-69 | The single-step form |
| Log.CommitHandsOver | src/transaction/log_manager.h:24-60 | In every history, the flush of a COMMIT hands over exactly the records since the previous COMMIT, its own included, numbered by their places in the log, if and only if they total at most 16384 bytes; only these records must each fit a buffer |
| LogBound.RunStaysBounded | src/transaction/log_manager.h:24-60 | Over every run of executor batches and control records, with no condition on sizes: the buffer offset never exceeds 16384 at any point of the log, LSNs count the records, and every COMMIT hands over exactly the records since the previous one if and only if they total at most 16384 bytes |
| LogBound.BatchKeepsSmall | src/execution/insert_executor.h:68-91 | Every record a batch leaves fits a log buffer, since a page accepted its tuple |
| LogBound.CommitLosesRecords | src/transaction/log_manager.h:29-32 | A transaction that inserts 8176 bytes into each of two pages has only the last two of its four records handed over at its commit |
| Transactions.WalFollowsLog | src/transaction/transaction_manager.h:21-69 | In every reachable state the log manager is where appending the records so far, with a flush after each COMMIT, takes it |
| Transactions.ReachableExact | src/transaction/transaction_manager.h:21-69 | The reachable states, which every transaction manager object is in, are exactly those in which some run from the start ends |
| Transactions.CountersCountActive | src/transaction/epoch_manager.h:23-35 | In every run without a repeated finish, with Begin split so that the epoch may advance between its load and its increment, each of the 1024 counters counts the active transactions of its bucket and together they count all of them |
| Transactions.CounterExact | src/transaction/transaction.h:31-45 | In any run a counter is at most the number of active transactions of its bucket, with equality if and only if none of the bucket finished twice |
| Transactions.DoubleCommitGoesNegative | src/transaction/transaction_manager.h:39-55 | Begin, Commit, Commit leaves a counter at -1 |
| Transactions.RunConserves | src/transaction/epoch_manager.h:23-35 | The conservation law over runs, repeated finishes included |
| Transactions.StepConserves | src/transaction/transaction_manager.h:21-69 | The single-step form |
| Transactions.RunScans | src/transaction/epoch_manager.h:37-45 | Over every run without a repeated finish, as long as no active transaction is 1024 epochs old, the scan returns the greatest active epoch, or the current one if none; that is the oldest if and only if all active transactions share one epoch |
| Transactions.ScanExact | src/transaction/epoch_manager.h:37-45 | The same for any state that satisfies the invariants |
| Transactions.ScanMissesOldest | src/transaction/epoch_manager.h:37-45 | With transactions in epochs 1 and 2 the scan returns 2 |
| Transactions.RaisedIffActive | src/transaction/epoch_manager.h:37-45 | Within the window a counter is positive exactly when some transaction is in that very epoch |
| TransactionManager.ObjectMatchesLog | src/transaction/transaction.h:31-50 | In every state of the manager object a transaction's write set is exactly the LSNs of its BEGIN and INSERT records, its state is terminal exactly as its COMMIT or ABORT record says, and the log manager is where the records have taken it |
| TransactionManager.TransactionManager.AdvanceEpoch | src/transaction/epoch_manager.h:33-35 | A tick moves the global epoch by one and is the machine's Advance step |
| TransactionManager.EpochManager.EnterEpoch | src/transaction/epoch_manager.h:23-27 | Returns the current epoch and raises its bucket only |
| TransactionManager.EpochManager.ExitEpoch | src/transaction/epoch_manager.h:29-31 | Lowers the bucket of the epoch only |
| TransactionManager.EpochManager.GetOldestActiveEpoch | src/transaction/epoch_manager.h:37-45 | The loop ends; the result is a raised epoch with none raised above it, or the current epoch if none is raised |
| TransactionManager.Transaction.EnterReadEpoch | src/transaction/transaction.h:25-28 | Takes the current epoch, keeps state and write set |
| TransactionManager.Transaction.End | src/transaction/transaction.h:31-45 | Sets the terminal state and leaves the epoch if one was entered |
| TransactionManager.TransactionManager.constructor | src/transaction/transaction_manager.h:18 | Starts in the initial, reachable state over an empty log |
| TransactionManager.TransactionManager.Begin | src/transaction/transaction_manager.h:21-36 | An undisturbed Begin is the three steps of the machine; its BEGIN record reaches the log and its write set |
| TransactionManager.TransactionManager.Commit | src/transaction/transaction_manager.h:39-55 | Is the machine's Commit: nothing for an aborted transaction, otherwise a COMMIT record, a flush, and the epoch left |
| TransactionManager.TransactionManager.Abort | src/transaction/transaction_manager.h:58-69 | Is the machine's Abort: nothing for a committed transaction, otherwise an ABORT record without a flush, and the epoch left |
| TransactionManager.TransactionManager.RecordInsert | src/execution/insert_executor.h:72-84 | Is the machine's Insert: one INSERT record, its LSN in the write set |
| Log.OffsetExact | src/transaction/log_manager.h:24-60 | Under appends and flushes in any order the buffer offset stays within 16384 if and only if no record is larger than that |
| Log.AcceptedTupleIsSmall | src/transaction/log_record.h:32-40 | A tuple a page accepts gives a record of at most 8204 bytes |
| Log.HandOverExact | src/transaction/log_manager.h:24-60 | A flush hands over exactly the records since the last flush in consecutive LSN order if and only if they total at most 16384 bytes |
| Log.CommitIsHandedOver | src/transaction/transaction_manager.h:39-55 | The committer's own record is always the last one its flush hands over |
| Log.NothingLost | src/transaction/log_manager.h:24-60 | Over every run of appends and flushes the batches handed over at overflows and flushes, followed by the buffer, are all records appended, numbered in order: none lost between the buffers, none twice |
| Log.StepMeasured | src/transaction/log_manager.h:24-60 | The offset is always the bytes of the buffer; an overflow hands over the whole buffer with its size in bytes, a flush the whole buffer with the size cleared, any other append nothing |
| Log.TwoInsertsFit | src/transaction/log_record.h:26-40 | A transaction with two inserts has all four records handed over at its commit if and only if its tuples total at most 16288 bytes |
| Log.LogManager.AppendLogRecord | src/transaction/log_manager.h:24-41 | Swaps buffers first if the record does not fit (Log.StepMeasured), appends, numbers consecutively, keeps the bound |
| Log.LogManager.FlushLog | src/transaction/log_manager.h:44-53 | Moves the buffer to the flush side and empties it, keeps the bound |
| Arena.RunSafe | src/common/memory/arena_allocator.h:27-38 | Over every run of allocations all blocks are pairwise disjoint, inside one chunk each, and above everything handed out before |
| Arena.RunAligned | src/common/memory/arena_allocator.h:28-35 | Every block is aligned if its alignment divides the base of a newly taken chunk |
| Arena.AllocateExact | src/common/memory/arena_allocator.h:27-38 | A block lies inside its chunk if and only if its size is at most the chunk size, and is aligned if and only if it fits the current chunk or the new base is aligned |
| Arena.AllocateFirstFit | src/common/memory/arena_allocator.h:27-38 | A request stays in the current chunk if and only if some aligned address from the first unused byte on leaves room for it, and gets the least one; otherwise it gets the start of a new chunk |
| Arena.SpaceBound | src/common/memory/arena_allocator.h:27-54 | For chunk size C, alignments at most A and k chunks: (k-1)(C-A+2) is at most twice the bytes consumed, padding included |
| Arena.RunKeepsPairs | src/common/memory/arena_allocator.h:30-33 | Two neighbouring chunks together always hold at least C-A+2 bytes |
| Arena.ResetValid | src/common/memory/arena_allocator.h:41-48 | Reset re-establishes the invariant with the first chunk alone, empty |
| Arena.ArenaAllocator.AllocateBytes | src/common/memory/arena_allocator.h:27-38 | In place: the address and the new state are those of the specification, and the arena stays valid exactly for sizes up to the chunk size |
| Arena.ArenaAllocator.ResetAll | src/common/memory/arena_allocator.h:41-48 | In place: keeps the first chunk and drops the others |
| NullMask.ReadsLastWrite | src/execution/vector.h:65-79 | After any sequence of SetNull calls IsNull returns the last value set at that index, or the initial one |
| NullMask.SetNullIsLocal | src/execution/vector.h:65-73 | SetNull changes its own bit and no other, in the same word or elsewhere |
| NullMask.MaskLayout | src/execution/vector.h:62-79 | Index i is the bit of value 2^(i mod 64) of word i / 64 |
| NullMask.SetBitIsLocal | src/execution/vector.h:67-72 | Within a 64-bit word, setting or clearing a bit by or/and-not changes that bit only |
| NullMask.CapacityCovers | src/execution/vector.h:52-53 | Every index below the capacity falls in an allocated word |
| NullMask.NullBitmap.constructor | src/execution/vector.h:45-54 | All indices below the capacity are in range and not null |
| NullMask.NullBitmap.Set | src/execution/vector.h:65-73 | In place: the words end as specified, no index out of range |
| NullMask.NullBitmap.Get | src/execution/vector.h:75-79 | Reads the bit, no index out of range |

## Left out

- B+Tree search and insert: the descent and leaf steps are stubs in the source.
- Lexer, parser, optimizer driver: declarations only.
- Network, catalog, schema, binder, TupleBatch columns: only easy facts; the tuple length is a parameter.
- FilterExecutor and SIMD loads: the filter body is commented out.
- `DeletePage`: a stub that returns false.
- System calls, `O_DIRECT`, io_uring errors and a full submission queue: the disk is a total map with an in-flight list and no failures.
- Memory orders and races on page bytes outside the latch: a public call is one atomic step; a landing write reads the whole frame at one moment, so torn writes are not modelled.
- Pointer aliasing between `Page*` and the pool: frames are values in the pool's array, and the executors work on a copy of the page's bytes that they store back before the unpin.
- The bytes of log records: the source does not copy them yet, so a buffer is a list of records with its byte offset.
- Durability when the log overflows between flushes and the write-ahead rule on eviction: the source does not enforce them.
- Widths of pin counts, epoch counters, epochs and transaction ids: unbounded here. Page ids wrap at 2^32 and slot arithmetic at 2^16 as in the code; LSNs are kept below 2^64 by precondition.
- Removal of finished transactions from the transaction map: the source never removes any.
- `GroupExpression` as a shared object: the group id it carries is kept in the memo's index instead.
- Memo.ComputeHash: takes `std::hash` of an integer to be the integer, as common library implementations do; the other memo theorems hold for every hash function.
- Executors.InsertExecutor.Next: requires that a frame is available, since the source dereferences the result unchecked, and excludes tuple lengths 65532 to 65535, where the source writes outside the page.
- EndToEnd.SelectCountsInserts: excludes tuple lengths 65532 to 65535 for the same reason; every other length is covered, also those that never fit.
- PoolRuns.NewKeepsContent: requires that the new id is free and nothing is stored under it, since ids restart at 0 and the source does not check; BufferPool.NewExact and PoolRuns.NewContentExact give both conditions exactly.
- PoolRuns.EveryRunPartitioned: excludes a NewPage under the id of a page that stays resident, which breaks the partition (PoolRuns.StepPartitionedExact, PoolRuns.NewPageDoublesResident).
- EndToEnd.LogRebuildsTable: requires the id of the table's new page to be fresh for the log too, that is, named by no INSERT record yet.
- PoolManager.BufferPoolManager.UnpinPage: requires a positive pin count for a resident page, as the source asserts.
- Arena.ArenaAllocator.AllocateBytes: requires new chunks not to overlap old ones, as the system allocator promises.
- Traffic inside a batch: one INSERT call is one step, so other clients act between calls and not between its rows.
