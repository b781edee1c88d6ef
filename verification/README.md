# ParFS in Dafny

A verified model of the core of ParFS, a log-structured file system for persistent memory
(a NOVA descendant) whose data copies are delegated to per-socket agent threads.  The model
covers the delegation queues, the inode log with its page index, garbage collection and
recovery, copy-on-write, the block and inode allocators, the journal, snapshots and directories.

`dafny verify dfyconfig.toml` checks the project.

## Files

| file | what it models |
|---|---|
| `CombiningQueue.dfy` | the MCS-style request list of a ring buffer, as a step machine |
| `RingBuffer.dfy` | the variable-size ring buffer with tombstones and lazy reaping, as a step machine |
| `Delegation.dfy` | callers, rings and agents of the delegation, as a step machine |
| `FileLog.dfy`, `FileBooks.dfy`, `FileIndex.dfy` | entries of a file's log and their replay; the accounts of pages, blocks and counters; the in-memory header and its operations |
| `CowWrite.dfy` | the bytes that a copy-on-write write leaves in the file |
| `LogPages.dfy`, `LogGC.dfy` | the log as a chain of 4KB pages with its page counters; thorough and fast garbage collection |
| `FileThinning.dfy`, `LogLife.dfy` | a file's accounts after dead entries are dropped; header, pages and slots of one file together, through operations, collections and recovery |
| `RangeList.dfy`, `BlockAllocator.dfy`, `BlockmapRebuild.dfy`, `InodeNumbers.dfy` | sorted range lists; block free lists; free lists rebuilt after a crash; inode numbers |
| `CsumSlots.dfy` | where the checksums of data blocks are |
| `Journal.dfy` | the undo journal on persistent memory that a crash may leave in any allowed state |
| `Snapshots.dfy` | snapshot lists, their cleaner, and what they keep from being freed |
| `Directory.dfy` | directory logs, the hash tree over them and their replay |
| `Common.dfy`, `Epochs.dfy` | an option type, ranges of blocks, and when a snapshot sees an item |

Code that works on shared words from several threads is a step machine: every shared load and
store is one atomic step, and a theorem quantifies over every interleaving.  Objects that the
source updates in place are classes whose methods state the whole new state.  Fields and
parameters marked as history (`ghost`, or named so in a comment) are read by no step.

## Properties that fail, and exactly when

- **Ring buffer.** A put combiner that loads `tail` for the plain reaper while a get combiner is
  between marking an already reaped tombstone and storing `tail` may walk over `head`.
  `RingBuffer.CalmIsExact`: such a load is safe, whatever the other threads do, if and only if what
  lies at `head` does not look done, or a header between `tail2` and `head` is where `tail` points.
  `RingBuffer.StaleTailBreaksTheRing` is such a run in a 4096-byte ring: it ends with an empty
  buffer whose free space is 128 bytes short.
  A put into an empty buffer: `RingBuffer.GivenBackBufferServes`.  Once every element has been given back, a put
  succeeds if and only if the element fits in the empty buffer and, if it would run over the end of the
  buffer, twice its length does, as its tombstone is as long as itself; `RingBuffer.EmptyBufferRefuses` is an
  empty ring of 4096 bytes that refuses a request for 4000.
- **Journal.** Recovery stores the undone words and then the tail without a fence in between.
  `Journal.ClwbMayLoseTheUndo`: on a processor with clwb a second crash may lose the undo if and
  only if some word differs from its journaled value.  With clflush recovery is safe.
  `Journal.UndoneExactly` and `Journal.CapturedExactly`: an operation is undone, whatever part of it a crash
  has found, if and only if it is neither a rename that stores a new log_head with the copy of an inode nor
  the removal of a directory entry in place, which also counts the entry in its page;
  `Journal.NotCaptured` gives one of each kind.
  `Journal.RenameLeavesTheTargetValid`: a rename that takes the last name from its target marks the target's
  inode as invalid and then stores the older copy over it, so the mark is always lost.
- **Snapshots.** Between the step that ends the epoch and the one that inserts the new snapshot, others
  go on.  `Snapshots.SnapshotTable.InsertSnapshot`: the table is right afterwards if and only if no item
  was replaced in between that the new snapshot sees and no older one could see;
  `Snapshots.SnapshotLosesItsItem` is a run that ends with an item freed that a snapshot sees.
  `Snapshots.SnapshotTable.DeleteSnapshot`: the snapshot that the cleaner is to clean is gone when it
  comes if and only if it was the last one and is deleted; `Snapshots.CleanerLosesItsSnapshot` is a run.
- **Block allocator.** `BlockAllocator.SuperpageGets`: a superpage allocation gets from a range what is
  wanted, or all 2MB pages in it, if and only if the range does not begin with a 2MB page that is needed;
  otherwise it gets one page less, and `BlockAllocator.RefusedExactly` says which ranges it refuses.
  `BlockAllocator.FreeList.AllocBlocksInFreeList`: the list stays right if and only if the first range in
  which a superpage fits does not have, above it, a positive multiple of 2^32 blocks (`Loses`);
  `BlockAllocator.ForgetsBlocks` is a list that loses 2^32 blocks.
- **Garbage collection.** `LogLife.ThoroughAndRuns`: after a thorough collection the addresses in the list
  of superseded runs are good if and only if every run is one of an entry on the tail page;
  `LogLife.RunLosesItsEntry` is a file whose list then leads to a freed page.
- **Directories.** `Directory.Dir.RemoveDentry`: removing a name keeps the tree right if and only if the
  tree does not hold its hash for another name; `Directory.CollisionLosesAName` does it with two names.
- **Delegation.** A caller passes a socket if and only if it issued fewer than 2^31 requests there
  (`Delegation.QuietMeansPassed`); `Delegation.SomeoneWaitsForEver` is a run to a caller that never does.
- **Checksum slots.** The reserved blocks suffice for every device with at least 128 metadata
  blocks; whenever they do not, the last checksum of the first share lies outside them
  (`CsumSlots.EnoughBlocks`, `CsumSlots.NotEnoughIsTooLittle`, `CsumSlots.SmallMetadataIsTooSmall`).

## Model

| member | source | states |
|---|---|---|
| CombiningQueue.EveryRunIsSafe | solros_lib/solros_ring_buffer.c:1098-1258 | after every schedule: at most one combiner; requests executed in the order of the tail swaps, none twice; at most 128 by one thread, and exactly 128 by one that hands its role over; nobody returns before its request was executed; no step touches a request whose DONE flag is set |
| CombiningQueue.EveryCallerReturns | solros_lib/solros_ring_buffer.c:1112-1258 | from every reachable state, once no request arrives: under every scheduler only a bounded number of moving steps is left, and when none is left every caller has returned, every request has been executed in order, and the list is empty |
| CombiningQueue.SomeoneMoves | solros_lib/solros_ring_buffer.c:1166-1258 | while some thread has not returned some thread can move: no request is lost across the hand-over or the failed compare-and-swap |
| CombiningQueue.QuietMeansServed | solros_lib/solros_ring_buffer.c:1098-1258 | in a state that satisfies the invariant and in which nobody can move, everybody has returned and every request is executed |
| CombiningQueue.RunKeepsInv | solros_lib/solros_ring_buffer.c:1098-1258 | every step of every thread keeps the list invariant |
| CombiningQueue.MovesLessWork | solros_lib/solros_ring_buffer.c:1166-1258 | every moving step makes an explicit measure smaller |
| RingBuffer.EveryCalmRunIsSafe | solros_lib/solros_ring_buffer.c:667-846 | in every run in which each load of tail for the plain reaper is calm: gets return the elements in put order, each once and not before READY; elements in use share no byte; only tombstones reach the buffer end; a given-back element owns no tombstone; head meets tail2 exactly when all is reaped; the free space is exact |
| RingBuffer.CalmIsExact | solros_lib/solros_ring_buffer.c:667-726 | in every state that a calm run reaches and in which the plain reaper is about to load tail: calm if and only if no continuation up to the next such load breaks a promise; the promise that breaks first is that a reaper never takes what lies at head for an element (stated at lines 756-758) |
| RingBuffer.StaleTailBreaksTheRing | solros_lib/solros_ring_buffer.c:667-726 | the run that is not calm, in a 4096-byte ring with first offset 120 and any first contents: it ends with an empty ring, tail2 away from head, and 128 bytes of free space gone |
| RingBuffer.RunKeepsInv | solros_lib/solros_ring_buffer.c:948-1096 | the ring invariant after every calm run of puts, gets, reaps, set_ready, set_done and data writes |
| RingBuffer.SetDoneMeetsNoOwner | solros_lib/solros_ring_buffer.c:1409-1447 | set_done never meets TOMBSTONE_OWNER and changes only its own header |
| RingBuffer.TakeReturnsNext | solros_lib/solros_ring_buffer.c:1032-1096 | a get takes the next element in put order, which is READY |
| RingBuffer.PutIsRefusedExactly | solros_lib/solros_ring_buffer.c:948-966 | in every state of a calm run in which a put has run its reapers: it ends without an element, and changes nothing, if and only if what lies from tail2 to head, a header and a byte leave too little room |
| RingBuffer.PutAppends | solros_lib/solros_ring_buffer.c:968-1018 | otherwise an element of this length, size and ownership is appended at head, or a tombstone if it would run over the end, after which the put begins again as its owner |
| RingBuffer.GetIsRefusedExactly | solros_lib/solros_ring_buffer.c:1032-1096 | in every state of a calm run: a get that begins finds the buffer empty exactly if every element was taken; one that looks at tail ends exactly if the element there is not filled, and goes on with what is there |
| RingBuffer.GivenBackBufferServes | solros_lib/solros_ring_buffer.c:855-883 | after every calm run that has come to rest with all elements given back: a put on its own ends, both reapers having reaped everything, and succeeds if and only if the request fits, with room for its tombstone if it wraps |
| RingBuffer.EmptyBufferRefuses | solros_lib/solros_ring_buffer.c:948-1018 | an empty ring in which a request that fits is refused |
| RingBuffer.LiveElementsAreApart | solros_lib/solros_ring_buffer.c:948-1018 | two elements not yet given back share no byte |
| RingBuffer.FreeSpaceIsExact | solros_lib/solros_ring_buffer.c:823-846 | the free space is the size less what lies between tail2 and head, less header and one byte; the 64-bit subtraction never wraps |
| RingBuffer.CasTailKeeps | solros_lib/solros_ring_buffer.c:790-812 | the compare-and-swap moves tail over a marked tombstone or not at all, and keeps ring and get |
| RingBuffer.AdvanceKeeps | solros_lib/solros_ring_buffer.c:684-714 | a reaping loop that may go on stays on dead elements and within its bound |
| RingBuffer.StoreHeadKeeps | solros_lib/solros_ring_buffer.c:948-1018 | publishing a new element, or a tombstone, keeps the ring |
| Delegation.EveryRunIsSafe | delegation.c:174-228 | in every run, for each caller and socket: issued = completed + queued + in service + being sent, and the last is 0 once the caller waits; no copy is performed twice; once a caller has passed a socket or returned each of its copies there is performed exactly once |
| Delegation.FirstInFirstOut | agent.c:316-431 | in every run: what has been put on a ring is what its agent has taken, in this order, and then what is in the ring |
| Delegation.CopiedOnItsSocket | delegation.c:168-200 | in every run: a request on a ring or in service is one for the socket of the ring |
| Delegation.EveryCallerReturns | delegation.c:174-228 | from every state that a run reaches, if every socket has a ring: once no request is issued, every schedule of steps that change something is bounded, and when it cannot be continued every copy has been performed exactly once and every caller has returned, but for those waiting on a socket on which they issued 2^31 requests or more |
| Delegation.SomeoneWaitsForEver | delegation.c:208-228 | a run of 2^31 requests after which all are done, nothing can move and the caller has not returned |
| Delegation.QuietMeansPassed | delegation.c:208-228 | with nothing queued or in service a waiting caller passes its socket if and only if it issued fewer than 2^31 requests there (the counter is a signed 32-bit one) |
| Delegation.SomeAgentMoves | agent.c:316-431 | while a request is queued or in service its ring's agent can go on |
| Delegation.AgentsFinish | agent.c:316-431 | every agent step lowers the work that is left by one |
| FileLog.SkipIsHarmless | rebuild.c:428-573 | skipping entries whose pages are all invalid changes what replay finds only where such an entry was the last |
| FileLog.LastAfterRewrite | log.c:650-671 | which entry replay finds for a page after an attribute entry was overwritten |
| FileBooks.TakeKeeps | log.c:904-976 | superseding one page keeps all accounts: counters, runs, ownership of blocks |
| FileBooks.DiscardKeeps | log.c:132-181 | giving back a superseded run keeps the accounts; its blocks are in use and not parked, so nothing is given back twice |
| FileBooks.IndexedAndInvalidFit | log.c:21-76 | indexed pages + invalid_pages <= num_pages for every entry, and the entry is counted in its log page exactly when all are invalid |
| FileBooks.DeadHasNoSlot | gc.c:20-102 | a counted entry has no slot in the index |
| FileBooks.SlotsHaveTheirOwnBlocks | log.c:904-976 | distinct indexed pages have distinct blocks, and these are allocated |
| FileBooks.UsedMeansIndexed | inode.c:284-356 | with nothing pending, the allocated blocks are exactly the indexed ones and those parked for snapshots |
| FileBooks.ReplayFindsIndex | rebuild.c:428-573 | replay, with its skipping, finds the index page by page |
| FileIndex.RunGoesOn | log.c:904-976 | a run of superseded pages of one entry that goes on has no hole |
| FileIndex.OverwriteIsHarmless | log.c:650-671 | overwriting the last attribute entry in place leaves what replay finds unchanged |
| FileIndex.InvalidIsHarmless | log.c:584-611 | invalidating a non-resizing attribute entry leaves what replay finds unchanged although replay ignores the flag |
| FileIndex.CutAgrees | inode.c:1302-1358 | after truncation index and log agree again |
| FileIndex.Header.AssignWriteEntry | log.c:904-976 | exactly the pages of the entry change hands; what waited before is freed, and exactly the blocks of the pages taken over wait now; invalid_pages, size and parked blocks stay; the accounts hold |
| FileIndex.Header.DeleteFileTree | inode.c:284-356 | exactly the pages from start on leave the index; by a truncation a block of theirs is kept if and only if a live snapshot sees it and is free otherwise, nothing else joins the kept ones, and each entry counts just the pages it lost unless a snapshot sees them; when replay calls it the log is untouched |
| FileIndex.Header.TruncateFileBlocks | inode.c:401-435 | exactly the pages behind the new end are cut, also on the early return; their blocks are kept or freed, and counted, as for DeleteFileTree |
| FileIndex.Header.HandleSetattr | log.c:673-722 | whether it overwrites, appends or appends and invalidates: the log is exactly the one stated, and says what the truncated index will be |
| FileIndex.Header.NotifyChange | inode.c:1302-1358 | for every valid file and size: the file stays valid, has the new size, and lost exactly the pages behind it; in terms of the old index, log and live snapshots: which of their blocks are kept, that the others are free, and what each entry counts as invalid; the attributes are logged with this size and epoch |
| FileIndex.Header.AppendFileWriteEntry | log.c:1004-1032 | an appended write entry covers exactly its pages in the index; the blocks in use are those before, its own, less those that waited, and the blocks of the pages it took over wait now |
| FileIndex.Header.ChangeLinks | log.c:725-860 | whether it overwrites the last entry of the epoch, appends, or appends and invalidates: the file stays valid, and the log is as stated |
| FileIndex.Header.Evict | inode.c:910-979 | every block goes back except those kept for snapshots |
| FileIndex.Rebuild | rebuild.c:428-573 | the loop computes, for every log, the page-wise definition of replay |
| FileIndex.RebuildFindsIndex | rebuild.c:428-573 | for every valid file the index rebuilt from its log is its index |
| CowWrite.CowFileWrite | file.c:731-1168 | for every position, length and sequence of grants: it succeeds if and only if grants that are usable at their turns bring all pages, and otherwise stops at the first that is not; the entries logged and the blocks in use are those of the grants used; on success every page holds its old content (zeros for a hole) overlaid with the user's bytes, the size is right and the file valid; on failure this holds of the pages written so far |
| CowWrite.GrantsDecide | file.c:877-900 | where a write ends, and whether it succeeds, is a function of the grants and of the file before it |
| CowWrite.WriteChunk | file.c:877-1098 | one turn of the loop: exactly its pages get the new content, its entry is logged, the blocks that waited are freed and those of its pages wait, and the file stays consistent |
| CowWrite.FillChunk | dax.c:122-259 | fresh blocks get user bytes with old head and tail bytes around them |
| CowWrite.HandleHeadTailBlocks | dax.c:122-259 | the partial first and last page are completed from old content or zeros, also when they are the same page |
| LogPages.LogArea.AppendLogEntry | log.c:412-483 | the log reads back as before with the entry behind it, at the stated place; it fails if and only if the log is full and no page is granted, and then nothing is appended; exactly its page counts it; the page counters stay right; other pages are left alone |
| LogPages.LogArea.GetAppendHead | log.c:1540-1604 | a place behind the last entry, on its page or on the next, where the entry fits; pages are linked if and only if the log is full, and it fails if and only if none is granted then; no counter changes |
| LogPages.LogArea.ExtendInodeLog | log.c:1406-1504 | the granted pages, linked in order, follow the page; fails only if none is granted |
| LogPages.LogArea.InvalidateReassign | log.c:21-76 | exactly one entry changes, its page counts it if it is dead now, and no page counter exceeds its dead entries |
| LogPages.LogArea.StoreChanges | log.c:21-76 | any changes of entries that were not dead are stored in place; invalid_entries of each page grows by exactly the number of its entries that are dead now and were not; log and counters stay right |
| LogPages.LogArea.AppendAfterCrash | log.c:1540-1604 | after a crash that loses an uncommitted suffix, appending at the committed tail gives a good log over the remains, and fails if and only if these are full and no page is granted |
| LogPages.LogArea.Walk | nova.h:832-861 | a reader's walk from head to the committed tail meets exactly the committed entries in order |
| LogPages.StoreKeeps | log.c:412-483 | storing an entry at the end keeps every earlier one readable |
| LogPages.EqualMeansDead | gc.c:104-139 | a page whose two counters are equal holds dead entries only, although the flag byte at offset 4064 may spoil invalid_entries |
| LogPages.PrefixKeepsCounters | log.c:412-483 | what a crash leaves of a log still has right counters if none of the lost entries was dead |
| LogGC.Collector.ThoroughGC | gc.c:305-444 | if pages are granted: the live entries in order on new pages, then the tail page as it was; index slots follow their entries; counters right; the old pages are freed |
| LogGC.Collector.FastGC | gc.c:590-750 | exactly the pages before the tail page whose counters are equal leave the chain and are freed, the others stay in order; these had no live entry, as the counters are right: the live entries in order, index slots and counters stay |
| LogGC.DropKeepsLast | gc.c:20-102 | dropping dead entries changes for no page the entry that replay finds, if that is a live one |
| LogGC.CollectAndRecover | gc.c:305-750 | for every valid file, thorough or fast collection and then recovery from the new log give the index that the file had; a fast one has dropped exactly the pages with equal counters, a thorough one exactly the dead entries before the tail page, with their pages |
| LogGC.ValidFile | gc.c:20-102 | a valid file satisfies what both collections ask of it |
| LogGC.MarksAreDead | log.c:21-76 | a file counts on each page exactly its dead entries |
| LogGC.InvalidateMeetsLive | log.c:108-130 | an entry that is counted was not dead before, so it is counted once |
| FileThinning.DropKeepsSound | gc.c:20-102 | dropping dead entries from the log keeps a header valid: index, superseded runs, block ownership, counters and last attribute entry, all at their new places |
| FileThinning.ThinningKeepsSound | gc.c:305-750 | so does any sequence of such drops; size, blocks in use and parked blocks stay |
| LogLife.CollectKeepsFile | gc.c:305-750 | a whole file (valid header, log on pages, right counters and slots) is whole again after a thorough or fast collection, with the same size and blocks, its index leads to the same entries, and the log is what the collection leaves of it |
| LogLife.WriteFile | log.c:1004-1032 | a write keeps the file whole, header and pages together; exactly its pages change hands, its entry is logged, and the blocks in use and waiting are as stated |
| LogLife.ChangeFile | inode.c:1302-1358 | so does a change of attributes; exactly the pages behind the new size are cut, and their blocks are kept or freed as the live snapshots say |
| LogLife.LinkFile | log.c:725-860 | so does a change of the number of links, which changes nothing but the log |
| LogLife.Life | rebuild.c:428-573 | from every whole file, any list of writes, attribute and link changes leads to a whole file through states each of which follows from the one before as its operation says, and recovery from its pages finds its index |
| LogLife.ThoroughAndRuns | gc.c:305-444 | after a thorough collection the addresses of the superseded runs lead to their entries if and only if all of these are on the tail page |
| LogLife.RunLosesItsEntry | log.c:862-902 | a file written twice whose list of superseded runs leads to a freed page after a thorough collection |
| BlockAllocator.FreeList.FreeBlocks | balloc.c:413-541 | exactly the freed blocks join the list, merged with neighbours; a range whose first block is free is refused |
| BlockAllocator.FreeList.AllocBlocksInFreeList | balloc.c:791-931 | how many blocks, and which, are handed out: of the first node in which a superpage fits, or else of the wanted end of the first usable one; it fails if and only if there is neither, or a log allocation has not enough; the list stays right, and nothing else leaves it, if and only if the node that a superpage comes from does not have a positive multiple of 2^32 blocks above it |
| BlockAllocator.FreeList.AllocSuperpage | balloc.c:640-788 | a 2MB-aligned part of the first node in which one fits, as large as SuperpageGets says, and what remains of the node; none if and only if every node has no 2MB page, or just one at its beginning |
| BlockAllocator.SuperpageGets | balloc.c:672-699 | for every range and every multiple of 512 blocks: the allocation gets the least of what is wanted and the 2MB pages in the range, if and only if the range does not begin with a 2MB page that is needed, and otherwise 512 blocks less |
| BlockAllocator.RefusedExactly | balloc.c:672-699 | a range is passed over if and only if no 2MB page lies in it, or just one, at its beginning |
| BlockAllocator.HeldPages | balloc.c:672-677 | the count of 2MB pages used above is the number of aligned pages that lie in the range as a whole |
| BlockAllocator.FirstPageIsWasted | balloc.c:672-699 | of two free 2MB pages a request for two gets one; a single free one is refused |
| BlockAllocator.ForgetsBlocks | balloc.c:692-748 | a list of one range that keeps 512 blocks and forgets 2^32 when 512 are taken |
| BlockAllocator.InitBlockmap | balloc.c:162-235 | each CPU's list has the bounds of its share and is full, or empty before a recovery |
| BlockAllocator.Allocator.constructor | balloc.c:162-235 | a new file system: nothing handed out, every block of every share free; in every state from then on a block of a share is free or handed out, and not both |
| BlockAllocator.Allocator.NewBlocks | balloc.c:960-1107 | exactly what is handed out, and what is forgotten, leaves one list: that of the CPU if it has enough blocks, or else the richest one; handed-out blocks are disjoint from all that are handed out, over all CPUs; single data blocks are refused if and only if every list is empty; the lists stay right if and only if that list does not forget blocks, and always if no share has more than 2^32 blocks |
| BlockAllocator.Allocator.FreeBlocks | balloc.c:413-541 | exactly the freed blocks join the list of their share and are no longer handed out; the other lists stay |
| BlockmapRebuild.BuildBlocknodeMap | bbuild.c:655-709 | each list gets exactly the clear bits of its share |
| BlockmapRebuild.RecoverBlockmap | bbuild.c:734-800 | after a crash the allocator takes exactly the set bits as handed out |
| BlockmapRebuild.NodesAreMaximalRuns | bbuild.c:655-709 | rebuilt nodes are whole runs, cut only at the ends of a share |
| InodeNumbers.InodeMap.AllocUnused | inode.c:609-668 | the least unused number, and only it, is taken; it fails if and only if the numbers in use are those up to one close to the limit |
| InodeNumbers.InodeMap.FreeInuse | inode.c:670-747 | exactly this number is free again; the list stays right for every number but 0, which is reserved |
| InodeNumbers.InodeMap.FailureInsert | bbuild.c:111-192 | exactly the range found by the scan joins |
| InodeNumbers.InodeTable.NewInode | inode.c:609-668 | an inode number that is not issued, with the least internal number free on its CPU; it fails if and only if those issued on the CPU are all up to one close to the limit; numbers of different CPUs never meet |
| InodeNumbers.InodeTable.FreeInode | inode.c:670-747 | exactly this number may be issued again, for every number above the reserved ones |
| InodeNumbers.RecoverPage | bbuild.c:1511-1625 | scanning a page of the inode table adds exactly its live inodes |
| CsumSlots.SlotIsReserved | nova.h:889-943 | every data block's checksums lie in a reserved block of its CPU, if enough are reserved |
| CsumSlots.SlotsAreDisjoint | nova.h:889-943 | different blocks have disjoint checksum bytes |
| CsumSlots.EnoughBlocks | balloc.c:65-89 | enough blocks are reserved for every device with at least 128 metadata blocks |
| CsumSlots.NotEnoughIsTooLittle | balloc.c:65-89 | otherwise the last checksum of the first share lies outside the reserved blocks |
| Journal.TransactionIsUndone | journal.c:150-192 | with clflush: a published transaction, any later stores outside the journal, a crash with any part of them on the medium and any number of interrupted recoveries; then every journaled word has its captured value and all others are untouched |
| Journal.AnyNumberOfCrashes | journal.c:171-192 | with clflush: after any number of interrupted recoveries one that completes restores every journaled word |
| Journal.RecoveredRestores | journal.c:171-192 | an uninterrupted recovery restores, with clflush and with clwb |
| Journal.ClwbMayLoseTheUndo | journal.c:150-192 | with clwb a crash in recovery may lose the undo if and only if there was something to undo |
| Journal.OpsKeepPublished | journal.c:317-423 | stores and flushes outside the journal keep a published transaction |
| Journal.CommittedIsFinal | journal.c:426-436 | after a commit recovery changes nothing |
| Journal.TransactionsFit | journal.c:317-423 | create, rename and log-entry transactions never fill the journal page |
| Journal.CapturedExactly | journal.c:250-423 | with what each operation stores between the beginning and the end of its transaction stated apart: every word that it changes is captured, if and only if it is not one of the two kinds named above |
| Journal.NotCaptured | namei.c:693-869 | an operation of each of these two kinds, with a word that it changes and does not capture |
| Journal.UndoneExactly | journal.c:150-192 | with clflush, for every operation whose transaction has begun: whatever of its stores a crash has found and however often recovery is cut off, every word outside the journal has a value it might have had before, if and only if the operation changes captured words only |
| Journal.LiteJournal.Perform | log.c:485-520 | with clflush: an operation that the journal covers, from the beginning of its transaction to its last store, passes only through states in which a crash undoes it as a whole |
| Journal.RenameLeavesTheTargetValid | namei.c:794-869 | for every inode that is the target of a rename: valid and delete_epoch_id end as they were before |
| Journal.LiteJournal.Begin | journal.c:293-423 | afterwards the transaction is published with the values captured at its start; in every state on the way a crash leaves all or none of it; no word outside the journal changes |
| Journal.LiteJournal.Commit | journal.c:426-436 | afterwards nothing is published; in every state on the way the transaction is committed or not; only the head changes |
| Journal.LiteJournal.SoftInit | journal.c:441-472 | recovery at mount, of a journal with a transaction that is published or settled: the check accepts its entries, and recovery passes only through the states of the crash argument |
| Snapshots.SnapshotTable.Retire | snapshot.c:471-590 | an item at its end is freed if and only if no snapshot sees it; otherwise an entry with just this item goes behind the others on the list of the CPU of the first snapshot that sees it, and no other list changes; the table stays valid; while a snapshot is being taken, what is replaced in the new epoch is freed if and only if no older snapshot could see it |
| Snapshots.SnapshotTable.FreedOnce | snapshot.c:471-546 | in every state: nothing is freed twice, nothing freed is still parked, and what is freed no live snapshot sees |
| Snapshots.SnapshotTable.DeleteSnapshot | snapshot.c:1051-1095 | exactly this snapshot goes; its lists go to the next one, which is to be cleaned, or are freed with the last; and exactly when the cleaner loses its snapshot |
| Snapshots.SnapshotTable.CleanSnapshot | snapshot.c:1341-1363 | if the snapshot to be cleaned is still there: the table stays valid, and afterwards its lists hold only what it sees |
| Snapshots.SnapshotTable.CreateSnapshot | snapshot.c:915-981 | with nothing replaced in between the table stays valid, and exactly the old epoch becomes a snapshot |
| Snapshots.SnapshotTable.BeginSnapshot | snapshot.c:915-945 | the epoch ends, the table stays valid, and the new snapshot cannot be found yet |
| Snapshots.SnapshotTable.InsertSnapshot | snapshot.c:945-981 | for every state in which a snapshot is being taken, whatever was retired or cleaned since: everything is still parked or freed once, and the table is valid if and only if no item was replaced since that the new snapshot sees and no older one could see |
| Snapshots.SnapshotTable.KeptOrFreed | snapshot.c:471-546 | an item that was retired is freed, or a live snapshot could see it |
| Snapshots.SnapshotLosesItsItem | snapshot.c:915-981 | a run in which an item is retired while a snapshot is being taken, and ends freed although the snapshot sees it |
| Snapshots.CleanerLosesItsSnapshot | snapshot.c:992-1095 | two snapshots taken and deleted leave the cleaner with one that is gone |
| Directory.TreeIsLastEntry | rebuild.c:632-665 | a name hash is in the replayed tree exactly if the last entry about it adds it, and then with that entry |
| Directory.CreateFirst | dir.c:466-503 | invalidating the create entry of a pair first leaves replay unchanged |
| Directory.DeleteSecond | dir.c:466-503 | and then the delete entry |
| Directory.DeleteFirstBringsNameBack | dir.c:466-503 | the other order would bring the name back |
| Directory.Dir.AddDentry | dir.c:294-344 | a name joins tree and log, or neither; a taken hash is refused |
| Directory.Dir.RemoveDentry | dir.c:386-463 | a name leaves tree and replay, in place if and only if its entry is of this epoch and no rename asks, and otherwise by a delete entry; the log is exactly the one stated; the tree stays right if and only if it does not hold the hash of the name for another name |
| Directory.CollisionLosesAName | dir.c:83-144 | two names with the same hash: one is made, removing the other fails, and the one is gone from the tree but not from the log |
| Directory.Dir.InvalidateDentries | dir.c:466-503 | in every state it passes through replay gives the tree |
| Directory.Dir.Rename | namei.c:663-894 | old name out, new name in, everything else unchanged, replay right, and the log is exactly the one stated, pairs invalidated, for a rename inside one directory |
| Directory.Dir.Rebuild | rebuild.c:667-766 | after a crash the tree is that of the last commit |

## Left out

- RingBuffer.EveryCalmRunIsSafe: promises nothing for runs that are not calm; CalmIsExact shows that the condition cannot be weaker at any load of tail.
- RingBuffer: double mapping, shadow buffers, the reap callback and blocking (nap) mode, none of which is configured; weak memory order, as all accesses are taken in program order.
- CombiningQueue: memory order, and preemption beyond arbitrary interleaving; nap and wake-up of blocking queues.
- Delegation.EveryRunIsSafe: counts requests; which bytes a copy moves, page faults of the agents, their shutdown and their sleeping are not modelled, and a ring is a bounded queue here.
- FileIndex.Header.AssignWriteEntry: replica entries and checksums, as metadata_csum is 0; trees are maps and their searches linear.
- FileIndex.RebuildFindsIndex: only the first pass; the second pass, which rebuilds the bitmap of used blocks, is not modelled.
- FileIndex.Header.Evict: directories, symbolic links and the release of log pages are not modelled.
- CowWrite.CowFileWrite: a grant that is not usable ends the model; the clean-up of a failed write, faults while copying from the user, and the choice between direct and delegated copying are not modelled, nor are mmap and reads.
- LogPages.LogArea.AppendAfterCrash: counters stay right only if no lost entry was dead.
- LogGC.Collector.ThoroughGC: page allocation succeeds; what is left half done when it fails is not modelled. The alternate log is not configured.
- LogLife.CollectKeepsFile: the header after a collection holds every position at its new place. For index slots the source sees to that; for superseded runs it does exactly when ThoroughAndRuns says; last_setattr and last_link_change, which thorough collection overwrites with the last such entry that it copies, are taken to follow their entries.
- LogLife.Life: pages for the log are granted; operations that the allocators would not allow are passed over. Collections come between two such lists of operations.
- BlockAllocator.FreeList.FreeBlocks: callers must not free a range that begins with a block in use and runs into free ones; the source notices that or not, depending on the shape of its tree.
- BlockAllocator.Allocator.FreeBlocks: the range must have been handed out and lie in one share, as the source takes for granted.
- BlockAllocator.FreeList.AllocSuperpage: 1GB blocks are not allocated by the source; failure to allocate a range node, and zeroing of blocks, are not modelled.
- BlockmapRebuild.RecoverBlockmap: how the bitmap is filled by the scan of all inodes, and bitmaps in 2MB and 1GB units, are not modelled.
- InodeNumbers.InodeMap.FreeInuse: keeps the list right for every number but 0, which the source never frees.
- InodeNumbers.RecoverPage: one page of one CPU; the threads that scan in parallel are not modelled.
- CsumSlots.SlotIsReserved: the checksums themselves and parity blocks, which are not configured.
- Journal.UndoneExactly: only for clflush. That a rename's copies of inodes hold what the inodes held, but for the words named, is taken from their being made under the locks of the inodes.
- Journal.TransactionIsUndone: only for clflush; ClwbMayLoseTheUndo says what is lost with clwb. Stores tear at 8-byte words. Journal checksums and replicated inodes are not configured.
- Snapshots.SnapshotTable.CleanSnapshot: requires that the snapshot to be cleaned is still there; without that the source follows a freed list.
- Snapshots.SnapshotTable.Retire: looking a snapshot up and parking or freeing the item are one step. Failed allocation of list pages, and saving lists to persistent memory, are not modelled.
- Snapshots.SnapshotTable.FreedOnce: overwriting a file page frees its block whatever snapshots see (log.c:887-891), so protection holds for items that enter through this operation.
- Directory.Dir.Rename: inside one directory, for names that do not collide; the journal that joins the logs of two directories is modelled apart, in Journal.
- Directory.Dir.InvalidateDentries: the page counters of dentries changed in place are not modelled.
- File system mount options, statistics, sysfs, ioctl, symbolic links, write protection and NUMA placement.
