# Verified models of the Aurora kernel's data structures and storage code

This project models the parts of the kernel where a wrong step corrupts state silently, and proves
what they are for: the red-black tree of the scheduler, the buddy and slab allocators, four-level
page tables with copy-on-write fork, the region scan behind `/proc/self/maps`, the metadata journal,
FAT32 chains and files, ext2 directory slots, pipe rings and the NVMe completion ring.

C code that works by changing things in place is modelled by classes, arrays and loops; the proofs
rest on specification functions over snapshots of that state.

| component | modules | main result |
|---|---|---|
| red-black tree | `RbShape`, `RbFix`, `RbHeap`, `RbTree`, `RbQuery` | insertion and deletion on linked nodes keep every red-black rule and change the in-order sequence by exactly one node |
| buddy allocator | `BuddyBlocks`, `BuddyLists`, `BuddyState`, `BuddyRun`, `Buddy` | blocks partition the managed pages, lists hold exactly the free blocks, and no two free buddies are left apart |
| slab heap | `SlabState`, `Slab` | no byte ever belongs to two objects, live or free |
| page tables, fork | `PageWalk`, `PageMap`, `PageFlat`, `PageClone`, `CowState`, `CowProgress`, `ForkCost`, `AddressSpace`, `CowRun` | every interleaving of fork, load, store, map, unmap and exit answers as a machine whose fork copies every page at once |
| `/proc/self/maps` | `ProcMaps` | the skipping walk reports exactly the maximal runs of equal permissions |
| journal | `LittleEndian`, `JournalCodec`, `JournalLog`, `Journal` | recovery parses back the committed transactions; what a crash at any disk write of a commit leaves is determined, and any number of crashes during recovery make no difference |
| FAT32 | `FatForest`, `FatBytes`, `Fat32` | the table is a set of disjoint acyclic chains, and files are arrays of bytes over them |
| ext2 | `Ext2Dir`, `Ext2` | what every lookup answers after a name is created, that no entry is ever lost, and exactly when the new name is found |
| pipe | `Pipe` | the ring is a bounded queue of bytes: returned, then stored, is what was taken |
| NVMe | `Nvme` | each completion is consumed once, in posting order, over any number of ring wraps and however late the doorbell writes arrive |

## How the models are set up

- Each locked section is one atomic step. Reads and writes of block devices succeed,
  except those of the journal past the end of the device.
- Physical frames, clusters and page numbers are natural numbers. Where a width matters it is written
  out: the 28 bits of a FAT entry, the 32-bit home block of a journalled block, the little-endian fields of on-disk
  records, the 16-bit record length of ext2.
- `AddressSpace.Memory` keeps, beside the tables themselves, a ghost record of where each table hangs
  (owner, level, prefix). Its pool of free frames stands for the page allocator's order-0 interface.
- `CowRun` runs any sequence of operations. Its eager machine is defined without mentioning tables,
  counts or frames.

## What the code does differently from its comments

- `rb_insert`, `rb_erase`: the "malformed tree" exits are never taken on a valid tree. The loops here
  have no such exits, and still terminate.
- `alloc_pages`: the branch for addresses beyond 1 GiB cannot be reached.
- `split_huge_page` drops the no-execute bit: a page's translation changes if and only if it lies under
  the 2 MiB entry and that entry is no-execute. Frame, write and user permissions of all 512 pages survive
  (`PageMap.AttachSplit`).
- `map_page` over the same frame with count 1 frees the frame and maps it again
  (`CowState.RebindExample`). Counts stay an upper bound on mappings if and only if this case is not
  hit (`CowState.MapCounted`).
- A page mapped on first touch has count 2, one for the allocation and one for the mapping. Counts are
  therefore a bound and not equal to the number of mappings, and a page that only one process still maps
  may be copied once more. Such a page is never freed, whatever its processes do (`CowRun.BalancedPins`).
  `unmap_page` does not release the count.
- `journal_init` recovers a dirty journal before it sets the flag that `journal_recover` tests, so a
  dirty journal never mounts at boot (`Journal.Journal.Init`): after power loss in a commit the journal mounts
  only if every write of it was made (`Journal.Journal.InitAfterCrash`). `Remount` shows recovery with the flag set.
- A crash while a commit copies blocks home leaves part of the new transaction behind unless the log
  still holds every block copied so far or those blocks were rewritten unchanged: `JournalLog.TornIsOld`
  gives the exact condition and `JournalLog.TornExample` a transaction it happens to.
- Recovery reads the descriptor and the commit record through one buffer, so its comparison of their
  sequence numbers compares a number with itself. The commit block is longer than the record, and the
  bytes behind the record are arbitrary (`junk` in the model).
- A commit whose records reach the end of the journal area goes on past it. The head then starts over
  behind the tail, and since recovery only scans from tail up to head, it finds none of the transactions
  that the comment calls still valid (`JournalLog.Moved`, in `Journal.Journal.Commit`). If the records end
  exactly with the area the head becomes 0, the block of the superblock. If the area ends with the device,
  the commit fails with the head where it was, and so does every later one of at least that size.
- `fat32_set_cluster` replaces the whole word of an entry, while the FAT specification asks to preserve its
  four reserved bits: they survive if and only if they were clear (`Fat32.Rewritten`, in
  `Fat32.Volume.SetCluster`).
- Clusters added by a write are not zeroed. The bytes between the old size and the offset of a write beyond
  it read zero if and only if the clusters held zeros there (`FatBytes.GapShows`; `FatBytes.GapExample`
  shows old contents).
- A write that finds too few free clusters is refused after it has appended all of them to the file's chain
  (`Fat32.Volume.WriteFile`).
- `fat32_transfer_file` cuts the new size to 32 bits. What was written is read back completely if and only if
  it ends below 4 GiB or is empty (`Fat32.Volume.WriteThenRead`).
- `fat32_free_cluster_chain` from a cluster in the middle of a chain leaves an entry that leads to a free
  cluster, and no set of chains explains the table any more (`FatForest.Dangling`).
- `ext2_create` does not look for an existing entry of the same name: `Ext2.CreateShadows` says exactly
  when the old entry still answers, and `Ext2.ShadowExample` shows a block where it does not.
- `ext2_create` sets the directory size to the end of the new record when it appends a block, while later
  creations fill the rest of that block and `ext2_dir_lookup` stops at the directory size. A name created
  right after an append is therefore entered but not found (`Ext2.HiddenName`). It is found after the next
  append (`Ext2.AppendResolves`). A new name is found if and only if its record starts below the directory
  size (`Ext2.CreateResolves`).

## Model

| member | source | states |
|---|---|---|
| RbHeap.RbRoot.RotateLeft | kernel/rbtree.c:49-70 | the linked nodes, wherever the subtree hangs, form the rotated tree with all parent links right |
| RbHeap.RbRoot.RotateRight | kernel/rbtree.c:81-102 | the mirror image: same in-order sequence, same surroundings |
| RbTree.FindSlot | kernel/rbtree.c:178-200 | the empty place found has every key at most the new one before it and every larger key after it |
| RbTree.InsertStepLeft | kernel/rbtree.c:116-143 | one turn of the loop keeps everything but a possible red-red pair at the node, and moves that pair up |
| RbTree.InsertStepRight | kernel/rbtree.c:144-168 | the mirrored turn |
| RbTree.InsertFixup | kernel/rbtree.c:112-172 | from a tree with at most one red-red pair: a red-black tree with the same in-order sequence |
| RbTree.Insert | kernel/rbtree.c:178-206 | still a valid red-black tree; the node stands right after all keys not larger than its own, so equal keys keep arrival order |
| RbTree.Transplant | kernel/rbtree.c:215-225 | the surroundings of one subtree now hold the other; no third node changes |
| RbTree.EraseStepLeft | kernel/rbtree.c:236-275 | one turn either finishes or moves the missing black one level up, never losing a node |
| RbTree.EraseStepRight | kernel/rbtree.c:275-312 | the mirrored turn |
| RbTree.EraseFixup | kernel/rbtree.c:233-317 | from a tree one black short at one place: a red-black tree with the same in-order sequence |
| RbTree.Detach | kernel/rbtree.c:323-368 | exactly the node is out of the sequence; if the colour lost was black, one place is one black short, otherwise the tree is already red-black |
| RbTree.Erase | kernel/rbtree.c:323-375 | for every valid tree and node of it: a valid tree whose in-order sequence is the old one without that node |
| RbFix.PushBlacknessKeeps | kernel/rbtree.c:123-130 | recolouring parent, uncle and grandparent keeps black heights and moves the red-red pair up two levels |
| RbFix.SuccessorMoved | kernel/rbtree.c:343-368 | putting the successor in the erased node's place with its colour leaves the shortage where the successor was |
| RbFix.CloseKeeps | kernel/rbtree.c:267-275 | rotating a black sibling with a red outer child ends the shortage for good |
| RbQuery.FindMin | kernel/rbtree.c:385-390 | the head of the in-order sequence, null only if it is empty |
| RbQuery.Find | kernel/rbtree.c:403-416 | a node with the key if there is one; null only if no node has it |
| RbQuery.Next | kernel/rbtree.c:422-438 | the next node of the in-order sequence, null only at its end |
| RbQuery.Traverse | kernel/rbtree.c:385-438 | first and next visit every node of the tree once, in key order |
| BuddyBlocks.BuddyIsHead | kernel/mem.c:224-229 | the buddy of a block's first page is the first page of a block: its descriptor is never a stale interior one |
| BuddyBlocks.BlocksAligned | kernel/mem.c:326-382 | every block is aligned to its size and lies within the page array |
| BuddyBlocks.BlocksDisjoint | kernel/mem.c:326-382 | two blocks, free or handed out, share no page |
| BuddyBlocks.BlocksCover | kernel/mem.c:326-382 | every managed page lies in a block of its own kind |
| BuddyRun.TrustBuddy | kernel/mem.c:355-362 | the flag and order test on the buddy's descriptor holds exactly if the buddy is a free block of the same order, stale flags notwithstanding |
| BuddyRun.NoPairs | kernel/mem.c:355-362 | when merging stops at the only place where two free buddies could meet, no such pair is left anywhere |
| BuddyState.SplitKeeps | kernel/mem.c:326-352 | splitting keeps partition, descriptors and lists, and puts the two halves on the next list |
| Buddy.BuddyAllocator.constructor | kernel/mem.c:189-200 | nothing is managed, every list is empty, and the invariant holds |
| Buddy.BuddyAllocator.MarkReserved | kernel/mem.c:259-265 | exactly the range is reserved, clipped at the page array; the invariant holds if none of it was managed |
| Buddy.BuddyAllocator.MarkAvailable | kernel/mem.c:268-286 | if the range is within memory and unmanaged, exactly its pages that are not reserved become free single pages and the invariant holds |
| Buddy.BuddyAllocator.ListAdd | kernel/mem.c:235-238 | the page is the new first of its list |
| Buddy.BuddyAllocator.ListDel | kernel/mem.c:240-252 | the page leaves its list wherever it stood, and the rest keeps its order; a page not on the list changes nothing |
| Buddy.BuddyAllocator.Split | kernel/mem.c:326-352 | the first block of the order becomes its two halves, NULL and no change if there is none |
| Buddy.BuddyAllocator.Merge | kernel/mem.c:355-382 | which pages are free does not change; if free buddies could only meet here, none are left at all |
| Buddy.BuddyAllocator.AllocPages | kernel/mem.c:636-720 | NULL exactly if no free block is large enough; otherwise one aligned block, cut from the smallest free block that holds it, leaves the free pages, counters follow, descriptors of blocks in use are untouched, and free buddies are still all merged |
| Buddy.BuddyAllocator.FreePages | kernel/mem.c:722-769 | pointers the checks turn away, double frees among them, change nothing; otherwise exactly the block's pages become free, the page's count is 0, and free buddies are still all merged |
| SlabState.SizeIndex | kernel/mem.c:792-801 | the smallest cache that fits, for every size up to a page |
| BuddyRun.FirstListFits | kernel/mem.c:642-644 | the first list that is not empty holds a smallest free block that is large enough |
| SlabState.OneOwner | kernel/mem.c:849-972 | a byte belongs to at most one object among live objects, free slab objects and live blocks |
| SlabState.NotInFreePages | kernel/mem.c:849-972 | no byte of an object lies in a free block of the page allocator |
| SlabState.BigEnough | kernel/mem.c:849-936 | all bytes asked for belong to the object returned |
| SlabState.CarvedAll | kernel/mem.c:808-836 | cutting a page up loses no object: each one of every slab page is live or on the list of its cache |
| Slab.SlabHeap.Grow | kernel/mem.c:808-836 | fails exactly if there is no free page; otherwise a page that was free is cut into as many objects as it holds, all in front of the list |
| Slab.SlabHeap.Kmalloc | kernel/mem.c:849-936 | NULL exactly for size 0 or if neither list nor page allocator can serve it, and then nothing changes; otherwise a pointer that was not live, recorded with its size: the first of its list, or one of a page cut up because the list was empty, or a block of the smallest order; no object of a slab page is ever lost |
| Slab.SlabHeap.Kfree | kernel/mem.c:938-972 | cache or order read from the page descriptor are the right ones: the object goes to the front of its own list, or exactly the pages of its block become free, and no other pointer dies |
| PageMap.AttachSplit | kernel/pagetable.c:230-270 | splitting a 2 MiB entry leaves frame and permissions of every page of every address space; the translation of a page changes if and only if it lies under the entry and the entry is no-execute |
| PageFlat.GrowMappings | kernel/pagetable.c:289-332 | hanging a new table anywhere changes no translation |
| PageFlat.SamePlace | kernel/pagetable.c:276-372 | two private tables never stand at the same place: an address space reaches each table in one way |
| AddressSpace.Memory.EnsurePath | kernel/pagetable.c:276-332 | a page table is found or made and no page is mapped otherwise; fails only with fewer than three free frames, and then still nothing is mapped otherwise |
| AddressSpace.Memory.MapPage | kernel/pagetable.c:276-372 | frame, write and user permission of this page and of no other change, in this address space and in all others; on failure none does; the no-execute bit is not part of it |
| AddressSpace.Memory.UnmapPage | kernel/pagetable.c:398-427 | exactly this page is unmapped; a page under a missing table or a 2 MiB entry is left alone |
| AddressSpace.Memory.UserPagePresent | kernel/pagetable.c:623-647 | true exactly if the lower half maps the page |
| CowState.MapCounted | kernel/pagetable.c:353-368 | mapping keeps counts at or above the number of mappings if and only if it does not rebind the frame it just freed |
| CowState.RebindExample | kernel/pagetable.c:353-368 | one mapping with count 1, mapped again to the same frame: the frame is free and still mapped |
| CowState.CopyKeeps | kernel/pagetable.c:780-812 | the private copy changes what no process reads; counts still bound mappings and writable pages still have one mapper |
| CowProgress.CopyAccounted | kernel/pagetable.c:789-812 | the copy moves one reference with its mapping: every old page keeps its number of references beside mappings, and the new page has none |
| CowProgress.MapAccounted | kernel/pagetable.c:343-368 | a page mapped on first touch keeps one reference beside its mapping, and all other pages keep theirs |
| CowState.ShareKeeps | kernel/pagetable.c:528-569 | sharing a page read-only gives the child the parent's contents and changes nobody else's |
| CowState.PoolIs | kernel/pagetable.c:198-222 | no frame is lost: tables and pages in use determine the free pool |
| AddressSpace.Memory.LazyFault | kernel/pagetable.c:685-736 | a first touch maps a zero page, writable and executable for the user, that reads as the unmapped page did, with one reference beside its mapping; no other mapping or count changes; fails only with fewer than four free frames, mapping nothing |
| AddressSpace.Memory.WriteFault | kernel/pagetable.c:738-820 | a page counted once becomes writable where it is, a shared one moves to a frame that was free, with the same rights, and nobody reads anything different; every page keeps its number of references beside mappings, a new one has none; fails exactly if the page is shared and no frame is free, changing nothing |
| AddressSpace.Memory.MapFresh | kernel/pagetable.c:343-368 | a new zero page over whatever was mapped there: this page reads zero, no other page or mapping of any process changes, and counts move with mappings; refused only with fewer than four free frames; the frame comes from an allocation as at kernel/pagetable.c:712-736 |
| CowProgress.ForkedView | kernel/pagetable.c:443-588 | after a fork the child reads what the parent read, and everyone else what they read before |
| CowProgress.ForkedRights | kernel/pagetable.c:528-569 | after a fork the child has each of the parent's mappings, with its frame and rights, writable in neither; all other mappings stay |
| CowProgress.ForkUndone | kernel/pagetable.c:443-588 | a fork, finished or stopped halfway, followed by teardown of the child restores every page and every count |
| CowProgress.TornDownFrees | kernel/pagetable.c:893-953 | teardown frees a page exactly if all its references came from this address space, and otherwise lowers its count by exactly those |
| CowProgress.TornDownView | kernel/pagetable.c:893-953 | other address spaces read what they read before |
| ForkCost.Short | kernel/pagetable.c:470-524 | a clone that finds no frame for a table had fewer free frames than the parent has tables |
| ForkCost.Refunded | kernel/pagetable.c:583-588 | cleaning up after it leaves the tables there were before the fork |
| ForkCost.ChildSize | kernel/pagetable.c:443-588 | a child never has more tables than its parent |
| AddressSpace.Memory.NewSpace | kernel/pagetable.c:597-614 | an address space with the shared slots of its source and an empty user half; fails only without a free frame |
| AddressSpace.Memory.constructor | kernel/pagetable.c:597-614 | one PML4 with nothing in it, over any set of frames, meets every invariant and reads zero everywhere |
| AddressSpace.Memory.Fork | kernel/pagetable.c:443-588 | a child sharing every page read-only with its parent, for at most as many frames as the parent has tables; or, only with fewer free frames than that, contents, counts, tables and free pool as before |
| AddressSpace.Memory.FreeSpace | kernel/pagetable.c:893-953 | the address space is gone, its pages lose exactly its references, its tables are back in the pool, and no other table or translation changes |
| AddressSpace.Memory.Load | kernel/pagetable.c:671-736 | the byte the page holds; a mapped page is always served and nothing changes, any other is mapped first, refused only with fewer than four free frames |
| AddressSpace.Memory.StoreByte | kernel/pagetable.c:671-820 | a user store changes one byte for one process, whatever faults it takes; counts move with mappings; a mapped page is refused only if it is read-only and shared and no frame is free, one not mapped only with fewer than four free frames |
| CowRun.Step | kernel/pagetable.c:443-953 | each operation answers as the eager machine does, moves counts exactly with mappings but for unmapping, takes no more frames than it may cost, and is refused only for misuse or if the very page asked for needs more frames than are free |
| CowRun.Run | kernel/pagetable.c:443-953 | any sequence of fork, load, store, map, unmap and exit, over any number of processes, answers as the eager machine does; a refusal is misuse or an operation that takes frames, at a point where the frames free at the start may not cover the costs so far; no page gains references beside its mappings but for unmapping, and a page that has one keeps it |
| CowRun.EnoughFrames | kernel/pagetable.c:443-953 | with the budget of the whole sequence free at the start, nothing but misuse is refused |
| CowRun.RunFromBoot | kernel/pagetable.c:443-953 | the same from one empty address space, for any sequence: the eager machine explains every answer, and with enough frames every legitimate operation is served |
| ProcMaps.ScanFindsRuns | kernel/procfs.c:281-372 | the page-by-page scan yields the maximal runs of equal permissions, ordered, each page in exactly one |
| ProcMaps.TakeBlock | kernel/procfs.c:312-338 | taking a whole uniform block at once equals taking its pages one by one |
| ProcMaps.Probe | kernel/procfs.c:286-343 | one step of the walk: the whole block skipped has one permission, and the address only ever advances to where the walk can resume |
| ProcMaps.RunsAreMap | kernel/procfs.c:281-372 | maximal runs, read against the translation itself: each page of a region is mapped, and the region's bits say readable, writable exactly if the entry is, executable exactly if it is not no-execute; every mapped page is in a region, and neighbours with equal bits are in one |
| ProcMaps.ReadSelfMaps | kernel/procfs.c:273-378 | exactly the maximal runs of adjacent pages with equal permissions in the lower half, with the bits of their translation, or the first of them up to the one that fills the buffer |
| JournalCodec.DescReads | kernel/journal.h:59-82 | a descriptor block written for a transaction reads back its sequence number, count, home blocks and checksums |
| JournalCodec.SumDetects | kernel/journal.c:42-51 | blocks that differ in one byte, in any of its bits, have different rolling sums |
| JournalCodec.DescSummed | kernel/journal.c:299-310 | the checksum in a descriptor is that of its header with the field still zero |
| JournalCodec.CommitSummed | kernel/journal.c:332-337 | so is that of a commit record |
| JournalCodec.SuperReads | kernel/journal.c:72-91 | the superblock written reads back head, tail, sequence and dirty flag |
| JournalCodec.SuperGeometry | kernel/journal.c:72-85 | the superblock reads back block size, start and length of the area |
| JournalCodec.SuperSummed | kernel/journal.c:72-88 | its checksum is that of the bytes before it |
| JournalLog.ApplyAt | kernel/journal.c:344-355 | a block holds its last write in the sequence, or what it held |
| JournalLog.ReplaySettled | kernel/journal.c:393-464 | replaying a log whose last writes are already home changes nothing |
| JournalLog.CheckpointSettles | kernel/journal.c:344-355 | after the checkpoint the log with the new transaction is again already home |
| JournalLog.TornCheckpoint | kernel/journal.c:344-355 | what each block holds after a crash between checkpoint writes and replay of the old log, for every size of the filesystem |
| JournalLog.TornIsOld | kernel/journal.c:344-355 | that is the filesystem before the transaction if and only if every copied block is written again by replay or had not changed |
| JournalLog.TornExample | kernel/journal.c:344-355 | two blocks of any legal size and an empty log, one block copied: neither the old filesystem nor the new one |
| JournalLog.PutReplayed | kernel/journal.c:379-464 | a block that replay writes again anyway makes no difference to what replay leaves |
| Journal.Journal.Begin | kernel/journal.c:214-262 | the transaction's descriptor always fits one block; the limit asked for is cut only if it would not |
| Journal.Journal.AddBlock | kernel/journal.c:264-278 | the block joins the transaction exactly if one is open with room; the disk is untouched |
| Journal.Journal.Rollback | kernel/journal.c:369-377 | the transaction is dropped and nothing of it reaches the disk |
| Journal.Journal.Commit | kernel/journal.c:280-367 | refused exactly if no transaction is open or its records reach past the device, and then home blocks, log and pointers stay; otherwise the filesystem gains the transaction, numbered in sequence, and the log gains it last or, past the end of the area, is lost to recovery; the disk images on the way are, in number and order: three plus one per block with the old home blocks, one per home write, two finished ones; all are marked dirty but the last of a commit that succeeds |
| Journal.Journal.Evict | kernel/journal.c:118-135 | drops whole transactions from the tail, as few as it takes until the head is less than the area ahead of it, none if the head is within the area |
| JournalLog.KeepsMost | kernel/journal.c:118-135 | with the tail at any earlier transaction the head would be too far ahead |
| Journal.Journal.AdvanceHead | kernel/journal.c:118-145 | the transaction joins the log if it ends within the area; otherwise the head has started over and a scan from tail to head is empty |
| Journal.Journal.Recover | kernel/journal.c:379-480 | whatever the pointers and the area hold, the scan stops, the journal is empty afterwards, and, if the filesystem's range ends before the journal, each block but the superblock is as before or within that range what a data block says that matches its checksum under a descriptor with a commit record behind; if the pointers bound a log, it parses exactly those transactions in order and applies them, and every disk image on the way still has the log and recovers to the same blocks; from a valid state no home block changes |
| Journal.Journal.Init | kernel/journal.c:152-212 | mounts exactly if sizes are valid and the journal on disk is not marked dirty or one was mounted before; it takes the pointers found, recovering a dirty journal, or writes a new superblock and no other block |
| Journal.Journal.InitAfterCrash | kernel/journal.c:152-367 | power lost after any numbered disk write of a commit, then journal_init: it mounts exactly if every write was made, and then the filesystem has the transaction |
| Journal.Journal.CrashInCommit | kernel/journal.c:280-367 | power lost after any numbered disk write of a commit, then recovery: the old filesystem up to the commit record, the new one from the first superblock after the home writes, and between them the mixture stated, which is the old one exactly if harmless; always the old one if the device ends too early |
| Journal.Journal.CrashesInRecovery | kernel/journal.c:379-480 | power lost any number of times, each after any disk write of a recovery, then a recovery that ends: the home blocks are those of one undisturbed recovery |
| FatForest.AllocForest | kernel/fat32.c:153-166 | taking a free cluster adds a chain of one and keeps all chains disjoint and acyclic |
| FatForest.LinkForest | kernel/fat32.c:197-208 | linking it behind a chain extends that chain and no other |
| FatForest.FreeForest | kernel/fat32.c:213-224 | freeing a chain leaves all others intact and its clusters free |
| FatForest.Disjoint | kernel/fat32.c:72-224 | a cluster stands at one place of one chain |
| FatForest.Dangling | kernel/fat32.c:213-224 | freeing a chain from its middle leaves a table that no set of disjoint chains explains |
| Fat32.Volume.constructor | kernel/fat32.c:1724-1746 | a mounted volume whose copies agree and whose clusters are all free or bad meets every invariant, cached or not |
| Fat32.Volume.GetCluster | kernel/fat32.c:72-97 | cached or not, the lookup answers what the disk holds; end of chain for numbers that are no clusters |
| Fat32.Volume.SetCluster | kernel/fat32.c:107-146 | one entry changes, in every copy and in the cache, to the low 28 bits, and its reserved bits survive exactly if they were clear; numbers that are no clusters are refused and change nothing |
| Fat32.Volume.FindFree | kernel/fat32.c:153-166 | the lowest free cluster, taken; 0 exactly if none is free |
| Fat32.Volume.Append | kernel/fat32.c:197-208 | the chain ends in one formerly free cluster more, or nothing changes because none is free |
| Fat32.Volume.FreeChain | kernel/fat32.c:213-224 | terminates and frees exactly the clusters from the start on; from the head every other chain stays, from a later cluster no set of chains explains the table |
| Fat32.Volume.Nth | kernel/fat32.c:181-191 | from any cluster of a chain, the one that many steps on, end of chain beyond the last |
| Fat32.Volume.WriteFile | kernel/fat32.c:240-347 | refuses exactly if the free clusters cannot hold the range, with all of them taken by then and no byte changed; otherwise the chain has as many clusters as the range needs or as before, the range holds the bytes, every other byte of the file stays, the size is the larger of old size and end, the latter cut to 32 bits, and a gap before the range reads zero exactly if its clusters held zeros; no cluster is lost |
| Fat32.Volume.ReadFile | kernel/fat32.c:240-347 | the bytes of the range, cut at the file size and at the end of the chain; an error exactly if a range that is not empty starts past the chain |
| Fat32.OtherChainKept | kernel/fat32.c:240-347 | a write to one file changes no byte of another |
| Fat32.Volume.WriteThenRead | kernel/fat32.c:240-347 | the chain grows at its end only, the range holds the bytes, and what is read is a prefix of them, all of them exactly if the range ends below 4 GiB or is empty; the write is refused, with no byte changed, exactly if the free clusters cannot hold it |
| FatBytes.GapShows | kernel/fat32.c:265-330 | bytes before the range of a write are those the clusters of the grown chain held |
| FatBytes.GapExample | kernel/fat32.c:265-330 | a cluster with old contents, a file of size 0 and a write from byte 1 on: byte 0 shows the old contents |
| Ext2Dir.SplitFrom | kernel/ext2.c:928-954 | the split block is tiled by records again, and every lookup is the old one or, if its record starts below the limit, the new entry |
| Ext2Dir.SplitEntries | kernel/ext2.c:928-954 | the records of the split block, read in order, are the old ones with the new inode, type and name right behind the record cut; no other inode, type or name changes |
| Ext2.Volume.AllocInode | kernel/ext2.c:386-419 | the first free inode of the first group that is not exhausted, its bit and count updated; 0 exactly if every group is full by count or by bitmap; exact counts stay exact |
| Ext2.Volume.Undo | kernel/ext2.c:450-474 | freeing the inode just taken restores bitmap and count exactly |
| Ext2.Directory.Find | kernel/ext2.c:607-712 | the inode of the first record with the name, over all blocks, that starts below the directory size |
| Ext2.Directory.FindSlot | kernel/ext2.c:928-956 | the first record with room behind it, or proof that none has |
| Ext2.CreateResolves | kernel/ext2.c:913-956 | after a slot split earlier names resolve as before, and a new name resolves to the new inode if and only if its record starts below the directory size |
| Ext2.CreateShadows | kernel/ext2.c:913-956 | creating a name that exists leaves the old entry in charge if and only if it stands in an earlier block or up to the split slot, the new record is not seen, or both name the same inode |
| Ext2.ShadowExample | kernel/ext2.c:928-954 | for every two one-byte names: a block in which creating the second name once more makes it resolve to the new inode |
| Ext2.SeenIfWhole | kernel/ext2.c:621-636 | in a directory whose size ends with its last block the new record is always seen |
| Ext2.HiddenName | kernel/ext2.c:966-993 | for every directory with no slot left for a first name, and every second name not in it: the blocks hold both records, the second name cannot be found, and it can once the size covers the block |
| Ext2.AppendResolves | kernel/ext2.c:964-993 | appending a block makes every name of the earlier blocks visible and adds the new one unless one of them has it |
| Ext2.MoreSeen | kernel/ext2.c:621-636 | a larger directory size keeps every name that resolved |
| Ext2.Directory.Create | kernel/ext2.c:907-993 | placed exactly if the last block has a slot or a block can be appended; the blocks written; every lookup afterwards, for every name, in both cases; the entries, read with inode, type and name, are the old ones and the new one; no entry is lost, seen or not |
| Ext2.Directory.constructor | kernel/ext2.c:894-906 | a new directory has no block and no name |
| Ext2.SplitEnters | kernel/ext2.c:913-956 | a slot split keeps every other entry, whether or not lookups reach it, and enters the new name |
| Ext2.SplitLists | kernel/ext2.c:913-956 | over all blocks a slot split lists exactly one entry more, with its inode, type and name |
| Ext2.AppendLists | kernel/ext2.c:964-993 | so does an append |
| Ext2.AppendEnters | kernel/ext2.c:964-993 | so does an append |
| Ext2.CreateFile | kernel/ext2.c:876-1017 | an unused inode and an entry for it with its type, or neither and nothing changed; no other entry is lost or altered; names that resolved still do; with a directory size that ends with its last block nothing else changes and the new name resolves |
| Pipe.Ring.Read | kernel/pipe.c:77-138 | the answer and new contents of a bounded queue of bytes, over the wrap |
| Pipe.Ring.Write | kernel/pipe.c:157-204 | the answer and new contents of a bounded queue of bytes, for each locked section of the loop |
| Pipe.Ring.CopyRing | kernel/pipe.c:183-193 | the two copies around the wrap put each byte in its ring slot and touch no other |
| Pipe.Ring.Enter | kernel/pipe.c:147-152 | a write is refused at entry exactly if the read end is closed |
| Pipe.Conserved | kernel/pipe.c:77-207 | from any contents and over any sequence: nothing is lost, added or reordered |
| Pipe.ReadMeans | kernel/pipe.c:77-138 | over any run a read returns the oldest bytes not yet returned, as many as asked for or as there are; with none it is end of file exactly if the write end was closed before |
| Pipe.WriteMeans | kernel/pipe.c:147-204 | over any run a write is refused at entry exactly if the read end was closed before; its loop takes what there is room for, and with no room blocks or, with the read end closed, fails |
| Pipe.CloseMeans | kernel/pipe.c:209-237 | over any run the close that leaves both ends closed frees the ring, and no other does |
| Pipe.EofMeans | kernel/pipe.c:87-94 | end of file is reported only with the write end closed and every byte taken returned |
| Pipe.Ring.Close | kernel/pipe.c:209-237 | one end closes and stays closed, no byte is lost, and the ring is freed exactly when both are closed |
| Pipe.Run | kernel/pipe.c:77-237 | over any interleaving of locked sections every answer is that of a bounded queue; bytes returned, then bytes stored, are the bytes taken; end of file only with everything returned |
| Nvme.FreshIff | kernel/nvme.c:111-150 | the phase bit at the head matches exactly if a completion is waiting there, and then the entry is the oldest one waiting |
| Nvme.CompletionQueue.Poll | kernel/nvme.c:111-150 | finds nothing exactly if nothing waits; otherwise takes the oldest completion once and writes the new head to the doorbell |
| Nvme.CompletionQueue.Deliver | kernel/nvme.c:133-138 | the oldest doorbell write under way reaches the device, which then knows of one more completion taken |
| Nvme.OnceInOrder | kernel/nvme.c:111-150 | each command posted is taken once, in posting order, or still waits, however late the doorbell writes arrive |
| Nvme.AnswersMean | kernel/nvme.c:111-150 | over any run a poll takes the oldest command not yet taken whenever there is one; the device posts exactly while fewer than the ring size less one are posted and not known to it as taken; a doorbell write arrives exactly if one is under way |
| Nvme.Run | kernel/nvme.c:47-150 | over any interleaving of device, driver and doorbell writes every answer is that of a queue of at most one less than the ring size, counted as far as the device knows |

## Left out

- `buddy_coalesce_all` and the memory-map parsing at boot: `AllocPages` and `FreePages` keep free buddies merged if they were merged before. The boot-time pass does not notice a merge whose result is the descriptor it started from, so it does not always establish that.
- Buddy.BuddyAllocator.MarkAvailable: for a range past the pages there are, or with pages that are managed already, the contract says nothing of the lists; the code links such pages a second time.
- Buddy.BuddyAllocator.FreePages: a pointer the checks accept must be a block handed out with that order; the code does not check the order, and the model does not say what a wrong one does.
- Slab.SlabHeap.Kfree: the pointer must be live or NULL; double frees of slab objects are not caught by the code.
- Slab free lists are sequences; in the code the links are stored in the free objects. Zeroing of pages and objects is not modelled.
- Concurrent growth of a slab cache (the `growing` flag) and the locks; each operation is one step.
- AddressSpace.Memory.MapPage: frame counts are stated for the private user half only, not for the shared slots, where the code also lowers the count of what was mapped; the no-execute bits a split drops are stated in `AttachSplit` only.
- AddressSpace.Memory.LazyFault: pages of PML4 slot 0 are shared by all processes and not part of the per-process contents; the handler serves faults there too.
- AddressSpace.Memory.WriteFault: as LazyFault; and it does not meet 2 MiB entries, see below.
- AddressSpace.Memory.StoreByte: as LazyFault.
- AddressSpace.Memory.MapFresh: as LazyFault.
- AddressSpace.Memory.constructor: the first PML4 has no kernel half; `NewSpace` copies whatever shared slots there are.
- AddressSpace.Memory.CloneTable: the three nested loops of the fork are one recursion over levels, and so is the teardown; order of visits and of allocations is the same.
- Table permissions on the upper levels, TLB invalidation, and the 32-bit wrap of reference counts.
- Faults that kill the process, kernel faults and the checks on user pointers in the page-fault handler.
- 2 MiB entries in the private user half: nothing modelled creates them, and the invariant says there are none.
- ProcMaps.ReadSelfMaps: the regions, not their text; when the buffer is full is a parameter.
- Journal.Journal.Commit: commits from a journal whose head has started over; device writes that fail within the device; the product of block number and sectors per block; areas of nearly 2^64 blocks.
- Journal.Journal.CrashInCommit: as Commit.
- Journal.Journal.Recover: for an area that holds no log and a filesystem range that is unknown or reaches into the journal, replay may overwrite what it still has to read, and nothing is said of the blocks.
- Journal.Journal.AddBlock: home blocks lie before the journal area, which the code does not check.
- Journal.Journal.Remount: recovery with its flag set, which `journal_init` does not do.
- Fat32.Volume.WriteFile: ranges that need 2^32 clusters or more, where the code cuts that number; sector-level reads and writes of the table are one step each.
- Fat32.Volume.WriteThenRead: as WriteFile.
- Fat32.Volume.FreeChain: starts that are free or bad clusters.
- Fat32.Volume.GetCluster: numbers between the end of the volume and the end-of-chain mark, where the code reads past the table; the same holds for SetCluster.
- Fat32.Volume.SetCluster: see GetCluster.
- FAT32 directories and long names; ext2 block bitmaps and indirect blocks.
- Ext2.Directory.Create: directories of direct blocks only, all of them present, whose size lies in the last one; whether a block can be allocated is a parameter.
- Ext2.Directory.FindSlot: blocks are tiled by records, see Find.
- Ext2.Directory.Find: blocks are tiled by records, so the checks for a zero record length never fire; bitmaps are sequences of bits.
- Pipe.Ring.Read: one locked section; blocking, wake-up and signals are not modelled, nor that nobody uses a ring after it is freed.
- Nvme.CompletionQueue.Poll: the submission queue and timeouts; one look at the slot, not the waiting loop.
- Scheduler, VFS, drivers, console, loaders, seccomp and cryptography.
