# MiniOS: storage, memory and scheduling, verified

This project models the parts of the MiniOS teaching kernel that manage memory, disks and the
processor, and proves what they keep over whole runs. `dafny verify dfyconfig.toml` checks all of it.

| part of the kernel | modules |
|---|---|
| free-list allocator (`kernel/memman.c`) | FreeBlocks, MemLayout, Memman, MemRuns |
| page tables and `lin_mapping_phy` (`kernel/pagetbl.c`) | PageTables, Paging |
| `fork` (`kernel/fork.c`), user heap calls (`kernel/syscallc.c`) | Fork, UserHeap |
| scheduler (`kernel/proc.c`, `kernel/clock.c`) | Scheduler |
| Orange FS bit maps and file transfer (`kernel/fs.c`) | Bitmaps, OrangeFs, OrangeRuns, OrangeFile |
| in-memory file system (`kernel/ramfs.c`, `do_vwrite` in `kernel/vfs.c`) | FlatFile, Clusters, ClusterOps, Ramfs, RamTree, RamNames |
| FAT32 (`kernel/base.c`, `WriteFile` in `kernel/fat32.c`, `kernel/assist.c`) | FatDisk, FatVolume, FatFile, FatRuns, FatNames |
| words, options and sets used everywhere | Words, Common |

Code that updates structures in place is a class whose methods change its fields; each method is tied to
a function or predicate of the old and the new state, and the lemmas are about those. Words are 32 bits
wide and wrap where the code relies on it.

What the proofs show, in short:

* **Allocator.** Free, outstanding and lost ranges partition the memory `init` leaves, in every reachable
  state; blocks stay sorted and coalesced. The guard page below a wall is never free, handed out or lost,
  wherever memory runs through the wall; where memory ends at the wall, the page below it is ordinary memory.
  A wall cut is sound exactly when no block that runs through the wall starts inside the page below it; the
  size of the left part would wrap otherwise.
* **Paging.** The two-level tables (section 4.3 of volume 3A of the Intel 64 and IA-32 manuals) refine a map
  from pages to frames; `lin_mapping_phy` is an update at one page. `fork` copies through one window page:
  the child's copied pages stand on fresh, pairwise distinct frames with the parent's bytes, and whatever
  anybody stores afterwards, on either side it is invisible to the other, except that the parent's window page
  keeps showing a page the child was given. That exception is proved to be real. `sys_malloc` compares addresses as
  signed numbers: of a block across 0x80000000 it maps nothing.
* **Scheduler.** `schedule` ends after at most one refill exactly when a ready process has credit or
  positive priority. A ready process is chosen before the clock has stepped through the others' ticks and one
  round of their priorities, with one step more if the running process has given up its credit and was
  interrupted before its decision. System calls run with interrupts on, so stores and decisions are separate
  events; a clock interrupt inside another handler ends in no decision and is not counted.
* **Orange FS.** The allocator takes the first free bit and a fixed number of bits behind it without looking.
  Over every run from `mkfs` the map is a reserved prefix plus whole slots, exactly as long as creations find
  room. The last slot is one bit short of the map, and slots of the map may lie past the device; the code sees
  neither, and both conditions are exact.
* **ramfs.** Every file is a flat byte sequence with a cursor on an acyclic chain of its own. `rf_read` clamps
  with a position it never advances; the condition under which it is exact is proved both ways. Names form
  a tree in which `find_path` is component-wise lookup. Over every sequence of calls, deletion releases a chain
  only with the last name of its file, and no cluster of any other file or directory changes; link counts never
  go down.
* **FAT32.** The cached table sector agrees with the disk in every state, edits through one sector buffer are
  pointwise, and appending is concatenation on exactly as many clusters as the bytes need. The search for free
  clusters does not look at the device's size: on a full volume it finds clusters past the end, and the exact
  condition for staying inside is proved. Lack of space is noticed for a file that has clusters and for no other.
  A file name survives its directory record exactly when it is in plain lower-case 8.3 form; a name without an
  extension comes back with a dot.

Where comments in the code promise more than the code does (the sector-map allocator, the link count, the
end-of-file clamp, the space test of the FAT32 allocator), the model follows the code.

## Model

| member | source | states |
|---|---|---|
| `FreeBlocks.TakeCount` | kernel/memman.c:125-147 | cutting an allocation off a block takes exactly the bytes handed out out of the free bytes, byte by byte |
| `FreeBlocks.TakeSeparated` | kernel/memman.c:125-147 | the list stays sorted, nonempty and strictly gapped after a cut |
| `FreeBlocks.ReleaseCount` | kernel/memman.c:224-279 | a release adds exactly the range to the free bytes; if nothing touches it and the table is full, nothing changes and the range is lost |
| `FreeBlocks.ReleaseSeparated` | kernel/memman.c:224-279 | releasing a range of which no byte is free keeps the list sorted, coalesced and strictly gapped |
| `FreeBlocks.SeparatedCountsOnce` | kernel/memman.c:224-279 | in a separated list no byte belongs to two blocks |
| `MemLayout.SegmentsSeparated` | kernel/memman.c:34-39 | the segments made from the boot loader's list are separated by at least a page |
| `MemLayout.SegmentsHold` | kernel/memman.c:34-39 | exactly which bytes the segments of a rising report hold |
| `MemLayout.SplitSound` | kernel/memman.c:41-61 | a wall cut leaves a proper free list if and only if no block that runs through the wall starts inside the page below it |
| `MemLayout.SplitCount` | kernel/memman.c:41-61 | a wall cut removes exactly the 4 KiB below the wall, and only where memory runs through it |
| `MemLayout.SplitWalls` | kernel/memman.c:41-104 | after the cut no block reaches across the wall |
| `MemLayout.SplitKeepsUncramped` | kernel/memman.c:62-104 | a cut does not spoil the condition of a later wall |
| `MemLayout.ThroughIff` | kernel/memman.c:41-104 | memory runs through a wall exactly when the bytes on both sides of it are there |
| `MemLayout.SplitKeepsThrough` | kernel/memman.c:41-104 | a cut does not change whether memory runs through another wall |
| `Memman.MemMan.constructor` | kernel/memman.c:116-123 | an empty table, no losses |
| `Memman.MemMan.CloseGap` | kernel/memman.c:125-147 | deleting entry i shifts the later ones down, in place |
| `Memman.MemMan.InsertAt` | kernel/memman.c:224-279 | making room at i shifts the later ones up, in place |
| `Memman.MemMan.TakeAt` | kernel/memman.c:129-140 | the front of a block is handed out in place, and an empty block is deleted |
| `Memman.MemMan.AllocIn` | kernel/memman.c:125-222 | first fit inside a zone, an exact fit included: the block list becomes the cut of the first block that fits, or nothing changes and the result is -1 |
| `Memman.MemMan.Alloc` | kernel/memman.c:125-147 | memory of 8 to 16 MiB that was free and is no longer; -1 exactly when no block starts at 8 MiB or above, ends the range below 16 MiB and is large enough |
| `Memman.MemMan.KAlloc` | kernel/memman.c:149-172 | the same from 6 to 8 MiB, failure included |
| `Memman.MemMan.Alloc4K` | kernel/memman.c:174-197 | one page from 16 to 32 MiB; -1 exactly when no block of a page or more has one there |
| `Memman.MemMan.KAlloc4K` | kernel/memman.c:199-222 | one page from 4 to 6 MiB, failure included |
| `Memman.MemMan.FindPosition` | kernel/memman.c:229-232 | the first block that starts after the released address |
| `Memman.MemMan.GrowLeft` | kernel/memman.c:233-250 | merging with the block before, and with the one after when they then touch |
| `Memman.MemMan.PutBack` | kernel/memman.c:229-272 | the table after a release is the specified merge, or unchanged when there is no slot |
| `Memman.MemMan.Free` | kernel/memman.c:224-279 | block list, return value, `losts` and `lostsize` after a release, all cases |
| `Memman.MemMan.SplitAt` | kernel/memman.c:41-61 | the in-place wall cut is the specified one |
| `Memman.MemMan.LoadSegments` | kernel/memman.c:34-39 | the first loop of `init` builds the list of usable segments |
| `Memman.MemMan.Init` | kernel/memman.c:25-114 | after `init` the table holds the reported segments cut at the three walls |
| `Memman.MemMan.MemTotal` | kernel/memman.c:324-331 | `memman_total` is the sum of the free blocks |
| `Memman.AllocGrants` | kernel/memman.c:125-222 | what a successful allocation grants: a range inside its zone that was free, with every other byte as before; failure only when no block fits |
| `Memman.FailsIff` | kernel/memman.c:125-222 | an allocation fails if and only if no block of the list starts in the zone, ends the range before the zone does and is at least as large |
| `Memman.LostIff` | kernel/memman.c:224-279 | a released range is lost if and only if all 4090 slots are in use and no free block touches it |
| `Memman.SegmentsGrow` | kernel/memman.c:34-39 | one more reported segment is one more block at the end |
| `Memman.InitialSound` | kernel/memman.c:41-104 | memory that is not cramped at a wall is a proper free list with all three walls standing |
| `Memman.InitialCount` | kernel/memman.c:41-104 | `init` takes away exactly the guard pages below the walls that memory runs through |
| `Memman.GuardClearIff` | kernel/memman.c:41-104 | a guard page is clear after `init` if and only if memory runs through its wall or had nothing there to begin with |
| `Memman.GuardNotClear` | kernel/memman.c:41-49 | memory that ends at the first wall keeps the page below it in the list |
| `MemRuns.AllocKeeps` | kernel/memman.c:125-222 | an allocation keeps the invariant of runs |
| `MemRuns.FreeKeeps` | kernel/memman.c:224-279 | so does the release of a live allocation |
| `MemRuns.RunKeeps` | kernel/memman.c:125-279 | over every run: free list proper, and free, live and lost bytes partition the initial memory (so total + outstanding + lost is constant) |
| `MemRuns.LiveApart` | kernel/memman.c:125-279 | two live allocations never share a byte, and no live byte is free or lost |
| `MemRuns.WallsStand` | kernel/memman.c:41-104 | in every reachable state a free, live or lost block holds only bytes `init` put in the list, and none reaches across a wall |
| `MemRuns.GuardsStand` | kernel/memman.c:41-104 | in every reachable state no byte of the guard page below a wall that memory runs through is free, live or lost |
| `MemRuns.AccountBalances` | kernel/memman.c:263-272 | in every reachable state total free, outstanding and the `lostsize` account add up to the initial memory |
| `MemRuns.RunPaged` | kernel/memman.c:174-279 | from page-aligned memory, every block of the two zones that serve pages stays aligned over any run |
| `MemRuns.FramesDistinct` | kernel/memman.c:174-222 | two live pages, of tables and directories as well as of users, are whole, aligned and have different frame numbers |
| `MemRuns.BootedRuns` | kernel/memman.c:25-279 | from any page-granular report that leaves room at the walls: the invariant, three interruptions, aligned page frames, and clear guard pages wherever memory runs through the wall |
| `Scheduler.DecidesOnce` | kernel/proc.c:21-53 | the decision is determined: two outcomes that satisfy the specification are the same |
| `Scheduler.DecisionMeans` | kernel/proc.c:21-53 | the running process goes on if it can; otherwise the first of the ready processes with most ticks is chosen, after one refill of all if none had any |
| `Scheduler.Kernel.constructor` | kernel/proc.c:21-53 | a process table with the running process inside it |
| `Scheduler.Kernel.Scan` | kernel/proc.c:34-43 | the first ready process with the greatest credit, or 0 |
| `Scheduler.Kernel.Refill` | kernel/proc.c:45-51 | every process gets its priority as ticks |
| `Scheduler.Kernel.Schedule` | kernel/proc.c:21-53 | terminates after at most one refill when a ready process has credit or priority, with the specified choice |
| `Scheduler.Kernel.Sched` | kernel/kernel.asm:472-495 | the chosen process becomes the running one, ready and with credit; nobody's ticks change unless no ready process had any |
| `Scheduler.Kernel.Yield` | kernel/proc.c:84-88 | uninterrupted, a store that gives up the credit and then a decision: two events of a run |
| `Scheduler.Kernel.SleepOn` | kernel/proc.c:91-103 | uninterrupted, one round of a sleep: channel, status and decision, three events of a run |
| `Scheduler.Kernel.Wakeup` | kernel/proc.c:108-117 | every process that slept on the channel is ready, with its other fields as before, and every other process is unchanged |
| `Scheduler.Kernel.ReadyUp` | kernel/hd.c:180-194 | the disk driver makes the process of a finished request ready: one event of a run |
| `Scheduler.Kernel.Kill` | kernel/protect.c:297-298 | the exception handler ends the running process: one event of a run |
| `Scheduler.Kernel.ClockTick` | kernel/clock.c:20-34 | the counter moves, the running process loses a tick, and no process is left sleeping on ticks; then a decision unless another handler was interrupted; only the counter during kernel initialisation |
| `Scheduler.Kernel.AllocPcb` | kernel/proc.c:58-70 | the first idle entry past the kernel's own, or failure when there is none |
| `Scheduler.RefillHelps` | kernel/proc.c:45-51 | one refill is enough when a ready process has positive priority |
| `Scheduler.RefillHopeless` | kernel/proc.c:32-52 | otherwise no number of refills ever gives anybody credit: the loop would not end |
| `Scheduler.StoreSpends` | kernel/clock.c:20-34 | no store of a call or an interrupt touches a waiting process, changes a priority or creates credit; a clock step takes one tick off the running process |
| `Scheduler.DecisionSpends` | kernel/proc.c:21-53 | a decision that passes it over does not raise its patience, and ends the extra step when the running process had no credit |
| `Scheduler.StepSpends` | kernel/proc.c:21-53 | any event leaves no more patience, and a clock step with its decision one less |
| `Scheduler.PatienceRunsOut` | kernel/proc.c:21-53 | along a run in which the process waits there are fewer clock steps than its patience |
| `Scheduler.TickWakes` | kernel/clock.c:20-34 | a process that sleeps on ticks is ready after the next clock step of any run, with a decision or without |
| `Scheduler.BoundedWaiting` | kernel/proc.c:21-53 | a ready process of positive priority is chosen before the clock has stepped through the others' ticks and one round of the others' priorities, one step more if the running process has just given up its credit; interrupts may fall between any store and its decision |
| `Scheduler.PreemptedYield` | kernel/proc.c:84-88 | an interrupted yield costs that step: the bound is reached |
| `OrangeFs.SkipOnes` | kernel/fs.c:1049-1054 | the lowest clear bit of a byte |
| `OrangeFs.SetBits` | kernel/fs.c:1056-1063 | setting bits of one byte from a start on, as many as are left |
| `OrangeFs.FillSector` | kernel/fs.c:1043-1070 | one sector of the map: where the run starts, which bits are set, how many are left |
| `OrangeFs.OrangeFs.AllocImapBit` | kernel/fs.c:983-1019 | sets the first free bit of the first inode-map sector and returns its number; 0 and no change when that sector is full |
| `OrangeFs.OrangeFs.FillMapSector` | kernel/fs.c:1038-1080 | one turn of the sector loop keeps the account of what has been set |
| `OrangeFs.OrangeFs.AllocSmapBit` | kernel/fs.c:1032-1082 | the whole sector map becomes itself with n bits set from its first free bit on, across sectors; the result is that bit's sector |
| `OrangeFs.OrangeFs.MapPlace` | kernel/fs.c:1038-1082 | bit b of the sector map is bit b % 4096 of sector 2 + nrImap + b / 4096 |
| `OrangeFs.OrangeFs.FreeImapBit` | kernel/fs.c:1384-1392 | exactly the inode's bit is cleared |
| `OrangeFs.OrangeFs.NextSector` | kernel/fs.c:1430-1435 | writing the buffer and reading on keeps what has been cleared |
| `OrangeFs.OrangeFs.ClearBytes` | kernel/fs.c:1427-1438 | whole bytes cleared, across map sectors |
| `OrangeFs.OrangeFs.FreeSmapBits` | kernel/fs.c:1409-1448 | exactly the bits from b on, as many as the file has sectors, are cleared, for any offset and length |
| `OrangeFs.OrangeFs.CreateFile` | kernel/fs.c:510-525 | one inode bit and one slot of sector bits |
| `OrangeFs.OrangeFs.Unlink` | kernel/fs.c:1384-1448 | both maps after an unlink |
| `OrangeFs.OrangeFs.Mkfs` | kernel/fs.c:195-244 | the two maps of a fresh file system |
| `OrangeFs.OrangeFs.Install` | kernel/fs.c:223-244 | the installed archive's bits are set, one by one, across sectors |
| `OrangeRuns.FreshIsSlotted` | kernel/fs.c:195-244 | the fresh map satisfies the slot invariant |
| `OrangeRuns.FirstFreeIsSlot` | kernel/fs.c:1032-1082 | in a slotted state the first free bit starts a slot that is free throughout: what the allocator silently relies on |
| `OrangeRuns.CreateKeeps` | kernel/fs.c:510-525 | creation with room keeps the slot invariant |
| `OrangeRuns.CreateKeepsIff` | kernel/fs.c:510-525 | creation keeps the slot invariant if and only if there is a free inode and a whole slot; without, the code goes on all the same |
| `OrangeRuns.UnlinkKeeps` | kernel/fs.c:1384-1448 | unlinking keeps it |
| `OrangeRuns.RunKeepsSlots` | kernel/fs.c:1032-1082 | in all states of a run the sector map is the reserved prefix plus the live files' slots, if and only if every creation found room |
| `OrangeRuns.NoSharing` | kernel/fs.c:1032-1082 | two live files never share a sector bit, and none owns a reserved one |
| `OrangeRuns.CreateUnlinkRestores` | kernel/fs.c:1384-1448 | unlink right after create restores both maps bit for bit |
| `OrangeRuns.LastSlotIsShort` | kernel/fs.c:1043-1082 | the allocator does not check the end of the map: a found slot lies inside it exactly when it is not the last one, which is one bit short |
| `OrangeRuns.SlotsOnDevice` | kernel/fs.c:160-166 | all slots of the map lie on the device if and only if the device is smaller than one map sector covers, or its last map sector is used far enough |
| `OrangeRuns.SlotOffDevice` | kernel/fs.c:160-166 | on a device of 409600 sectors a file can be given sectors the device does not have |
| `OrangeRuns.CreatedOnDevice` | kernel/fs.c:160-166 | with fewer live files than the device holds, the next file lies on the device |
| `OrangeRuns.MakeFs` | kernel/fs.c:195-244 | the volume `mkfs` writes is the fresh state of the runs |
| `OrangeRuns.CreateStep` | kernel/fs.c:510-525 | `create_file` on the volume takes the creating step, room or not, and keeps the invariant exactly when there is room |
| `OrangeRuns.UnlinkStep` | kernel/fs.c:1384-1448 | `do_unlink` of a live file takes the unlinking step |
| `OrangeFile.OrangeFile.DoWrite` | kernel/fs.c:1233-1293 | bytes on disk, cursor, size and result of a write through a one-sector buffer |
| `OrangeFile.OrangeFile.DoRead` | kernel/fs.c:1233-1293 | bytes returned, cursor and size after a read; past the end of the file too |
| `OrangeFile.WriteFitsIff` | kernel/fs.c:1233-1256 | a write moves the whole buffer and stays inside the file's sectors if and only if it fits there |
| `OrangeFile.ReadExactIff` | kernel/fs.c:1233-1256 | a read returns what is left and leaves the size alone if and only if it asks for no more |
| `OrangeFile.WriteSplices` | kernel/fs.c:1254-1291 | inside its sectors a write is a splice of the file's content, and every other file's bytes stay |
| `FlatFile.SpliceTwice` | kernel/vfs.c:397-422 | two writes in a row are one write of the joined buffers |
| `Clusters.LeakedGood` | kernel/ramfs.c:20-25 | a failed allocation leaves its entry marked, and every chain and its bytes as they were |
| `Clusters.TakenGood` | kernel/ramfs.c:20-29 | a successful one yields a zeroed cluster that is on no chain |
| `Clusters.StartGood` | kernel/ramfs.c:31-41 | such a cluster may start a new chain, disjoint from the others |
| `Clusters.LinkGood` | kernel/ramfs.c:357-407 | or be hung behind a chain: that chain's bytes get a page of zeros, the others keep theirs |
| `Clusters.PokeGood` | kernel/ramfs.c:357-407 | copying into a cluster patches exactly that file's bytes |
| `Clusters.FreedAllExact` | kernel/ramfs.c:43-54 | releasing a chain zeroes exactly its entries |
| `Clusters.FreedGood` | kernel/ramfs.c:43-54 | and leaves all other chains and bytes alone |
| `ClusterOps.AllocClu` | kernel/ramfs.c:20-29 | what a cluster allocation does, failure included |
| `ClusterOps.FindFirstFreeAlloc` | kernel/ramfs.c:31-41 | the lowest unused entry; out of memory exactly when there is none or no page |
| `ClusterOps.GrowChain` | kernel/ramfs.c:372-384 | a chain longer by one zeroed cluster, all other chains and bytes as before |
| `ClusterOps.FreeClu` | kernel/ramfs.c:43-54 | terminates and frees exactly the chain |
| `Ramfs.RamFs.constructor` | kernel/ramfs.c:163-170 | the initial state is sound and tight |
| `Ramfs.RamFs.RfAttach` | kernel/ramfs.c:263-296 | the first of 128 descriptors that is free, at position 0, and one more open count; failure exactly when all are in use |
| `Ramfs.RamFs.RfClose` | kernel/ramfs.c:301-314 | descriptor gone, open count one less |
| `Ramfs.RamFs.GrowChain` | kernel/ramfs.c:357-407 | a chain longer by one zeroed cluster |
| `Ramfs.RamFs.SeekCluster` | kernel/ramfs.c:357-407 | the cluster of the write position, growing the chain at its end |
| `Ramfs.RamFs.CopyWhole` | kernel/ramfs.c:357-407 | the copy loop: the file holds the buffer, or exactly the returned prefix when clusters run out |
| `Ramfs.RamFs.RfWrite` | kernel/ramfs.c:357-407 | refused if and only if bit 1 of the mode is clear, with nothing changed; else content becomes old[..pos] + buf + old[pos+n..], size and cursor follow, every other file keeps content and chain; a short write stores exactly the returned prefix |
| `Ramfs.RamFs.DoVWrite` | kernel/vfs.c:397-422 | refused on the same bit; else 512-byte pieces leave file, size and cursor as one whole write does; on failure the stored prefix is exact |
| `Ramfs.WroteTwice` | kernel/vfs.c:397-422 | two consecutive writes through a descriptor mean one |
| `Ramfs.ContentAt` | kernel/ramfs.c:357-407 | byte i of a file is byte i % 4096 of the page of cluster i / 4096 along its chain |
| `Ramfs.RamFs.ReadPieces` | kernel/ramfs.c:321-354 | the bytes the read loop collects, with its never-advancing clamp |
| `Ramfs.RamFs.RfRead` | kernel/ramfs.c:321-354 | refused if and only if bit 1 of the mode is clear; else result, cursor and the final assertion of a read |
| `Ramfs.ReadExactIff` | kernel/ramfs.c:334-352 | a read inside a tight chain returns the rest of the file if and only if the request ends inside the file, or the file ends in the cursor's cluster, or on a cluster boundary; otherwise it runs past the end |
| `Ramfs.RamFs.RfLseek` | kernel/ramfs.c:409-433 | the three whences, and rejection of positions outside the file |
| `Ramfs.RamFs.NewFile` | kernel/ramfs.c:235-239 | a new file is empty, on one cluster of its own; all other files are as before |
| `Ramfs.RamFs.RfDelete` | kernel/ramfs.c:481-497 | refused while linked or open; otherwise the chain's entries are zeroed and every other entry and file kept |
| `RamTree.AddedFound` | kernel/ramfs.c:190-245 | the path that created a record finds it |
| `RamTree.AddedKeeps` | kernel/ramfs.c:190-245 | every path found before leads where it did |
| `RamTree.AddedOnly` | kernel/ramfs.c:190-245 | after adding a file, only the new name in its directory is found anew |
| `RamTree.GoneOnly` | kernel/ramfs.c:481-497 | once a file's record is freed, the paths that led to it lead to an absent name and all others where they did |
| `RamTree.PutDirectory` | kernel/ramfs.c:75-101 | a new directory holds itself and its parent, and the tree stays well formed |
| `RamTree.SharedAdded` | kernel/ramfs.c:135-160 | cells and clusters stay shared by the same names |
| `RamTree.CountsAdded` | kernel/ramfs.c:135-160 | link counts still cover the names beyond the first |
| `RamTree.OnlyName` | kernel/ramfs.c:481-497 | at count 0 a file has no second name |
| `RamTree.LookupName` | kernel/ramfs.c:201-243 | a plain name leads to the live record of that name in the directory, of whatever kind, and is absent if and only if there is none |
| `RamTree.LookupBelow` | kernel/ramfs.c:201-232 | behind a slash the search goes on in the live directory of that name; without one there is no ancestor, whatever file has the name |
| `RamNames.NameSpace.constructor` | kernel/ramfs.c:163-170 | the empty root directory satisfies the invariant |
| `RamNames.NameSpace.WriteRecord` | kernel/ramfs.c:103-160 | the first free record gets the name, for a new file, a new directory or an old file |
| `RamNames.NameSpace.NextComponent` | kernel/ramfs.c:201-232 | one turn of the loop of `find_path`: the next name decides the place, or where the search goes on |
| `RamNames.NameSpace.Descend` | kernel/ramfs.c:197-244 | the loop of `find_path` computes component-wise lookup |
| `RamNames.NameSpace.FindPath` | kernel/ramfs.c:190-245 | finds what lookup finds if of the kind asked for; NULL for a missing ancestor; with O_CREAT makes exactly one record where only the last name is missing, on a chain of its own, and fails there exactly when there is no unused entry or no page; every chain of clusters keeps its clusters and bytes |
| `RamNames.MadeFound` | kernel/ramfs.c:190-245 | that name is then found, and all other found paths keep their results |
| `RamNames.NameSpace.FindFile` | kernel/ramfs.c:249-262 | the same with the whole state: a file found is one that was there, a new one has the last name, a new cell with count 0 and a new chain |
| `RamNames.NameSpace.Open` | kernel/ramfs.c:249-296 | find or make a file and count one more descriptor; a new file has the last name, count 0 and a chain of its own; it is found and every other path, found or not, leads where it did; making it fails exactly when clusters run out |
| `RamNames.NameSpace.Close` | kernel/ramfs.c:301-314 | one descriptor fewer, refused at none; nothing else changes |
| `RamNames.NameSpace.Grow` | kernel/ramfs.c:357-407 | a file's chain grows at its end, and fails exactly when clusters run out; all other chains keep their clusters and bytes |
| `RamNames.NameSpace.CreateDir` | kernel/ramfs.c:440-443 | a directory is found or made, empty but for itself and its parent; found paths lead where they did; making it fails exactly when clusters run out |
| `RamNames.NameSpace.Link` | kernel/ramfs.c:542-566 | one more name for the old file's chain and one more in the shared count, and no other path changes; an existing target is counted all the same; which calls fail, exactly |
| `RamNames.NameSpace.Delete` | kernel/ramfs.c:481-497 | at count 0 and with nobody open through the name, the file had no other name; exactly its own chain's entries are zeroed, no cluster of it is on another chain, all other chains keep clusters and bytes, and every other path leads where it did; else nothing changes |
| `RamNames.DeleteMeans` | kernel/ramfs.c:481-497 | a deletion goes through if and only if the path leads to a file with count 0 that nobody has open by this name; its record and all entries of its chain are then free |
| `RamNames.NameSpace.Unlink` | kernel/ramfs.c:519-539 | at count 0 deletes, or is refused with nothing changed; otherwise the name goes and every other path leads where it did, and the count stays because the decrement moves the pointer |
| `RamNames.Released` | kernel/ramfs.c:481-497 | at count 0 the name is the file's only one, and without it and its chain tree, counts and chains are as sound as before |
| `RamNames.ReleaseKeeps` | kernel/ramfs.c:43-54 | releasing one file's chain keeps every other chain, directories above all |
| `RamNames.MadeThenGone` | kernel/ramfs.c:235-245 | making a name and removing it gives every path back what it led to |
| `PageTables.PutEntry` | kernel/pagetbl.c:262-269 | writing one entry of an owned table changes one translation of one directory |
| `PageTables.WalkIs` | kernel/pagetbl.c:198-247 | the hardware's walk in numbers: bit 0 of both words, the upper 20 bits as frames, the lower 12 as attributes |
| `PageTables.NewTable` | kernel/pagetbl.c:305-322 | a zeroed new table changes no translation and is owned by one slot |
| `PageTables.NewDirectory` | kernel/pagetbl.c:31-47 | a zeroed new directory translates nothing and disturbs nobody |
| `PageTables.CopyFrame` | kernel/fork.c:91-91 | copying a user frame changes no translation |
| `Paging.Machine.constructor` | kernel/pagetbl.c:31-66 | no directories yet, the frames in their pools |
| `Paging.IndicesArePage` | kernel/pagetbl.c:167-178 | directory and table index together are the page number |
| `Paging.Machine.WalkIsEntry` | kernel/pagetbl.c:198-247 | the entry that `phy_exist` tests and `get_page_phy_addr` reads is the one the hardware finds |
| `Paging.Machine.KMalloc4K` | kernel/memman.c:303-306 | a kernel frame out of the pool, or -1 |
| `Paging.Machine.Malloc4K` | kernel/memman.c:298-301 | a user frame out of the pool, or -1 |
| `Paging.Machine.EnsureTable` | kernel/pagetbl.c:302-326 | the page's table exists afterwards and no translation has changed; a slot that was absent has the attributes asked for, every other slot its old word |
| `Paging.Machine.WritePte` | kernel/pagetbl.c:355-360 | exactly one translation is replaced |
| `Paging.Machine.MapGiven` | kernel/pagetbl.c:296-363 | the page is mapped to the given frame, or nothing changes for an unaligned address; a new slot has the attributes asked for |
| `Paging.Machine.MapFresh` | kernel/pagetbl.c:328-347 | a present page changes nothing at all; an absent one gets a frame out of its zone's pool, or -1 when the pool is empty; a new slot has the attributes asked for |
| `Paging.Machine.LinMappingPhy` | kernel/pagetbl.c:296-363 | the translation changes at the given page only; a slot that was absent has exactly pde_Attribute in its low bits, every other slot its old word; tables stay owned by one slot each |
| `Paging.StaysOpen` | kernel/pagetbl.c:302-326 | calls that keep or open slots keep every user page reachable and writable at the directory level |
| `Paging.Machine.MakeDirectory` | kernel/pagetbl.c:34-47 | an empty directory for the process, and nobody else's view changed |
| `Paging.Machine.MapKernelPage` | kernel/pagetbl.c:50-62 | one more page of the kernel half shows the frame of its own number |
| `Paging.Machine.InitPagePte` | kernel/pagetbl.c:31-66 | the new directory translates the 128 MiB kernel half to the bottom of memory and nothing else; exactly 33 kernel frames are spent |
| `Paging.IdentityNumbers` | kernel/pagetbl.c:31-66 | in numbers: frame q - 0xC0000 with attribute 3 behind pages 0xC0000 to 0xC7FFF, and no table below |
| `Fork.PagesUpAre` | kernel/fork.c:78-85 | which pages an upward region loop visits, and how many turns it takes |
| `Fork.PagesUpCover` | kernel/fork.c:78-85 | it visits every page of the region if and only if the region does not run over a page boundary its last step stops short of |
| `Fork.PagesDownAre` | kernel/fork.c:126-137 | the same for the downward stack loop |
| `Fork.PagesDownCover` | kernel/fork.c:126-137 | with its exact condition |
| `Fork.CopyBytes` | kernel/fork.c:91-91 | the copy through the window, in terms of what the running process maps |
| `Fork.RefillWindow` | kernel/fork.c:89-90 | the window is cleared and gets a frame nobody uses |
| `Fork.CopyPage` | kernel/fork.c:87-98 | one page: the child has a fresh frame with the parent's bytes, and only the window differs for the parent |
| `Fork.SharePage` | kernel/fork.c:78-85 | one code page: the parent's frame, read-only |
| `Fork.CopyUp` | kernel/fork.c:87-98 | a whole upward region, with exact use of the frame pool |
| `Fork.CopyDown` | kernel/fork.c:126-137 | the stack |
| `Fork.ShareUp` | kernel/fork.c:78-85 | the code region |
| `Fork.CopiedMore` | kernel/fork.c:87-98 | one more copied page keeps freshness, distinctness and equality of bytes of all the others |
| `Fork.ForkMemCpy` | kernel/fork.c:74-150 | the whole copy: shared code, copied data, reserved, heap, stack and argument pages |
| `Fork.ChildReadsParents` | kernel/fork.c:74-150 | at every page of its regions the child reads what the parent read |
| `Fork.OthersReadOn` | kernel/fork.c:74-150 | the parent and everybody else read on, but at the window |
| `Fork.CopiesStandAlone` | kernel/fork.c:74-150 | no other user page of any process shows a copied page's frame, but the parent's window |
| `Fork.ChildStoreIsPrivate` | kernel/fork.c:74-150 | a word the child stores in a copied page is read nowhere else, but at the parent's window |
| `Fork.OthersStoreUnseen` | kernel/fork.c:74-150 | a word anybody else stores, elsewhere than at the window, is not read by the child at a copied page |
| `Fork.StoresStayPrivate` | kernel/fork.c:74-150 | after any stores by any processes outside the window, a copied page of the child reads its old words and the child's own stores in order |
| `Fork.StoresUnseen` | kernel/fork.c:74-150 | and every other page reads what it would without the child's stores |
| `Fork.ForkIsolates` | kernel/fork.c:74-150 | both, for any sequence of stores after a fork |
| `Fork.WindowLeaks` | kernel/fork.c:89-95 | the exception is real: some page of the child reads what the parent stores at the window |
| `Fork.ForkPcbCpy` | kernel/fork.c:156-205 | the child keeps its id, page directory, selector, kernel stack and flags, and takes everything else, the memory map above all, from the parent |
| `Fork.ForkSpace` | kernel/fork.c:22-46 | directory, table entry and pages of the child in one |
| `Fork.SysFork` | kernel/fork.c:22-67 | from a parent with mapped regions and enough frames: the child is ready, returns 0, has the parent's map; text, data, reserved, heap, stack and arguments read as the parent's, byte by byte, the five copied ones on frames of its own that it may write; other user pages are absent, the kernel half is there, and nobody else reads another byte, but at the window; -1 and nothing changed without a table entry |
| `Fork.AllRegionsThere` | kernel/fork.c:74-150 | the pages the six loops visit are the pages of the six regions, each under the exact condition of its loop |
| `Fork.AddressCopied` | kernel/fork.c:87-148 | at every address of a copied region the child reads the parent's byte, on a frame out of the pool that is the user's to write, page and table |
| `Fork.OthersBytes` | kernel/fork.c:74-150 | everybody else reads the same bytes at every user page but the window |
| `Fork.DuplicatedAfter` | kernel/fork.c:22-46 | composition of the new directory and the copy |
| `UserHeap.BlockCovered` | kernel/syscallc.c:58-72 | every byte of a block lies on a page that was asked for if and only if the last byte is on the last word's page; always so for word-aligned blocks |
| `UserHeap.BlockNotCovered` | kernel/syscallc.c:58-72 | two bytes at the end of a page are such a gap |
| `UserHeap.LoopEnds` | kernel/syscallc.c:63-63 | the signed loop ends if and only if the block does not end in the last word below 0x80000000, off the word's boundary |
| `UserHeap.AskedIff` | kernel/syscallc.c:63-70 | the pages of a block's words are asked for if and only if the block does not reach across 0x80000000 |
| `UserHeap.CrossingBlock` | kernel/syscallc.c:63-70 | two pages of the heap region that are handed out and never asked for |
| `UserHeap.SysMalloc` | kernel/syscallc.c:58-72 | the heap limit moves; for a block across 0x80000000 that is all; else pages already mapped stay, the others get distinct fresh frames that the user may write, unless the pool runs dry; nothing else changes and no frame is lost |
| `UserHeap.BlockUsable` | kernel/syscallc.c:58-72 | every byte of a word-aligned block is then on a page present for the user, page and table, unless the pool ran dry |
| `UserHeap.SysFree4K` | kernel/syscallc.c:107-118 | the mapping goes and the frame returns to the pool |
| `UserHeap.GivenBack` | kernel/syscallc.c:107-118 | giving the frame back is sound if and only if no other user page shows it |
| `UserHeap.FreeUndoesMalloc` | kernel/syscallc.c:58-118 | free after malloc restores every translation and the pool |
| `FatDisk.WordPut` | kernel/base.c:600-636 | a table entry is four little-endian bytes; writing one changes no other |
| `FatDisk.EntryPlace` | kernel/base.c:261-267 | the code's 32-bit byte arithmetic finds the entry's sector and offset, for entries 0 and 1 too |
| `FatDisk.EntryBytes` | kernel/base.c:261-267 | entry c of the first table is the four bytes at 4 * (c % 128) of its sector c / 128, lowest first |
| `FatDisk.TablePut` | kernel/base.c:600-636 | one word written in a table sector is one entry of the table changed |
| `FatDisk.LinkedIsChain` | kernel/base.c:600-636 | distinct clusters linked in order are a chain |
| `FatDisk.LinkedEntries` | kernel/base.c:600-636 | linked entries in numbers: each the next cluster, the last 0x0FFFFFFF |
| `FatDisk.ContentAt` | kernel/base.c:157-190 | byte i of a file: sector (i / 512) % 8 of its cluster i / 4096, behind the reserved sectors and two tables |
| `FatDisk.AppendIsChain` | kernel/base.c:665-695 | linking on from the last cluster makes the longer chain |
| `FatDisk.ChainUnique` | kernel/base.c:351-384 | a chain is determined by its first cluster |
| `FatDisk.FreesAre` | kernel/base.c:725-769 | the free list is exactly the zero entries, in order |
| `FatDisk.FreesBelow` | kernel/base.c:725-769 | the first n free clusters are all below a bound if and only if n of those below it are free |
| `FatDisk.SearchStaysIff` | kernel/base.c:725-769 | the clusters the search finds lie on the device and have their entries in the first table if and only if there are enough such free ones |
| `FatDisk.FormattedFits` | kernel/fat32.c:621-629 | a formatted volume is one the table code works on, and its table always has entries for clusters that are not on the device |
| `FatDisk.SearchLeavesDevice` | kernel/base.c:725-769 | so on every formatted volume with all its clusters taken the search finds a cluster past the end of the device |
| `FatDisk.FreshRoom` | kernel/fat32.c:621-680 | a fresh volume has room for exactly the clusters of its device but the root directory's |
| `FatDisk.TooFewFrees` | kernel/base.c:725-769 | when the search finds too few there are none to be had |
| `FatVolume.Volume.constructor` | kernel/base.c:33-34 | nothing is cached at the start |
| `FatVolume.Volume.WriteSector` | kernel/base.c:44-54 | the disk changes at one sector and the cached table sector still agrees with it |
| `FatVolume.Volume.GetNextCluster` | kernel/base.c:261-275 | always the entry now on the disk, whatever was written since the sector was cached |
| `FatVolume.Volume.LinkTurn` | kernel/base.c:611-631 | one turn of the linking loop through one sector buffer |
| `FatVolume.Volume.WriteFAT` | kernel/base.c:600-636 | the table after linking any clusters one by one; for distinct ones each entry names the next, the last is end-marked; every other entry and sector is as it was |
| `FatVolume.Volume.ClearFATs` | kernel/base.c:351-384 | terminates on a chain and zeroes exactly its entries |
| `FatVolume.Volume.ClearClusters` | kernel/base.c:771-783 | exactly the cluster's eight sectors are zero |
| `FatVolume.Volume.SearchFree` | kernel/base.c:725-759 | the free clusters in front of what the array held; success exactly when there are enough |
| `FatVolume.Volume.FindClusterForFile` | kernel/base.c:725-769 | the first n free clusters, wiped; or too few, the array partly filled and nothing written |
| `FatFile.NeedMoreCluster` | kernel/base.c:697-723 | for an append at off, exactly the missing number of clusters |
| `FatFile.AllotClusters` | kernel/base.c:638-663 | a new chain of the first free clusters; without enough of them a chain through whatever the array held, and success reported all the same |
| `FatFile.MisallottedNotFree` | kernel/base.c:650-657 | that happens only when no such free clusters exist |
| `FatFile.MisallottedShares` | kernel/base.c:650-657 | the failing call: on a full table the new file gets another file's first cluster and cuts that file short |
| `FatFile.AddCluster` | kernel/base.c:665-695 | chain C becomes C + N with N the first free clusters; too few free ones: nothing changes |
| `FatFile.GetNextSector` | kernel/base.c:192-259 | from sector x of a file to sector x + 1 |
| `FatFile.GetFileOffset` | kernel/base.c:157-190 | stepping finds sector (off / 512) % 8 of chain[off / 4096] |
| `FatFile.FillChain` | kernel/fat32.c:274-292 | the buffer stands along the chain from the old end on, nothing else has changed |
| `FatFile.MakeRoom` | kernel/fat32.c:240-270 | lack of space is reported, with nothing written, if and only if the file already has clusters; where there is room, the chain grows by the first free clusters; a first write without room is misallotted |
| `FatFile.WriteFile` | kernel/fat32.c:233-295 | an append: content becomes content + buf on exactly ceil(size / 4096) clusters; refused exactly with flags other than 2, 3 and 6; a refusal, and lack of space for a file that has clusters, change nothing |
| `FatFile.ExtendThenStore` | kernel/fat32.c:255-292 | growing the chain and filling it appends |
| `FatRuns.RunConcatenates` | kernel/fat32.c:233-295 | any run of writes to a new file: the bytes along the chain are the concatenation, the chain has ceil(total / 4096) clusters |
| `FatRuns.AppendKeepsOthers` | kernel/fat32.c:233-295 | any other file keeps its chain and its bytes |
| `FatRuns.RunTouchesFree` | kernel/fat32.c:233-295 | a run on a new file changes the table at the file's own clusters only, and these were free when it began |
| `FatRuns.DeleteUndoesRun` | kernel/base.c:351-384 | so clearing the file's chain after any run gives back the table the run began with |
| `FatRuns.ClearKeepsOthers` | kernel/base.c:351-384 | clearing one chain keeps the others |
| `FatRuns.ChainsMeet` | kernel/base.c:351-384 | two chains that share a cluster share all the following ones |
| `FatNames.FormatFileNameAndExt` | kernel/assist.c:193-234 | name and extension as the record stores them |
| `FatNames.StoredIs` | kernel/assist.c:193-234 | character by character: capitals for a to z, spaces behind, a zero where there is no extension |
| `FatNames.GetNameFromRecord` | kernel/base.c:522-558 | the name read back, lower case, trimmed |
| `FatNames.NameRoundTrip` | kernel/base.c:522-558 | a name comes back as it was written if and only if it has at most eight characters without spaces, a dot, one to three more of which the last is no space, and no capitals |
| `FatNames.NoDotNoMatch` | kernel/assist.c:220-233 | a name without an extension comes back different |
| `FatNames.FormatDirNameAndExt` | kernel/assist.c:236-256 | a directory's name as the record stores it: dots kept, no extension |
| `FatNames.StoredDirIs` | kernel/assist.c:236-256 | character by character, dots like the rest |
| `FatNames.DirRoundTrip` | kernel/base.c:522-558 | it comes back as it was written if and only if it has at most eight characters, no space and no capital |

## Left out

- Port I/O, disk controllers, console, boot code and the hardware's translation cache: a disk is a sequence of sectors and sector transfers are atomic.
- Page-fault handling, threads, ELF loading, and the system calls' argument decoding.
- Failure of a kernel frame allocation inside `lin_mapping_phy` and `init_page_pte`: the code then clears memory through the error value; the model requires a frame where a table or directory is missing.
- UserHeap.SysMalloc: sizes are not negative and the block ends below the kernel's addresses; the one block whose loop never ends is excluded, its condition is the one of LoopEnds.
- UserHeap.SysFree4K: requires a page that is mapped and that no other user page shows, which GivenBack proves necessary; freeing an absent page, which gives back what its old entry names, is not modelled.
- Fork.SysFork: names, the process tree and the open files that the copied entry shares with its parent are left out.
- Scheduler.Kernel.ClockTick: the tick counter is an unbounded number; the wrap of the 32-bit counter in sleep comparisons is not modelled.
- Scheduler.Kernel.Sched: switching stacks and saved registers is left out; of nested interrupts only the effect on the process table is modelled.
- Scheduler.BoundedWaiting: creation of processes during the wait is excluded, as each new process adds its own priority.
- OrangeFs.OrangeFs.Unlink: requires a run of bits inside the map, which the short last slot is not; shrinking of the parent directory and unlinking of the installed archive are left out.
- OrangeFs.OrangeFs.CreateFile: inode records and directory entries are left out, only the two maps are modelled.
- OrangeFile.OrangeFile.DoRead: transfers on terminals are left out.
- Ramfs.RamFs.constructor: the cluster table starts as zeros, although the code does not clear the memory it allocates for it.
- Ramfs.RamFs.RfAttach: the per-process table of open files is left out, descriptors are those of the system-wide table.
- RamNames.NameSpace.FindPath: directories have one cluster, the directory that gets a name has a free record, and names fit their buffer; directory sizes are left out.
- RamNames.NameSpace.Link: hard links to directories and `rf_delete_dir` are left out.
- RamNames.NameSpace.Delete: a descriptor may stay open on a linked file's name that has gone; what is written through it is not modelled here.
- RamNames.NameSpace.Grow: of a write only the change of the cluster table is modelled here, its bytes are in Ramfs.
- FatVolume.Volume.FindClusterForFile: requires that enough found clusters are on the device, in the sense of SearchStaysIff; what the disk driver does with sectors past the end is not part of this model.
- FatFile.AllotClusters: what the array holds before the search are entries of the table at worst.
- FatFile.WriteFile: a first write without room is modelled up to the misallotted chain (MakeRoom), not the bytes it then overwrites; an empty buffer is excluded, since for a new file the code would write a scratch buffer over sector 0; the file's end is its offset, as for files written from their beginning.
- FatFile.GetNextSector: files opened read-only, and the flag that marks a file's last sector, are left out.
- Directory search and creation in the FAT layer, `ReadFile` past a file's size, formatting and record deletion.
- FatNames.GetNameFromRecord: requires that something is left after trimming, since for a blank record the code runs off the front of its buffer.
- `process_relative_path` and the mount tables of the virtual file system, exit and wait, and the hard disk request queue.
