# SerpaeOS in Dafny

This project models the parts of the SerpaeOS kernel and its user library where
the hard guarantees sit, and proves them:

- **Disk and FAT16** — a byte stream over 512-byte sectors (`Streamer`), the
  file allocation table stored in it (`Fat16Volume`), the theory of cluster
  chains (`FatChains`), reading files through their chains (`Fat16Read`) and the
  FAT32 read path (`Fat32Read`).
- **Memory** — the block heap (`KernelHeap`), two-level page tables as bytes in
  physical memory (`PageTables`, `Paging`), a process's allocations
  (`ProcessMemory`), processes beside one another (`Isolation`), mapping an ELF
  image (`ElfMap`) and copying a string out of a task (`TaskString`).
- **Scheduling** — the task list with hosted, sleeping processes as a transition
  system (`Scheduler`), what each of its events does and that every task gets its
  turn (`SchedulerLaws`), the list as linked nodes (`TaskList`), and the proof that
  the nodes refine the system (`TaskSystem`).
- **Text and queues** — the tokenizer, the command line and the new process's
  argument vector (`Strtok`, `CommandLine`, `ArgumentVector`), the path parser
  (`PathParser`), decimal printing (`Decimal`) and the keyboard ring
  (`KeyboardRing`).

`Status`, `Basics` and `Bytes` hold shared vocabulary. Code that updates state in
place is modelled as classes and methods, each proved against a specification
function or predicate; what the system promises is then proved of those.

Where a promised property does not hold of the code, the code is kept and the
exact condition is proved:

- growth does not see a last cluster numbered 0xFFF8 or more, which reading follows
  and erasing follows up to 0xFFFE (`WalkersDisagree`): the next link loses it, and
  0xFFFF is lost at once (`SecondLinkLoses`). The shipped geometry reaches them
  exactly when no lower cluster is free (`WildCandidateIff`), and then a grown chain
  can fall short of the recorded size (`CapacityIff`, `ShippedCapacityFails`);
- an unaligned read is a slice of the file only if the boundaries it crosses join
  adjacent clusters (`ReadsTrueIff`, `UnsafeReadIsWrong`), and the FAT16 walker
  refuses four ordinary cluster numbers (`GetClusterForOffset`) and 0xFFF7, which the
  shipped geometry's allocator also hands out (`BadMarkHandedOut`);
- the heap scan overruns its table exactly when nothing fits and the table ends
  free (`OverrunIff`), and a free spoils the table exactly when its pointer leads
  into a run (`KernelHeap.Heap.Free`);
- an ELF segment translates exactly when its address and offset agree modulo the
  page size (`TranslatesIffCongruent`);
- copying a string out of a task restores its mapping exactly when no byte of the
  string lies on a page that is not present (`CopyStringFromTask`);
- unlinking a task works exactly when its `prev` serves (`TaskList.List.Remove`),
  and freeing a process's tasks exactly when all of theirs do and no two are
  neighbours (`TaskList.List.FreeAll`), which a process that starts a thread right
  after it is loaded does not meet (`ThreadAfterLoad`);
- a failed hosted command can stop the machine (`TickAfterFailedLoad`), and quitting
  the running process can run a sleeping one (`QuitRunningIff`);
- a character pushed on a full keyboard ring jumps the queue and the oldest is gone
  (`KeyboardRing.Ring.Overflow`).

Code and comments disagree in the FAT16 walker: the values it takes for the last
entry of a file, 0xFF8 and 0xFFF (src/fs/fat/fat16.c:290-295), are ordinary
clusters there, and the real end marks pass; the model follows the code.

Assumptions: the disk works, has 512-byte sectors and is addressed below 2^31;
table entries are little-endian; heap addresses and the heap's end are below
2^32; clocks, devices, allocation outcomes in user space and the result of
writing a directory entry are parameters; the memory of a freed task is not handed
out again while another task's `prev` names it. The FAT layout follows the Microsoft
FAT32 File System Specification v1.03, section "FAT Data Structure"; the paging
format is section 4.3 of the Intel SDM Volume 3A.

## Model

| member | source | states |
|---|---|---|
| `Streamer.Stream.Read` | src/disk/streamer.c:26-59 | the flat byte slice [pos, pos+total) at any alignment, position advanced by total; succeeds exactly when the sector of the byte after the slice exists |
| `Streamer.Stream.ReadSector` | src/disk/streamer.c:39-52 | one sector's contribution to that slice, nothing else in the buffer touched |
| `Streamer.Stream.WriteByte` | src/disk/streamer.c:61-67 | read, patch and write back changes exactly one flat byte, the one at the position |
| `Streamer.Stream.Write` | src/disk/streamer.c:69-79 | the disk is the old one with the buffer laid over it at the position: every byte inside and outside the range |
| `Streamer.Stream.WriteThenRead` | src/disk/streamer.c:20-79 | writing, seeking back and reading returns the written bytes |
| `FatChains.ChainIsAcyclic` | src/fs/fat/fat16_write.c:207-222 | links that end in 0xFFFF never meet a cluster twice |
| `FatChains.ChainIsDetermined` | src/fs/fat/fat16_write.c:207-222 | table and head determine the chain |
| `FatChains.LinkedIsChain` | src/fs/fat/fat16_write.c:178-190 | linking a free cluster: the chain ends in it exactly if it is not 0xFFFF, and the next growth starts behind the new cluster exactly if its number is below 0xFFF8 |
| `FatChains.StemIsWalk` | src/fs/fat/fat16_write.c:129-140 | the walk before growth sees a chain without a last cluster from 0xFFF8 up |
| `FatChains.LinkKeepsForest` | src/fs/fat/fat16_write.c:178-190 | one link loses exactly the cluster from 0xFFF8 up the chain ended in, and the new one if it is 0xFFFF |
| `FatChains.SecondLinkLoses` | src/fs/fat/fat16_write.c:178-190 | a linked cluster from 0xFFF8 to 0xFFFE is lost by the next link, 0xFFFF at once: in use, in no chain |
| `FatChains.TameCandidate` | src/fs/fat/fat16_write.c:111-127 | with at most 65536 numbers probed, or enough that fit 16 bits free, the 16-bit result is the lowest free cluster that fits |
| `FatChains.WildCandidateIff` | src/fs/fat/fat16_write.c:111-127 | the scan settles on a cluster from 0xFFF8 up exactly when some cluster is free and none below is |
| `FatChains.ShippedGeometryLosesCluster` | src/boot/boot.asm:13-23 | with the shipped sector counts the allocator can hand out 0xFFF8, and growing a chain by two lengthens it by one and loses one |
| `FatChains.FirstFree` | src/fs/fat/fat16_write.c:111-127 | the least free cluster among those probed, 0 exactly when none is free |
| `FatChains.GrowLemma` | src/fs/fat/fat16_write.c:178-190 | k growth steps take min(k, free) clusters; the chain's new length by counting free clusters below and from 0xFFF8 up; nothing but the taken entries and the link behind the stem changes |
| `FatChains.GrowKeepsForest` | src/fs/fat/fat16_write.c:178-190 | growing one chain keeps all chains disjoint and every other chain's links; every cluster it had or took is in it or lost, and exactly the lost ones become unowned |
| `FatChains.LowGrowth` | src/fs/fat/fat16_write.c:178-190 | growth into clusters below 0xFFF8 lengthens the chain by every cluster handed out |
| `FatChains.GeneratedLemma` | src/fs/fat/fat16_write.c:192-205 | length of a generated chain by counting; it takes min(count, free) clusters and changes nothing else |
| `FatChains.EraseKeepsForest` | src/fs/fat/fat16_write.c:207-222 | erasing removes exactly one chain and leaks no cluster |
| `FatChains.EraseUndoesGenerate` | src/fs/fat/fat16_write.c:192-222 | erasing what was generated restores the table exactly if every cluster handed out is in the chain, which always holds below 0xFFF8, even when space ran out |
| `FatChains.StepKeeps` | src/fs/fat/fat16_write.c:178-222 | each operation keeps the forest, adds exactly what it loses to the unowned clusters and changes no link of any other chain |
| `FatChains.GenerateEffect` | src/fs/fat/fat16_write.c:192-205 | generating adds one chain of clusters that were free, from the lowest on, as long as asked for or as low clusters are free, and changes no used entry; nothing on a full disk |
| `FatChains.ExtendEffect` | src/fs/fat/fat16_write.c:178-190 | extending links the lowest free cluster behind the chain, in place of a last one from 0xFFF8 up, and marks it 0xFFFF; nothing on a full disk |
| `FatChains.EraseEffect` | src/fs/fat/fat16_write.c:207-222 | erasing frees exactly the clusters of the chain with that head |
| `FatChains.EveryRunKeepsForest` | src/fs/fat/fat16_write.c:111-222 | over every run of generate, extend and erase: disjoint, acyclic chains ending in 0xFFFF, no chain cluster free; no cluster is lost while all numbers lie below 0xFFF8 |
| `Fat16Volume.TableWrite` | src/fs/fat/fat16_write.c:103-109 | two little-endian bytes written change exactly one table entry |
| `Fat16Volume.ClusterCountIsLeast` | src/fs/fat/fat16_write.c:57-65 | the cluster count is the least number of clusters that holds the size |
| `Fat16Volume.Volume.GetFatEntry` | src/fs/fat/fat16.c:249-276 | the little-endian pair of bytes at 512 * reserved sectors + 2 * cluster, which is the table entry |
| `Fat16Volume.Volume.WriteFatEntry` | src/fs/fat/fat16_write.c:103-109 | exactly that pair of bytes written: the table with that one entry replaced |
| `Fat16Volume.Volume.GetFirstFreeCluster` | src/fs/fat/fat16_write.c:111-127 | the lowest free cluster from 3 up to the limit, cut to 16 bits; 0 exactly when none is free |
| `Fat16Volume.Volume.FindLastCluster` | src/fs/fat/fat16_write.c:129-140 | the last cluster growth sees, for every chain; the walk ends |
| `Fat16Volume.Volume.AddClusterToChain` | src/fs/fat/fat16_write.c:178-190 | the table with the candidate linked behind the tail, or unchanged with -ENODISKSPACE |
| `Fat16Volume.Volume.GenerateClusterChain` | src/fs/fat/fat16_write.c:192-205 | the generated table and head, clusters from 0xFFF8 up included; a non-positive count gives 0xFFFE |
| `Fat16Volume.Volume.EraseClusterChain` | src/fs/fat/fat16_write.c:207-222 | exactly the chain's entries freed, a last cluster from 0xFFF8 to 0xFFFE included; heads up to 2 refused |
| `Fat16Volume.Volume.Apply` | src/fs/fat/fat16_write.c:178-222 | the methods on disk are the steps of the transition system, clusters from 0xFFF8 up included |
| `Fat16Volume.Volume.ExtendChain` | src/fs/fat/fat16_write.c:278-288 | the growth loop is that many growth steps; -ENODISKSPACE exactly when fewer clusters are free |
| `Fat16Volume.CapacityAfterGrowth` | src/fs/fat/fat16_write.c:271-288 | after growth the chain holds the recorded size exactly if the counts of free clusters say so |
| `Fat16Volume.CapacityIff` | src/fs/fat/fat16_write.c:271-294 | for a chain that just holds its file: capacity is kept unless growth reports success after handing out two clusters from 0xFFF8 up, or 0xFFFF |
| `Fat16Volume.LowKeepsCapacity` | src/fs/fat/fat16_write.c:271-294 | on every path below 0xFFF8 the grown chain holds the recorded size |
| `Fat16Volume.TightGrowth` | src/fs/fat/fat16_write.c:271-288 | a chain with no cluster to spare grows to the least length that holds the new size |
| `Fat16Volume.ShippedCapacityFails` | src/boot/boot.asm:13-23 | a nearly full table of the shipped geometry on which it does not |
| `Fat16Volume.Volume.GrowForWrite` | src/fs/fat/fat16_write.c:256-294 | on every exit: chain length times cluster bytes covers the recorded size exactly if the counts of free clusters say so, and always below 0xFFF8, there with no more clusters than needed; other files' chains are untouched; the size grows exactly when the space was there |
| `Fat16Read.GetClusterForOffset` | src/fs/fat/fat16.c:280-323 | for the clusters a walk from the head meets, in the chain or behind its end: the one of offset / cluster bytes if and only if no link on the way is one of 0, 0xFF0, 0xFF6, 0xFF8, 0xFFF, 0xFFF7, else -EIO |
| `Fat16Read.RejectsIff` | src/fs/fat/fat16.c:291-316 | the refused links are exactly the six numbers |
| `Fat16Read.ChainIsTrail` | src/fs/fat/fat16.c:288-319 | the walker goes on behind a chain: it takes the end mark for a cluster |
| `Fat16Read.WalkersDisagree` | src/fs/fat/fat16.c:287-318 | a link to a cluster from 0xFFF8 up: growth stops in front of it, reading goes on to it, erasing frees it unless it is 0xFFFF |
| `Fat16Read.BadMarkHandedOut` | src/fs/fat/fat16.c:297-302 | on the shipped geometry the allocator can hand out 0xFFF7, which the reader refuses |
| `Fat16Read.OrdinaryClusterRefused` | src/fs/fat/fat16.c:290-295 | a chain through the ordinary cluster 0xFF8 is refused |
| `Fat16Read.ReadsTrueIff` | src/fs/fat/fat16.c:324-362 | every byte is read from its place if and only if the read is cluster-aligned or crosses only boundaries between adjacent clusters |
| `Fat16Read.ContentsAt` | src/fs/fat/fat16_common.h:129-133 | byte p of the concatenated clusters lies at the position the cluster arithmetic gives |
| `Fat16Read.SafeReadIsSlice` | src/fs/fat/fat16.c:324-362 | a safe read delivers the slice of the file's concatenated clusters |
| `Fat16Read.UnsafeReadIsWrong` | src/fs/fat/fat16.c:336-358 | for every other read there are disk contents on which it delivers something else, and does deliver when its pieces fit |
| `Fat16Read.FittingReadDelivers` | src/fs/fat/fat16.c:324-362 | a read whose pieces fit takes every byte from the disk |
| `Fat16Read.ReadPiece` | src/fs/fat/fat16.c:329-351 | one piece delivers the disk's bytes from 512 * (data start + (cluster - 2) * sectors per cluster) plus the offset in the cluster; it succeeds exactly when no link on the way is refused and the sector it ends in exists |
| `Fat16Read.ReadInternal` | src/fs/fat/fat16.c:324-362 | the recursion that re-walks from the head delivers the piecewise positions; it succeeds exactly when no link up to its last piece is refused and every piece ends on the disk, behind the end of the chain too |
| `Fat16Read.SucceedsStep` | src/fs/fat/fat16.c:353-358 | a longer read succeeds exactly when its first piece and the read of the rest do |
| `Fat16Read.RoomySucceeds` | src/fs/fat/fat16.c:324-362 | on a disk with a cluster to spare every read inside a chain through none of the six refused numbers succeeds |
| `Fat16Read.ReadOrdinary` | src/fs/fat/fat16.c:280-362 | on such a disk a read inside a chain through none of the six numbers succeeds, and if it is safe each byte is the disk's at its cluster's position |
| `Fat16Read.ReadFile` | src/fs/fat/fat16.c:664-685 | succeeds exactly when every record does; the records are then the file's slice if each is safe; position advanced on success only |
| `Fat32Read.Volume32.GetFatEntry` | src/fs/fat32/fat32.c:404-432 | the four little-endian bytes at 512 * reserved sectors + 4 * cluster, which are the table entry |
| `Fat32Read.Volume32.GetClusterForOffset` | src/fs/fat32/fat32.c:434-477 | chain[offset / cluster bytes], and an error exactly when the offset lies past the chain |
| `Fat32Read.Volume32.ReadPiece` | src/fs/fat32/fat32.c:486-512 | one piece delivers the disk's bytes from its cluster's position on; it fails exactly when it starts past the chain or ends off the disk |
| `Fat32Read.Volume32.ReadInternal` | src/fs/fat32/fat32.c:485-524 | the same piecewise positions as the FAT16 reader, for every offset and length; fails exactly when a piece starts past the chain or ends off the disk |
| `Fat32Read.Volume32.ReadSlice` | src/fs/fat32/fat32.c:485-524 | a safe read that succeeds delivers the slice of the concatenated clusters |
| `KernelHeap.FreeIffOutside` | src/memory/heap/heap.c:67-70 | the type test calls a block free exactly when no run covers it |
| `KernelHeap.TableDetermined` | src/memory/heap/heap.c:113-165 | the live runs determine the whole table |
| `KernelHeap.TakenKeeps` | src/memory/heap/heap.c:113-132 | marking free blocks adds one run apart from all others |
| `KernelHeap.FreedKeeps` | src/memory/heap/heap.c:153-165 | freeing removes exactly one run |
| `KernelHeap.FreeUndoesMalloc` | src/memory/heap/heap.c:113-182 | freeing what was just taken restores the table |
| `KernelHeap.EveryRunPartitions` | src/memory/heap/heap.c:113-182 | over every run the table partitions into disjoint contiguous runs and is a function of them |
| `KernelHeap.AlignUp` | src/memory/heap/heap.c:55-65 | rounds up to a block, wrapping to 0 above 2^32 - 4096 |
| `KernelHeap.Heap.GetStartBlock` | src/memory/heap/heap.c:72-106 | the lowest fitting start; else the start of the free tail, or -ENOMEM when the last block is taken |
| `KernelHeap.OverrunIff` | src/memory/heap/heap.c:99-104 | the returned run would be overrun exactly when nothing fits and the table ends free |
| `KernelHeap.ScanOverruns` | src/memory/heap/heap.c:99-104 | a table on which that happens |
| `KernelHeap.OneBlockServed` | src/memory/heap/heap.c:72-106 | a request for one block never overruns |
| `KernelHeap.Heap.MarkTaken` | src/memory/heap/heap.c:113-132 | FIRST on the first block only, HAS_NEXT on all but the last, other blocks untouched |
| `KernelHeap.Heap.MarkFree` | src/memory/heap/heap.c:153-165 | from any block on, clears exactly as far as the HAS_NEXT flags reach |
| `KernelHeap.RunReach` | src/memory/heap/heap.c:153-165 | inside a run the flags reach exactly to its end |
| `KernelHeap.InteriorFree` | src/memory/heap/heap.c:153-165 | freeing from the middle of a run leaves a table that no set of runs explains |
| `KernelHeap.Heap.Malloc` | src/memory/heap/heap.c:172-177 | the lowest fitting run becomes a live run of its own; full heap gives 0; a request of no blocks reserves nothing |
| `KernelHeap.Heap.Free` | src/memory/heap/heap.c:179-182 | a live pointer's run leaves the table and the live runs; a free block changes nothing; a pointer into a run spoils the partition |
| `PageTables.PutEntryKeeps` | src/memory/paging/paging.c:144-164 | setting one entry keeps the space, every other page's entry and all memory outside its table |
| `PageTables.RemappedTranslates` | src/memory/paging/paging.c:113-143 | addresses inside a mapped range translate to the physical range with the flags, all others as before |
| `PageTables.SpaceFrame` | src/memory/paging/paging.c:166-182 | writes outside a space's pages change no translation |
| `Paging.IndexSplit` | src/memory/paging/paging.c:56-69 | directory and table index are the split of the page number |
| `Bytes.LittleEndian` | src/memory/paging/paging.c:144-164 | the lowest byte of a word comes first |
| `Paging.Machine.Zalloc` | src/memory/heap/kheap.c:30-38 | a fresh zeroed run, all other memory unchanged; 0 exactly when nothing fits |
| `Paging.Machine.PagingSet` | src/memory/paging/paging.c:144-164 | the page's entry replaced; an unaligned address refused |
| `Paging.Machine.PagingGet` | src/memory/paging/paging.c:173-182 | the page's entry; page 0's for an unaligned address |
| `Paging.Machine.GetPhysicalAddress` | src/memory/paging/paging.c:166-171 | the translation of the address |
| `Paging.Machine.Map` | src/memory/paging/paging.c:88-96 | one page mapped, or an unaligned address refused and nothing changed |
| `Paging.Machine.MapRange` | src/memory/paging/paging.c:98-111 | exactly the pages of the range, wrapping at 4 GB, get consecutive physical pages and the flags; unaligned addresses refused and nothing changed |
| `Paging.Machine.MapTo` | src/memory/paging/paging.c:113-143 | the same for a byte range; misaligned or reversed ranges refused and nothing changed |
| `Paging.Machine.FillTable` | src/memory/paging/paging.c:13-17 | one table of consecutive pages, memory outside it unchanged |
| `Paging.Machine.New4gb` | src/memory/paging/paging.c:7-25 | exactly 1026 new one-block runs; every 32-bit address translates to itself with the flags, and every directory entry has them and is writable |
| `Paging.Machine.Free4gb` | src/memory/paging/paging.c:33-44 | the masked directory entries recover every table pointer; exactly the space's blocks become free |
| `Paging.Machine.Lifecycle` | src/memory/paging/paging.c:7-143 | building a space, any mappings, each of which maps exactly its pages or is refused, then freeing it returns the heap table to its start |
| `ProcessMemory.LiveRecordsDisjoint` | src/task/process.c:224-314 | two live records cover disjoint memory |
| `ProcessMemory.RecordUsable` | src/task/process.c:253 | every address of a live record translates to itself, with bits 0, 1 and 2 of its entry set |
| `ProcessMemory.Process.constructor` | src/task/process.c:509-545 | an empty allocation table of 1024 slots |
| `ProcessMemory.Process.FindFreeIndex` | src/task/process.c:224-237 | the lowest free slot, or none |
| `ProcessMemory.Process.FindAllocation` | src/task/process.c:282-291 | the lowest slot with the pointer, or none |
| `ProcessMemory.Process.Unjoin` | src/task/process.c:270-280 | exactly the pointer's record cleared |
| `ProcessMemory.Process.Malloc` | src/task/process.c:239-268 | a zeroed fresh run recorded in the lowest free slot; each of its addresses translates to itself with the present, writable and user bits set, every other entry unchanged; on failure nothing is kept; succeeds exactly when the heap fits it and a slot is free; no byte in use outside the process's tables changes |
| `ProcessMemory.Process.Free` | src/task/process.c:293-314 | exactly the record's pages lose their present bit and exactly its blocks become free; other pointers ignored; no byte outside the process's tables changes |
| `ProcessMemory.Process.MallocThenFree` | src/task/process.c:239-314 | the heap is restored; the pages stay behind as not present |
| `Isolation.MallocAmong` | src/task/process.c:239-268 | an allocation by one of any number of processes does what `Malloc` does and keeps all valid and apart, the others' page entries and records, and every byte anyone had |
| `Isolation.FreeAmong` | src/task/process.c:293-314 | the same of a free |
| `Isolation.SpawnAmong` | src/task/process.c:509-545 | a new process shares nothing with the running ones and leaves their mappings, records and bytes alone |
| `Isolation.Act` | src/task/process.c:224-314 | one action of a run: the new process, allocation or free it stands for |
| `Isolation.RunActions` | src/task/process.c:224-314 | over every interleaving of starts, allocations and frees by any processes all stay valid and pairwise apart, and every process can read and write each address of each of its allocations |
| `ElfMap.TranslatesIffCongruent` | src/task/process.c:396-410 | a mapped segment translates byte for byte exactly when address and offset agree modulo 4096 |
| `ElfMap.CountHolds` | src/task/process.c:404 | the mapped pages hold the segment with less than a page over |
| `ElfMap.MisalignedSegment` | src/task/process.c:396-410 | a header that is not congruent and does not translate |
| `ElfMap.MapElf` | src/task/process.c:389-412 | with non-overlapping page ranges every segment ends up mapped, its bytes present, user and writable exactly if its header says so, and translating to the image if congruent; all other pages keep their entries and no byte outside the tables changes |
| `TaskString.StrncpyUser` | src/string/string.c:87-100 | the string copied under the task's mapping, no entry changed; faults exactly when a byte of the string lies on a page that is not present |
| `TaskString.StillThere` | src/task/task.c:155-159 | editing the borrowed page changes neither what a string that avoids it shows nor whether it can be read |
| `TaskString.CopyStringFromTask` | src/task/task.c:140-175 | without a fault every entry of the task's tables, the heap table and all memory around the buffer are as before and the NUL-terminated prefix read through the task's mapping is delivered; a fault, exactly when a byte of the string is not present, leaves the borrowed page taken and mapped |
| `Scheduler.BehindSleeper` | src/task/process.c:551-557 | behind every task of a sleeping process lies its guest's main task |
| `Scheduler.TailAwake` | src/task/task.c:271-285 | the last task of the list is awake |
| `Scheduler.TaskNextSafe` | src/task/task.c:271-285 | picking the next task never panics and picks an awake one |
| `Scheduler.RemoveAllThins` | src/task/task.c:111-116 | what the freeing walk is for: the process's tasks leave, the rest keep their order, another process's current task stays current |
| `Scheduler.RemoveAllIsOthers` | src/task/task.c:111-116 | exactly the other processes' tasks are left, in order |
| `Scheduler.RemoveAllCurrent` | src/task/task.c:94-97 | the task that becomes current is the first other one at or behind the current task, or else the first of the list |
| `Scheduler.TerminateKeeps` | src/task/process.c:139-166 | ending a process that hosts nobody wakes its host and keeps the invariant |
| `Scheduler.HostedLoadKeeps` | src/isr80h/process.c:66-104 | a hosted load keeps the invariant |
| `Scheduler.StepKeeps` | src/isr80h/process.c:14-171 | every event from a good state reaches a good state without panic; what it does is in the `SchedulerLaws` rows |
| `Scheduler.EveryRunIsSafe` | src/task/task.c:271-285 | in every reachable state each sleeper has exactly one live guest, the tail is awake and no event panics |
| `SchedulerLaws.TickEffect` | src/task/task.c:271-285 | a tick runs the first awake task behind the current one, or, behind the last, the first awake one of the list, and changes nothing else |
| `SchedulerLaws.EveryTaskGetsItsTurn` | src/task/task.c:271-285 | every awake task runs within as many ticks as there are tasks |
| `SchedulerLaws.TurnAhead` | src/task/task.c:67-75 | one behind the current task runs after at most as many ticks as it lies behind |
| `SchedulerLaws.KillEffect` | src/isr80h/process.c:117-130 | exactly the process and its tasks go, its host wakes, no other entry changes, and the caller's task stays current |
| `SchedulerLaws.ExitEffect` | src/idt/idt.c:55-62 | an exit or a main task's fault takes away exactly the running process and its tasks and wakes its host; the next task is picked from the one that follows them |
| `SchedulerLaws.QuitEffect` | src/keyboard/classic.c:138-145 | the same of quitting from the keyboard, which leaves the task that follows current |
| `SchedulerLaws.ThreadFaultEffect` | src/idt/idt.c:55-62 | exactly the faulting thread goes, and the next task is picked from the one behind it |
| `SchedulerLaws.ShellFaultEffect` | src/idt/idt.c:55-62 | a fault of the shell's main task is a tick |
| `SchedulerLaws.PlainLoadEffect` | src/isr80h/process.c:14-34 | one new main task at the tail, current, and one process under the lowest free number; nothing when all thirteen are taken |
| `SchedulerLaws.HostedLoadEffect` | src/isr80h/process.c:66-104 | the same with the running process as host, put to sleep |
| `SchedulerLaws.NewThreadEffect` | src/isr80h/process.c:151-171 | one new thread of the running process at the tail, current |
| `SchedulerLaws.OthersSifted` | src/task/task.c:111-116 | the tasks left are those at exactly the positions of other processes, in order |
| `Scheduler.SafeFromBoot` | src/kernel.c:135-144 | the same for every run that starts with the first process |
| `Scheduler.TickAfterFailedLoad` | src/isr80h/process.c:68-94 | after a failed hosted load the next tick panics exactly when no later task belongs to another awake process |
| `Scheduler.FailedLoadAtBootPanics` | src/isr80h/process.c:68-94 | a failed hosted load by the only process stops the machine |
| `Scheduler.QuitRunningIff` | src/keyboard/classic.c:138-145 | quitting the running process keeps a good state exactly when the first task of another process at or behind the current one, or else of the list, belongs to a process that is awake or hosts the one that quits |
| `Scheduler.QuitCanRunSleeper` | src/keyboard/classic.c:138-145 | a state reached from boot by two loads in which quitting makes a sleeping task current |
| `TaskList.List.Append` | src/task/task.c:45-55 | the node goes behind the tail with an accurate prev |
| `TaskList.List.GetNext` | src/task/task.c:67-75 | the node behind the current one, or the first node behind the last |
| `TaskList.List.PickNext` | src/task/task.c:271-285 | the pointer walk picks what the transition system picks: the first awake node from the next one on |
| `TaskList.List.Remove` | src/task/task.c:77-98 | exactly the other nodes stay linked if and only if the node's prev serves |
| `TaskList.List.Unlink` | src/task/task.c:77-98 | the effect on the list's fields whatever they hold |
| `TaskList.List.FreeAll` | src/task/task.c:111-116 | the freeing walk leaves exactly the other nodes linked if and only if each of the process's nodes has its true prev and no two are neighbours; then tasks and current node are those of the transition system |
| `TaskList.List.RemoveNeighbours` | src/task/task.c:77-98 | unlinking two neighbours in order leaves the second one linked |
| `TaskList.UnlinkIsRemove` | src/task/task.c:77-98 | unlinking is the removal step of the transition system, the current node included |
| `TaskList.KeptCurrent` | src/task/task.c:111-116 | the kept nodes and the surviving current node are those of the transition system |
| `TaskSystem.Kernel.constructor` | src/kernel.c:135-144 | the list with the first task shows the boot state |
| `TaskSystem.Kernel.Perform` | src/isr80h/process.c:14-171 | every event done on the linked list leads to the state the transition system's step leads to, whenever the tasks it removes have their true prev and no two that go together are neighbours; which tasks have it afterwards |
| `TaskSystem.RunFromBoot` | src/isr80h/process.c:14-171 | a whole run from boot on the linked list ends in the state the transition system reaches, for every event sequence whose removals can be unlinked; a condition on the events alone |
| `TaskList.TrustOfKept` | src/task/task.c:111-116 | after the freeing walk a task has its true prev exactly if it had it and its predecessor stays |
| `TaskSystem.ThreadAfterLoad` | src/task/task.c:111-116 | a run from boot after which the ending process's tasks cannot all be unlinked |
| `TaskSystem.LoadAndExitIsClean` | src/task/task.c:77-98 | loading a program and its exit is a run the linked list follows |
| `TaskSystem.Kernel.Schedule` | src/task/task.c:271-285 | the clock's choice on the list is the step's: the first awake task behind the current one, or of the list behind the last |
| `TaskSystem.Kernel.RemoveProcess` | src/task/task.c:111-116 | freeing a process's tasks on the list is the step's removal |
| `Strtok.SpansExact` | programs/stdlib/src/string.c:128-163 | the spans are exactly the maximal runs of non-delimiters |
| `Strtok.SpansInOrder` | programs/stdlib/src/string.c:128-163 | they come in order and do not touch |
| `Strtok.WordsAreSpans` | programs/stdlib/src/string.c:128-163 | the words are the strings of the spans |
| `Strtok.Tokenizer.Next` | programs/stdlib/src/string.c:114-163 | one call returns the next maximal run as a string of its own, writes one NUL and resumes behind it; a new string is taken up only when the cursor is NULL |
| `Strtok.Tokenizer.Following` | programs/stdlib/src/string.c:114-163 | a call with NULL goes from one token to the next, for any delimiters, and the earlier ones survive |
| `Strtok.Tokenizer.AllTokens` | programs/stdlib/src/string.c:114-163 | for any delimiters, calls from reset until NULL yield the starts of exactly the maximal runs of non-delimiters, in order, each left in the buffer as a string |
| `Strtok.Tokenizer.SkipRun` | programs/stdlib/src/string.c:128-142 | the first non-delimiter from the cursor on |
| `Strtok.Tokenizer.CutToken` | programs/stdlib/src/string.c:149-161 | a NUL behind the token and nothing else changed |
| `CommandLine.ParseCommand` | programs/stdlib/src/serpaeos.c:7-53 | the linked list of the first 511 characters of each maximal space-free run of the line's first 1024 characters, in order, as far as memory goes |
| `CommandLine.Strncpy` | programs/stdlib/src/string.c:99-112 | the first min(length, count - 1) characters of the source and a NUL |
| `CommandLine.ReadString` | programs/stdlib/src/serpaeos.c:18-31 | the longest start of the token that fits |
| `CommandLine.ArgumentsAreWords` | programs/stdlib/src/serpaeos.c:7-53 | the arguments are the starts of the maximal space-free runs of the start of the line |
| `CommandLine.ShortLine` | programs/stdlib/src/serpaeos.c:7-53 | for a line within the buffers they are exactly the maximal space-free runs of the line, in order |
| `CommandLine.CountArguments` | src/task/process.c:174-184 | the length of the list |
| `CommandLine.ArgumentsFit` | programs/stdlib/src/serpaeos.c:7-53 | a line has at most 512 words, each shorter than its buffer |
| `ArgumentVector.Take` | src/task/process.c:239-268 | what an allocation costs in blocks and slots, and that no earlier record's bytes change |
| `ArgumentVector.WriteInRecord` | src/task/process.c:211-212 | writing inside a record changes no mapping and no other record |
| `ArgumentVector.StoreString` | src/task/process.c:211 | the string and its terminator lie in the record, no other record changed |
| `ArgumentVector.InjectOne` | src/task/process.c:202-215 | one more pointer of the vector points at its argument, the earlier ones still do; succeeds exactly when a block and a slot are free |
| `ArgumentVector.InjectArguments` | src/task/process.c:186-222 | argv is a record of the process whose pointers lead to records that hold the arguments as strings; succeeds exactly when the list is not empty and blocks and slots suffice, else argc and argv are left alone |
| `ArgumentVector.RunCommand` | src/task/process.c:174-222 | from the typed line to argc and argv in the new process's memory: exactly the maximal space-free runs, cut to 511, of the line's first 1024 characters that the shell could allocate nodes for; succeeds exactly when there is one and more blocks and slots than arguments are free |
| `PathParser.GetPart` | src/fs/pparser.c:37-61 | the component up to the next slash, within its zeroed buffer |
| `PathParser.ParsePart` | src/fs/pparser.c:63-81 | one component in a new node linked behind the last one, or null for an empty one |
| `PathParser.Parse` | src/fs/pparser.c:97-135 | accepted exactly when at most 108 long with a digit and ":/" in front; drive and the linked components before the first empty one, each fitting its buffer |
| `PathParser.SplitOfJoin` | src/fs/pparser.c:37-61 | splitting joined slash-free parts gives them back |
| `PathParser.JoinOfSplit` | src/fs/pparser.c:37-61 | joining what a path was split into gives the path back |
| `PathParser.BeforeEmptyIs` | src/fs/pparser.c:63-81 | the components kept are those before the first empty one |
| `PathParser.PrintThenParse` | src/fs/pparser.c:97-135 | parsing a printed path returns the drive and the parts |
| `Decimal.WriteDigits` | programs/stdlib/src/string.c:196-200 | the digits of the number, within ten places |
| `Decimal.Itoa` | programs/stdlib/src/string.c:185-207 | decodes to the number for every 32-bit integer, without leading zeros, inside the 12-byte buffer |
| `Decimal.Atoi` | programs/stdlib/src/string.c:209-219 | the value of the leading digits, cut to 32 bits |
| `Decimal.PrintThenRead` | programs/stdlib/src/string.c:185-219 | reading a printed non-negative number returns it |
| `Decimal.DigitsAre` | src/string/string.c:102-110 | the digits are "0123456789" and count as 0 to 9 |
| `KeyboardRing.PushKeeps` | src/keyboard/keyboard.c:63-79 | writing the tail slot of a ring that is not full appends to its queue |
| `KeyboardRing.PopKeeps` | src/keyboard/keyboard.c:81-100 | clearing the head slot removes the first of its queue |
| `KeyboardRing.Ring.Push` | src/keyboard/keyboard.c:63-79 | appends when not full; on a full ring the new character takes the place of the oldest and comes out first |
| `KeyboardRing.Ring.Pop` | src/keyboard/keyboard.c:81-100 | the first character on offer, or NUL |
| `KeyboardRing.Ring.Overflow` | src/keyboard/keyboard.c:63-100 | a character pushed on a full ring is popped first, then all pending ones but the first, which is gone |
| `KeyboardRing.PushFull` | src/keyboard/keyboard.c:63-79 | on a full ring the tail slot is the head's |
| `KeyboardRing.Ring.Run` | src/keyboard/keyboard.c:42-100 | every interleaving with at most 1024 pending gives the outputs of a first-in first-out queue: characters come out in the order they went in, none lost |
| `KeyboardRing.FirstInFirstOut` | src/keyboard/keyboard.c:63-100 | over any run what came out followed by what is pending is what was pending followed by what went in |

## Left out

- Fat16Volume.Volume.GenerateClusterChain: a volume that probes more than 65536 numbers, and on which the 16-bit result would name a cluster in use, is excluded.
- Fat16Volume.Volume.ExtendChain: the same.
- Fat16Volume.Volume.Apply: the same.
- Fat16Volume.Volume.GrowForWrite: the same; sizes are not negative and their sum stays below 2^32. It stops before the data is placed in the clusters (`fat16_write`, step 3); the amount written to the first cluster there is its used part, so no read-back law holds of it.
- Scheduler.StepKeeps: runs contain hosted loads that succeed, outside kills of processes that host nobody and no screen flip into a sleeping process; removal has its intended effect on the list.
- Scheduler.EveryRunIsSafe: the linked list follows such runs as long as every removal meets the condition of `TaskList.List.FreeAll` or `TaskList.List.Remove` (`TaskSystem.RunFromBoot`).
- Scheduler.SafeFromBoot: the same.
- Scheduler.RemoveAllThins: the same.
- TaskSystem.Kernel.Perform: an event whose removed tasks cannot be unlinked leaves a list that is none of the transition system's; what it looks like is in `TaskList.List.FreeAll`.
- TaskSystem.Kernel.RemoveProcess: the same.
- ElfMap.MapElf: headers whose pages overlap, of which the later one wins, and ranges past 2^32 are excluded.
- TaskString.CopyStringFromTask: delivery and the fault condition are for strings that avoid the borrowed page and the page tables; directory entries, which the kernel creates present, are not consulted.
- TaskString.StrncpyUser: the same.
- ProcessMemory.Process.Malloc: size 0, sizes above 2^32 - 4096 and requests that would mark past the heap's table are excluded.
- ArgumentVector.Take: the same.
- ArgumentVector.InjectArguments: a vector whose request would mark past the heap's table is excluded.
- ProcessMemory.Process.Free: the null pointer, which matches every free slot and frees below the heap, is excluded.
- KernelHeap.Heap.constructor: a heap whose bounds are aligned and match the table; the refusals of `heap_create` are not modelled.
- KernelHeap.Heap.Malloc: requests that would mark past the table (`OverrunIff`) are excluded.
- KernelHeap.Heap.Free: addresses below the heap, for which the driver writes in front of its table, are excluded.
- Paging.Machine.Zalloc: requests that would mark past the table, and size 0, are excluded.
- Paging.Machine.New4gb: a heap with fewer than 1026 free blocks, for which the driver writes through null pointers, is excluded.
- The FAT32 write path, which does not match its own readers.
- Directory search, directory totals with deleted entries, file creation and deletion around the chain operations.
- Screen, file and memory cleanup in process termination; forked processes.
- Disk ports, clock, power, sound, PCI, boot and interrupt assembly, the terminal and scancode tables, system-call registration and the user programs.
