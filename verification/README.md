# Eitan-OS: verified models of its memory, storage, scheduling and installer code

Eitan-OS is a small 64-bit kernel written in C, with a shell and the vendored Limine installer.
This project models the parts of it that keep state over long runs, and proves in Dafny that each
of them agrees with a much simpler object:

- **Memory** (`PageTables`, `Paging`, `Ranges`, `AddressSpaces`, `FrameBitmap`, `PageMapper`,
  `TableBudget`, `SpaceRuns`, `ElfLoader`). A bitmap of frames feeds four-level page tables (section
  4.5 of the Intel SDM, volume 3A). The tables of all address spaces, kept in frames of the same
  bitmap, form a forest whose walk is a finite map from pages to frames and flags. On top are range
  allocation with rollback and the count of frames it takes, address spaces that share the kernel's
  upper half, runs of page operations and ticks, and the ELF64 segment loader.
- **Filesystem** (`FreeSpace`, `FileStore`, `SectorWords`, `Directories`, `Namespace`,
  `FileEffects`, `FileTree`, `FileLaws`, `FileOps`, `FileRuns`, `FileSystem`, `RoomyDisks`,
  `FileFailures`). A table of 640 extents over sectors, directories as files of 64-byte records, and
  paths. The meaning of a disk is a map from slots to kinds and bytes; every operation is a function
  of the disk before it, and the laws say what each does to every path, alone and in runs.
- **Paths** (`Paths`, `WorkingPaths`). Splitting, validity, and the shell's normaliser in place.
- **Heap** (`HeapTiles`, `HeapAllocator`). An address-ordered free list with split and two-sided
  coalescing, proved to represent an exact tiling of the heap.
- **Scheduler** (`RoundRobin`, `ProcessScheduler`). A circular list of processes with preemption,
  signals and kills inside the selection loop, proved to represent a ring.
- **Installer** (`ByteSeq`, `UndoLog`, `BlockDevice`, `GptToMbr`, `BootRecords`, `GptTables`,
  `GptConversion`). A one-block write-back cache with an undo log, whose rollback restores the
  device, and the GPT-to-MBR conversion (section 5.3 of UEFI Specification 2.11), carried out on that
  device.

State that the C code updates in place is a class, or a method over an array; each method is proved
against a function on values, and the laws are lemmas about those functions. Frames, slots, pids
and block numbers are natural numbers; where a C word can wrap, the wrap is written out.

Verify with `dafny verify dfyconfig.toml`.

## What turned out not to hold

Each item names the exact condition and an input at which the code fails.

- **Out of frames while mapping.** `vmm_map_page` tests for a null frame after adding the
  direct-map offset, so the test never fires and frame 0 becomes a page table.
  `TableBudget.AllocRangeUsesNullIff` and `MapPageUsesNullIff` count, on the memory before the call,
  when this happens; `StarvedMemory` is a memory of three frames.
- **Allocation sizes near 2^64** wrap in the rounding of `malloc`; `NeedCoversRequest` says exactly
  which sizes are served, `NeedWraps` gives one that is not.
- **Pid reuse.** The pid counter wraps to pid 0, the kernel's: `AddKeepsRingIff`, `SecondKernel`.
- **A directory moved onto the name of a file.** `filesystem_move_file` does not ask whether the new
  name is taken. A path then goes through the directory, but the path of the directory itself finds
  the file, and that is what deleting or moving something inside the directory works on:
  `ParentListsIff` is the condition, `MovedOntoFile` the run, `RemovalIff` what becomes of the file.
  Over all runs in which it does not happen, extents stay apart (`RunFromFormat`) and files keep
  their bytes (`RunKeeps`). When names stay distinct is `NamesKeptIff`.
- **A directory moved below itself** is cut off with all it holds: `MovedIntoItself`, and
  `MoveThenFind` for when it is not; `MovedBelowItself` is a run.
- **Moving** ignores whether the new directory has room: `MoveLosesIff` says, of the disk before the
  call, when the file is left in no directory, `MoveFindsIff` when the new path finds it, and
  `MovedToNowhere` is a disk on which it is lost.
- **Names of 60 characters** pass `is_valid_path` and are cut to 59 when stored, and a file may be
  created "under" a regular file, whose bytes then get a record. `WriteThenRead` says exactly when
  a file that was written is found again: the parent is a directory and the name is shorter than 60.
  `LongNameLost` is the shortest name that is not, `WrittenUnderFile` a file under a file.
- **Files over 255 sectors** are counted in 8 bits, and the last sector of the disk is never used:
  `ReadBack` is an equivalence, `LongFileLost` the smallest file.
- **Paths of 64 components**: a further name is dropped, so going in and out again ends one directory
  higher. `NormalDownUp` is an equivalence, `WalkDownUp` what happens.
- **A fatal signal** keeps a process from being selected (`KilledNeverSelected`), but an exit selects
  nobody: the process behind it goes on whatever is pending, `ExitRunsDoomedIff`.
- **Odd file sizes**, exactly, are read with one byte stored behind the target: `ReceiveSectors`,
  `ReceivedIsRead`; `OddRead` is the smallest.
- **After a kill** the scheduler passes over the process behind the killed one: `SelectsFirst` with
  `OrderSkips` says which process is chosen, `PassedOver` shows one that is not.
- **Alternate GPT headers** near block 0: the start of the erased reserve wraps. `ChosenErasedIff`
  says that this spares exactly a header the table was read from, `LowAlternateStays` is a device.
- **Usable blocks from block 0 on**, which a header may claim, include the boot record that the
  conversion writes: `UsableFromZero`; otherwise no usable byte changes (`Convert`).

## Model

| member | source | states |
|---|---|---|
| `FrameBitmap.FrameWritten` | src/memory/pmm.c:21-26 | setting or clearing a bit adds or removes exactly that frame, whatever the other bits of its byte are |
| `FrameBitmap.BitWorth` | src/memory/pmm.c:21-30 | frame 8 n + k is the bit worth 2^k of byte n |
| `PageMapper.Mapper.SetFrame` | src/memory/pmm.c:21-26 | the byte written in place changes the set of used frames by that one frame |
| `PageMapper.Mapper.GetFrame` | src/memory/pmm.c:28-30 | reads membership in the set of used frames |
| `Paging.FirstFree` | src/memory/pmm.c:54-63 | the scan stops at the lowest free frame, or at the end when all are used |
| `Paging.AllocFrameTakesOne` | src/memory/pmm.c:54-63 | an allocation takes exactly the lowest free frame, and returns null and changes nothing exactly when none is free |
| `PageMapper.Mapper.AllocFrame` | src/memory/pmm.c:54-63 | the scan of the bitmap is that allocation |
| `PageTables.FreshMemory` | src/memory/vmm.c:21-29 | one cleared top-level table over any bitmap satisfies the forest invariant and maps nothing |
| `PageMapper.Mapper.constructor` | src/memory/vmm.c:21-29 | the mapper may start from any bitmap in which frame 0 and its empty top-level table are used |
| `PageTables.WalksMeet` | src/memory/vmm.c:134-336 | two walks end in the same entry only for the same page, and only in one address space or in the shared upper half |
| `PageTables.AgreeWalk` | src/memory/vmm.c:134-336 | tables that agree outside a set of leaf entries translate every page whose entry is outside the set alike, although paths may have grown |
| `PageTables.AddressFields` | src/memory/vmm.c:139-187 | the four indices of a walk are the four nine-bit fields of the address |
| `PageTables.FlagWordCarries` | src/memory/vmm.c:185-186 | an entry keeps bits 0 to 11 and 52 to 63 of the flags, and its address field is clear |
| `PageTables.GrantedIsLeaf` | src/memory/vmm.c:139-187 | the rights the processor grants for a page, over all four levels, are those of its leaf entry |
| `Paging.EnsureTableCorrect` | src/memory/vmm.c:139-150 | a missing table takes one free frame, is empty, and keeps the forest of tables and every present entry |
| `Paging.EnsurePathCorrect` | src/memory/vmm.c:139-176 | after it the path to the leaf exists, only tables were added, and the free frames fell by exactly the missing tables |
| `Paging.StarvedPath` | src/memory/vmm.c:139-176 | with fewer free frames than missing tables, frame 0 ends up as a table |
| `Paging.MapPageCorrect` | src/memory/vmm.c:134-189 | the forest invariant survives; it succeeds exactly when the page was unmapped, and then one leaf entry changes: it holds the frame, bits 0 to 11 and 52 to 63 of the flags, and zeros between |
| `Paging.UnmapPageCorrect` | src/memory/vmm.c:248-277 | succeeds exactly when the page was mapped; the present bit of one entry is cleared, its other bits stay, and its frame is freed |
| `Paging.EditPageCorrect` | src/memory/vmm.c:191-232 | succeeds exactly when the page was mapped; zero arguments keep the old frame or flags, other flags keep bits 0 to 11 and 52 to 63; which frames are used afterwards |
| `AddressSpaces.MapPageSpace` | src/memory/vmm.c:134-189 | mapping is an insertion into the map of the address space, refused for a present key; the entry carries the flag bits and the processor grants the page just their rights; every other page of every space translates as before |
| `AddressSpaces.UnmapPageSpace` | src/memory/vmm.c:248-277 | unmapping is a deletion from that map, and frees exactly the frame of the page |
| `AddressSpaces.EditPageSpace` | src/memory/vmm.c:191-232 | editing changes the value of one key and nothing else; new flags are carried bit by bit, and are the rights granted |
| `AddressSpaces.UnmapFromSpace` | src/memory/vmm.c:371-374 | unmapping a range deletes exactly its pages |
| `AddressSpaces.EditFromSpace` | src/memory/vmm.c:234-246 | the flags of exactly the mapped pages of the range change, to entries that carry the bits given; it reports whether all were mapped |
| `Ranges.PageAtIsPageOfAddress` | src/memory/vmm.c:343-369 | the i-th page of a range is the page of start + i * 4096, also when the address wraps |
| `Ranges.AllocRangeAllOrNothing` | src/memory/vmm.c:343-369 | on success every page of the range has its own, previously free frame and an entry that carries the flag bits given, and all else is as before; on failure every translation is as before and only table frames stay reserved |
| `TableBudget.NourishedIff` | src/memory/vmm.c:343-369 | the frames last for a range exactly when, page by page, the free frames of the memory before the call cover the pages so far and the distinct missing tables on the way to them |
| `TableBudget.AllocRangeUsesNullIff` | src/memory/vmm.c:343-369 | frame 0 becomes a table exactly when that count, taken on the memory before the call, fails |
| `TableBudget.MapPageUsesNullIff` | src/memory/vmm.c:134-189 | for one page: exactly when there are fewer free frames than missing tables |
| `TableBudget.AllocRangeSucceedsIff` | src/memory/vmm.c:343-369 | when the frames last, the allocation succeeds exactly if no page of the range was mapped and the free frames cover the pages and the distinct missing tables |
| `TableBudget.RangeDemand` | src/memory/vmm.c:343-369 | with a frame for each page of a range and for each table on the way to it, counted before the call, the range never starves, is mapped exactly when its pages are unmapped and differ, and leaves all but that many frames |
| `TableBudget.StarvedMemory` | src/memory/vmm.c:343-369 | three frames, one free: mapping one page puts tables into frame 0 |
| `PageMapper.Mapper.NextTable` | src/memory/vmm.c:139-150 | follows or makes one table, in place |
| `PageMapper.Mapper.MapPage` | src/memory/vmm.c:134-189 | the table writes in place are the mapping on values, and keep the invariant; with `MapPageCorrect`, the entry written carries the bits of the flags |
| `PageMapper.Mapper.FindLeaf` | src/memory/vmm.c:279-300 | the walk returns the slot the specification names |
| `PageMapper.Mapper.EditPage` | src/memory/vmm.c:191-232 | the writes in place are the edit on values |
| `PageMapper.Mapper.UnmapPage` | src/memory/vmm.c:248-277 | the writes in place are the unmapping on values |
| `PageMapper.Mapper.IsMapped` | src/memory/vmm.c:279-300 | true exactly when the page is a key of the space |
| `PageMapper.Mapper.VirtToPhys` | src/memory/vmm.c:311-336 | the address of the frame the page translates to, and 0 exactly when there is none |
| `PageMapper.Mapper.AllocOne` | src/memory/vmm.c:347-360 | one page of the loop: its frame is given back when the page was taken |
| `PageMapper.Mapper.AllocRange` | src/memory/vmm.c:343-369 | the loop with its rollback is the allocation on values |
| `PageMapper.Mapper.UnmapPages` | src/memory/vmm.c:362-366 | the loop unmaps the first pages of the range |
| `PageMapper.Mapper.FreeRange` | src/memory/vmm.c:371-374 | the whole range is unmapped |
| `PageMapper.Mapper.EditRange` | src/memory/vmm.c:234-246 | the loop, which goes on after a page that is not mapped, is the edit of the range on values |
| `AddressSpaces.CreateRootCorrect` | src/memory/vmm.c:21-29 | a new top-level table is an empty address space and changes no other |
| `PageMapper.Mapper.CreateRoot` | src/memory/vmm.c:21-29 | the frame taken and cleared in place is that new table |
| `AddressSpaces.CopyWalk` | src/memory/vmm.c:125-128 | after copying the upper half each space translates as before, except that the target's upper half translates as the source's |
| `AddressSpaces.CopyUpperHalfInvariant` | src/memory/vmm.c:125-128 | sharing the tables of the upper half keeps the forest invariant |
| `PageMapper.Mapper.CopyKernelHalf` | src/memory/vmm.c:125-128 | the copying loop is that copy |
| `AddressSpaces.StepIsolated` | src/memory/vmm.c:125-189 | an operation under one address space leaves the lower half of every other alone; loading a space makes its upper half the kernel's |
| `SpaceRuns.StepMeaning` | src/memory/vmm.c:134-374 | one operation is one update of the map that a space is: an insertion, a deletion, a change of one value, or the same over a range, on frames that differ and were free |
| `SpaceRuns.RunIsFold` | src/memory/vmm.c:134-374 | after any run over any number of spaces, what a space holds in its own half is the fold of the updates of the operations aimed at it, every range on frames that were free when it was asked for |
| `SpaceRuns.TickPossible` | src/process/process_scheduler.c:315-330 | whatever process a tick selects has a table that can be loaded |
| `SpaceRuns.RunSane` | src/process/process_scheduler.c:92-330 | over any run of page operations, ticks, new processes and signals, right after a tick the selected process has the kernel's upper half, and a space no operation is aimed at keeps its lower half |
| `ElfLoader.FramesApart` | src/memory/vmm.c:134-189 | different pages of a space, and the lower halves of different spaces, are backed by different frames |
| `ElfLoader.BytesApart` | src/process/program_loader.c:241-245 | different virtual addresses name different bytes of memory |
| `ElfLoader.OffsetKept` | src/process/program_loader.c:241-245 | an address names the byte of its page's frame with the same low twelve bits |
| `ElfLoader.SpacesApart` | src/process/program_loader.c:241-245 | a byte of one space's lower half is no byte of another space |
| `ElfLoader.StoreBytes` | src/process/program_loader.c:241-245 | writing through the translation makes the range read as the data, every other address as before, and every other space as before |
| `ElfLoader.AllocKeepsFrames` | src/process/program_loader.c:257-261 | a later allocation moves no page that was mapped and changes none of its flags |
| `ElfLoader.AllocKept` | src/process/program_loader.c:257-261 | a range is mapped exactly when it was vacant; mapped pages keep frame and flags, and every byte that could be read reads as before |
| `ElfLoader.EditKeepsSpaceFrames` | src/process/program_loader.c:247-252 | changing flags moves no page; the mapped pages of the range have the new flags |
| `ElfLoader.StoreHeaders` | src/memory/allocator.c:80-86 | the five stores make the heap one free block of the whole heap, and touch nothing outside it |
| `ElfLoader.LowestFirst` | src/memory/allocator.c:80-86 | words are stored with their lowest byte first |
| `ElfLoader.SegmentFlagsGrant` | src/process/program_loader.c:247-252 | the flags of a segment grant the user execution exactly when bit 0 of its flags is set, and writing exactly when it is not |
| `ElfLoader.PageHasAddress` | src/process/program_loader.c:239-252 | every page given to a range holds one of its addresses |
| `ElfLoader.MappedGrants` | src/process/program_loader.c:239-261 | pages mapped with some rights are granted those rights, whatever tables lead to them |
| `ElfLoader.HeapInit` | src/memory/allocator.c:33-92 | succeeds exactly when the pages were unmapped; then the headers are in place on pages a process may write and not execute; either way every byte that could be read, in this space or another, reads as before |
| `ElfLoader.LoadSegment` | src/process/program_loader.c:239-252 | the segment reads as its file bytes and then zeros, on pages of the user that can be executed exactly when bit 0 of its flags is set and written exactly when it is not; other pages, bytes outside it and the other spaces are as before |
| `ElfLoader.StackAndHeap` | src/process/program_loader.c:257-261 | the stack is mapped and the heap ready where no segment stands in the way, both for the user to write and not to execute; segments keep bytes and rights |
| `ElfLoader.LoadProgram` | src/process/program_loader.c:194-272 | refused exactly when a segment of type 1 starts below 0x2000000; otherwise every such segment reads as file bytes then zeros on pages with the rights its flags ask for, stack and heap are writable and not executable and the heap is ready unless a segment lies there, and no other space reads anything new |
| `HeapTiles.NeedCoversRequest` | src/memory/allocator.c:106-111 | the rounded size holds the request and 16 bytes of header exactly when the addition does not wrap; then it is 8-aligned, at least 24, and less than 8 more than needed |
| `HeapTiles.FitsFirst` | src/memory/allocator.c:106-142 | the block chosen is the lowest free one with room for header and payload, and there is none exactly when all are too small |
| `HeapTiles.NeedWraps` | src/memory/allocator.c:106-111 | a request that asks for nothing after wrapping |
| `HeapTiles.FirstFit` | src/memory/allocator.c:112-142 | the first free block that is large enough, or none |
| `HeapTiles.TakeKeepsHeap` | src/memory/allocator.c:115-140 | taking a block, split or whole, keeps the tiling exact, 8-aligned, of at least 24 bytes a block and without touching free blocks |
| `HeapTiles.ReleaseKeepsHeap` | src/memory/allocator.c:179-214 | freeing with coalescing on both sides keeps all of that |
| `HeapTiles.ReleaseUndoesTake` | src/memory/allocator.c:106-214 | freeing what was just allocated restores the heap exactly |
| `HeapTiles.TilesApart` | src/memory/allocator.c:106-214 | blocks do not overlap, so neither do live payloads |
| `HeapTiles.AllFreeIsOneTile` | src/memory/allocator.c:70-86 | a heap with nothing allocated is the one block it started as |
| `HeapTiles.LivesTake` | src/memory/allocator.c:115-140 | an allocation adds one live block, of the size asked for and less than 24 bytes more, to the live blocks, apart from all of them |
| `HeapTiles.LivesRelease` | src/memory/allocator.c:179-214 | a free removes exactly that block from the live ones; every other stays, at its address and with its size |
| `HeapTiles.MallocFailsOnlyWhenFull` | src/memory/allocator.c:106-143 | null is returned exactly when no run of free blocks holds the aligned request with its header |
| `HeapTiles.StepKeepsHeap` | src/memory/allocator.c:106-214 | every malloc and every free of a live pointer keeps the heap invariant |
| `HeapTiles.StepLives` | src/memory/allocator.c:106-214 | over one call the live blocks change by exactly the block handed out or given back; malloc fails exactly for size 0 or when every free block is too small, and hands out the lowest block with room, with less than 48 bytes to spare |
| `HeapTiles.RunKeepsHeap` | src/memory/allocator.c:106-214 | over every run the heap is exactly tiled, blocks are apart, and when all are free there is one block |
| `HeapTiles.RunKeepsBlock` | src/memory/allocator.c:106-214 | over any run that does not free it a live block stays live, in place and whole |
| `HeapTiles.FreeingAllLeavesOne` | src/memory/allocator.c:179-214 | freeing all live pointers of any heap, in any order, is allowed throughout and ends in the one block the heap started as |
| `HeapTiles.RunThenFreeAll` | src/memory/allocator.c:70-214 | the same after any run from a fresh heap |
| `HeapAllocator.ListInsert` | src/memory/allocator.c:195-197 | linking a header between its neighbours gives the address-ordered list with the block |
| `HeapAllocator.TakeWhole` | src/memory/allocator.c:131-134 | unlinking a block gives the list of the heap with the block taken |
| `HeapAllocator.TakeSplit` | src/memory/allocator.c:122-130 | putting the remainder in the block's place gives the list of the split heap |
| `HeapAllocator.InsertBlock` | src/memory/allocator.c:195-197 | the list after insertion represents the heap with the block free |
| `HeapAllocator.MergeBlocks` | src/memory/allocator.c:199-209 | absorbing the following header represents the merged heap |
| `HeapAllocator.NextAdjacent` | src/memory/allocator.c:199-203 | the address test holds exactly when the next block of the heap is free |
| `HeapAllocator.PrevAdjacent` | src/memory/allocator.c:205-209 | the address test holds exactly when the previous block of the heap is free |
| `HeapAllocator.Allocator.constructor` | src/memory/allocator.c:70-86 | one free block over the whole heap |
| `HeapAllocator.Allocator.Malloc` | src/memory/allocator.c:106-143 | the walk over the linked free list allocates as the tiling says, pointer included |
| `HeapAllocator.Allocator.TakeFrom` | src/memory/allocator.c:116-137 | splits or unlinks the block in place |
| `HeapAllocator.Allocator.Free` | src/memory/allocator.c:179-214 | the search, insertion and both merges free as the tiling says |
| `HeapAllocator.Allocator.Insert` | src/memory/allocator.c:195-197 | the block enters the list between its neighbours |
| `HeapAllocator.Allocator.CoalesceNext` | src/memory/allocator.c:199-203 | merges with the following block exactly when it is free |
| `HeapAllocator.Allocator.CoalescePrev` | src/memory/allocator.c:205-209 | merges with the preceding block exactly when it is free |
| `RoundRobin.SelectEffect` | src/process/process_scheduler.c:321-323 | selection ends; whoever is chosen is not doomed and loses only its pending signals, everyone else stays as before, and whoever left was doomed |
| `RoundRobin.SelectsFirst` | src/process/process_scheduler.c:321-323 | the process chosen is the first that is not doomed in the order in which the loop looks at them |
| `RoundRobin.OrderSkips` | src/process/process_scheduler.c:160-185 | up to the end of the ring that order is every second process: the one behind a killed process is passed over |
| `RoundRobin.OrderIsAll` | src/process/process_scheduler.c:321-323 | the order has every process once |
| `RoundRobin.PassedOver` | src/process/process_scheduler.c:160-185 | with the next process killed and the third well, the third is chosen, whatever the second |
| `RoundRobin.QuietTick` | src/process/process_scheduler.c:315-330 | a tick without signals turns the ring by one |
| `RoundRobin.TicksRotate` | src/process/process_scheduler.c:315-330 | n ticks without adds and signals run through the processes in order, each once |
| `RoundRobin.AddKeepsRingIff` | src/process/process_scheduler.c:92-120 | adding keeps the pids distinct exactly when the pid counter does not wrap |
| `RoundRobin.SpawnKeepsRingIff` | src/process/process_scheduler.c:92-120 | the same for the state of a run |
| `RoundRobin.SecondKernel` | src/process/process_scheduler.c:92-120 | with highest pid 2^32 - 1 the next process gets the kernel's pid |
| `RoundRobin.StepIsGood` | src/process/process_scheduler.c:92-330 | every add, signal, exit and tick keeps one cycle with pid 0, distinct pids and the saved frames |
| `RoundRobin.RunIsGood` | src/process/process_scheduler.c:92-330 | over every run the process selected next resumes with the frame saved at its last preemption, or its first, and no process but the kernel is selected with a fatal signal pending |
| `RoundRobin.SendSignals` | src/process/process_scheduler.c:197-203 | a signal is pending for the process with the pid exactly when it was before or is sent now; nobody else changes |
| `RoundRobin.FatalIff` | src/process/process_scheduler.c:205-313 | fatal are bit 5 and bit 8 |
| `RoundRobin.SpawnRunsNext` | src/process/process_scheduler.c:92-120 | a process just added is the next to run, with its first frame, and the one it was added behind is then last in line |
| `RoundRobin.TickPassesCondemned` | src/process/process_scheduler.c:315-330 | a tick does not select a process with a fatal signal pending, and leaves the signal pending if it does not look at it |
| `RoundRobin.KilledNeverSelected` | src/process/process_scheduler.c:187-330 | once a fatal signal is sent to a process other than the kernel, no tick of any later run selects it, whatever is sent, added or exits meanwhile |
| `RoundRobin.ExitRunsDoomedIff` | src/process/process_scheduler.c:187-195 | an exit looks at no signals: the process behind the one that exits goes on, doomed or not |
| `ProcessScheduler.CircleInsert` | src/process/process_scheduler.c:115-116 | linking a record after the current one keeps one cycle with it in second place |
| `ProcessScheduler.CircleExcise` | src/process/process_scheduler.c:160-185 | unlinking the successor of any record keeps one cycle without it |
| `ProcessScheduler.Scheduler.constructor` | src/process/process_scheduler.c:60-90 | a ring of the kernel alone |
| `ProcessScheduler.Scheduler.AddProcess` | src/process/process_scheduler.c:92-120 | the new pid is one more than the highest, or 0 after 2^32 - 1, and the process stands after the current one; the ring stays one exactly when the counter does not wrap |
| `ProcessScheduler.Scheduler.FindProcess` | src/process/process_scheduler.c:130-143 | the circular search ends and finds the record exactly when the pid is in the ring |
| `ProcessScheduler.Scheduler.FindPrevious` | src/process/process_scheduler.c:145-158 | finds the record whose successor has the pid |
| `ProcessScheduler.Scheduler.RemoveProcess` | src/process/process_scheduler.c:160-185 | removes exactly the process with that pid, never the kernel; the one behind it becomes the current one |
| `ProcessScheduler.Scheduler.SendSignals` | src/process/process_scheduler.c:197-203 | a signal is pending for that process afterwards exactly when it was before or is among those sent; every other process is unchanged |
| `ProcessScheduler.Scheduler.HandleSignals` | src/process/process_scheduler.c:205-313 | kills exactly a doomed current process, and otherwise clears its signals |
| `ProcessScheduler.Scheduler.Exit` | src/process/process_scheduler.c:187-195 | the current process, unless it is the kernel, leaves, and the one behind it goes on with its saved frame |
| `ProcessScheduler.Scheduler.NextProcess` | src/process/process_scheduler.c:315-330 | the loop ends and is the tick of the ring; the frame resumed is the selected process's |
| `UndoLog.UndoRestores` | limine-binary/limine.c:340-346 | replaying a log backwards over any contents it covers gives the original |
| `UndoLog.LogBeforeWrite` | limine-binary/limine.c:489-546 | logging the old bytes and then writing keeps both the contents and any disk undoable |
| `BlockDevice.Device.constructor` | limine-binary/limine.c:235-266 | the device starts clean, with the first block cached and an empty log |
| `BlockDevice.Device.FlushCache` | limine-binary/limine.c:268-294 | a flush never changes the contents, and makes the disk equal to them |
| `BlockDevice.Device.CacheBlock` | limine-binary/limine.c:296-324 | switching blocks never changes the contents; it fails exactly for a block past the end |
| `BlockDevice.Device.ReadRaw` | limine-binary/limine.c:467-487 | over any number of blocks the bytes read are those of the contents; it fails exactly past the end |
| `BlockDevice.Device.StoreBytes` | limine-binary/limine.c:519-546 | over any number of blocks the contents are spliced with the buffer; the disk is old or new outside the range |
| `BlockDevice.Device.WriteRaw` | limine-binary/limine.c:489-546 | a write updates the contents and logs the bytes it replaces; refused writes change nothing, and every state stays undoable |
| `BlockDevice.WriteUndoable` | limine-binary/limine.c:489-546 | any mix of flushed and unflushed blocks is covered by the log with the new entry |
| `BlockDevice.Device.ReverseLog` | limine-binary/limine.c:340-346 | the log in reverse order |
| `BlockDevice.Device.Uninstall` | limine-binary/limine.c:548-598 | drops the dirty block and writes the log's entries over what the disk holds |
| `BlockDevice.Device.Rollback` | limine-binary/limine.c:1662-1670 | from any state of an installation the disk is again byte for byte what it was |
| `GptToMbr.ConvertEntryExact` | limine-binary/limine.c:1173-1217 | the 64-bit tests accept exactly the partitions an MBR entry can express, and the entry names the same bytes, for block sizes 512, 2048 and 4096 |
| `GptToMbr.ChsRoundTrip` | limine-binary/limine.c:153-174 | the three CHS bytes decode to the sector, below the addressable limit, and are the fixed maximum above it |
| `GptToMbr.PrimaryExact` | limine-binary/limine.c:1296-1308 | the blocks erased for the primary table are those below the usable ones that start within the first two blocks and the 16384 bytes behind them |
| `GptToMbr.AlternateExact` | limine-binary/limine.c:1241-1317 | the blocks erased for an alternate, in wrapping arithmetic, are its own and those of the 16384 bytes before it, as far as behind the usable ones, and none at all when there are fewer bytes before it |
| `GptToMbr.ErasedOutside` | limine-binary/limine.c:1284-1317 | primary and alternate reserves lie outside the usable range |
| `BootRecords.EntryRead` | limine-binary/limine.c:1339-1348 | the 16 bytes of a boot-record entry are those of the format: both CHS addresses, kind, first sector and number of sectors, lowest byte first; the status byte is left alone |
| `BootRecords.BootRecordRead` | limine-binary/limine.c:1322-1353 | disk id, entries and signature are in place and read back, and no other byte of the device differs |
| `BootRecords.WipeBlocks` | limine-binary/limine.c:1304-1317 | blocks zeroed through the device; stops only for a full log or a block that is not there |
| `BootRecords.WriteEntry` | limine-binary/limine.c:1339-1348 | the five field writes of an entry together are the entry |
| `BootRecords.WriteRecord` | limine-binary/limine.c:1322-1353 | the writes through the device make the boot record |
| `GptTables.ReadTableEntry` | limine-binary/limine.c:1155-1159 | the entry decoded from the contents at its offset; fails exactly when its bytes are not on the device |
| `GptTables.KindOfBytes` | limine-binary/limine.c:134-152 | which of the three partition GUIDs, byte by byte, gives which MBR kind, and no other does |
| `GptTables.FieldsOfBytes` | limine-binary/limine.c:1155-1180 | an entry is in use exactly when its own GUID has a byte that is not zero; its first and last block are the words behind it |
| `GptTables.TableEntries` | limine-binary/limine.c:1103-1159 | at most 256 entries, the i-th at that many entry sizes behind the block the header names |
| `GptTables.TakeEntry` | limine-binary/limine.c:1161-1219 | one entry more is taken exactly when all so far are at most four partitions, each expressible |
| `GptTables.OneEnd` | limine-binary/limine.c:1149-1220 | the three ways a scan can end exclude each other |
| `GptTables.Gather` | limine-binary/limine.c:1149-1220 | which of the three it is, exactly, on the contents of the device: all entries read and convertible, an entry that is not suitable, or one that cannot be read; in the first case each partition names the same bytes as its entry |
| `GptConversion.LastBlock` | limine-binary/limine.c:869-912 | doubling and bisection over device reads end at the one block that is present while its successor is not |
| `GptConversion.Probe` | limine-binary/limine.c:1262-1274 | true exactly when the block can be read and starts with the signature |
| `GptConversion.Settle` | limine-binary/limine.c:1260-1294 | every erase is decided, and refused if a header that is there lies in the usable range, before anything is written |
| `GptConversion.Erase` | limine-binary/limine.c:1296-1317 | zero are the primary table (the first two blocks and 16384 bytes, below the usable blocks) and each alternate that is there (its block and the 16384 bytes before it, behind the usable blocks); nothing else changed |
| `GptConversion.Convert` | limine-binary/limine.c:1122-1357 | which of the five outcomes, from the contents of the device: not an ISO or not suitable, a partition too low, an alternate in the usable range, failed, converted; converted means that each boot-record entry, decoded from the contents, names the bytes of its GPT entry in both of its notations, the disk id is in place, the tables are zero as in `Erase`, and every byte but the record's is as before, so every usable one unless the table calls block 0 usable; the three refusals change nothing; a failure leaves a device that the log undoes |
| `GptConversion.ConvertOrUndo` | limine-binary/limine.c:1662-1670 | converted as above, or refused without a change, or failed with the disk byte for byte what it was |
| `GptConversion.ChosenAre` | limine-binary/limine.c:1247-1258 | the alternates looked at: the header read, or else the one it names, and the last block of the device, these two only with 16384 bytes and a header before them |
| `GptConversion.HeadersLeft` | limine-binary/limine.c:1262-1317 | after a conversion a block starts with the signature exactly when it did before and is not one of those erased |
| `GptConversion.TablesGone` | limine-binary/limine.c:1296-1317 | after a conversion the bytes of the primary table, below the usable blocks, and of each alternate that was there, behind them, are zero |
| `GptConversion.UsableFromZero` | limine-binary/limine.c:1322-1353 | with block 0 usable the signature of the record lands in a usable block, and changes it exactly when other bytes were there |
| `GptConversion.ChosenErasedIff` | limine-binary/limine.c:1247-1294 | after a conversion there is no header in block 1, unless the table calls it usable, and none in the alternates chosen, but for exactly a header the table was read from that has fewer than 16384 bytes before it and lies in no other table's blocks |
| `GptConversion.LowAlternateStays` | limine-binary/limine.c:1247-1294 | an ISO of 100 blocks whose table was read from block 10: the header is chosen, and is still there after every conversion |
| `FreeSpace.LiveSlots` | src/filesystem.c:483-491 | the live slots, each once |
| `FreeSpace.CountExact` | src/filesystem.c:505-518 | the sectors counted are the fewest that hold the bytes |
| `FreeSpace.SortSlots` | src/filesystem.c:493-503 | the same slots in the order of their start sectors |
| `FreeSpace.InsertSlot` | src/filesystem.c:495-502 | one insertion keeps the slots and orders one more of them |
| `FreeSpace.ShiftDown` | src/filesystem.c:495-502 | the inner loop moves one slot down past exactly the later ones |
| `FreeSpace.FindSpace` | src/filesystem.c:482-528 | returns the first start in the data area at which the bytes meet no live extent, and none exactly when there is no such start |
| `FileStore.ReadBack` | src/filesystem.c:144-229 | sectors read back as they were written exactly when there are at most 255 and they end before the last sector of the disk |
| `FileStore.ReadElsewhere` | src/filesystem.c:185-229 | a write leaves every extent clear of it alone |
| `SectorWords.SendSectors` | src/filesystem.c:206-228 | the loop of 16-bit words sends the data followed by zeros |
| `SectorWords.ReceiveSectors` | src/filesystem.c:165-182 | the loop of 16-bit words fills the target; for an odd size it also zeroes one byte behind it |
| `SectorWords.ReceivedIsRead` | src/filesystem.c:144-183 | what the target holds is the file's bytes |
| `SectorWords.OddRead` | src/filesystem.c:165-182 | a one-byte read that zeroes the byte behind its target |
| `FileStore.LaidAfterPlacing` | src/filesystem.c:550-574 | an extent found while the slot was hidden may be taken by the slot: live extents stay apart |
| `FileStore.FreeView` | src/filesystem.c:743-747 | clearing a slot removes one key of what the disk holds |
| `FileStore.ReserveView` | src/filesystem.c:671-673 | an entry for a free extent changes one key |
| `FileStore.FillView` | src/filesystem.c:567-568 | writing an extent changes the bytes of its slot only |
| `Directories.RecordRoundTrip` | src/filesystem.c:56-59 | a 64-byte record decodes to the name and slot it was made of |
| `Directories.RecordLayout` | src/filesystem.c:56-59 | the name stands first, zeros follow up to byte 60, and the slot fills the last four bytes, lowest first |
| `Directories.ListingRoundTrip` | src/filesystem.c:56-59 | a file of records decodes to the listing it was made of |
| `Directories.DecodeAppend` | src/filesystem.c:576-594 | a record at the end of whole records is one more entry |
| `Directories.DroppedCount` | src/filesystem.c:605-615 | leaving out a slot listed once leaves one record less, in the same order |
| `Directories.DroppedKeeps` | src/filesystem.c:605-615 | every entry that does not name the slot is kept, as often as it was there |
| `FileEffects.WithoutListing` | src/filesystem.c:596-619 | the copied records decode to the listing without the slot |
| `FileEffects.ShrinkFits` | src/filesystem.c:550-574 | a file that does not grow has room where it is, so removing a record cannot fail |
| `FileEffects.DirectoryFits` | src/filesystem.c:576-594 | no directory outgrows the 640 slots |
| `FileEffects.ReserveResolve` | src/filesystem.c:671-687 | an entry that nothing lists changes no path |
| `Namespace.ResolveKept` | src/filesystem.c:335-388 | a path that avoids the slots that changed resolves as before |
| `Namespace.DirFoundEitherWay` | src/filesystem.c:362-378 | when the first entry of a name is a directory, the name finds it as a last part and on the way down |
| `Namespace.CreateThenResolve` | src/filesystem.c:335-388 | a new record is found again exactly when its name leaves room for a terminator; all other paths are kept |
| `Namespace.CreateFormedIff` | src/filesystem.c:576-594 | after a new record the names of the directory are distinct exactly when the name as stored was not taken |
| `Namespace.RewriteAgrees` | src/filesystem.c:550-574 | new bytes for a regular file change no path |
| `Namespace.RemoveThenResolve` | src/filesystem.c:596-619 | after a removal the path is gone exactly when no other entry of the directory bears its name, and then so is all below it; every path that avoids the removed slots is kept |
| `Namespace.MoveThenResolve` | src/filesystem.c:836-886 | between the halves of a move: the new path finds the slot exactly when its name can be stored and is not taken |
| `Namespace.SubtreeClosed` | src/filesystem.c:758-782 | what directories of a subtree list is in the subtree |
| `Namespace.SubtreeDetached` | src/filesystem.c:758-782 | only the parent lists a subtree's top from outside |
| `FileTree.OneChain` | src/filesystem.c:335-388 | there is one way along entries to every slot, also when names repeat |
| `FileTree.UniquePath` | src/filesystem.c:335-388 | every slot has at most one path, also when names repeat, so no path comes back to a slot it has reached |
| `FileTree.NotBelow` | src/filesystem.c:335-388 | a path that another does not begin meets neither what the other finds nor anything below it |
| `FileTree.Rankable` | src/filesystem.c:758-782 | what the root leads to is a finite tree, so wiping a directory ends |
| `FileTree.SubtreeIsDescendants` | src/filesystem.c:758-782 | the slots the recursion wipes are exactly those the directory's entries lead to |
| `FileTree.HiddenIff` | src/filesystem.c:362-378 | a name finds the same directory as a last part and on the way down exactly when no earlier entry that is not a directory bears it |
| `FileTree.ParentListsIff` | src/filesystem.c:714-741 | the parent that deletions and moves work on is the directory that lists the file exactly when that directory is not hidden, and otherwise a regular file |
| `FileTree.FormedUnshadowed` | src/filesystem.c:335-388 | with distinct names nothing is hidden |
| `FileLaws.ReachIsDescendants` | src/filesystem.c:335-388 | with distinct names, what entries lead to below a directory is what paths find there |
| `FileLaws.EnterUnderDirectory` | src/filesystem.c:657-706 | a file made under a directory is found exactly when its name is shorter than 60; the names stay distinct exactly when the first 59 bytes were not taken |
| `FileLaws.EnterUnderFile` | src/filesystem.c:657-706 | after a write "under" a regular file every path finds exactly what it found, so the new file is never found |
| `FileLaws.WriteThenRead` | src/filesystem.c:630-706 | what was written is read exactly when the path named a file, or its parent is a directory and the name is shorter than 60; every path that resolved still does, no other file changes, also where names repeat; distinct names stay so exactly when the stored name was free |
| `FileLaws.DeleteThenResolve` | src/filesystem.c:708-751 | no path finds the deleted file; its own path is gone exactly when no other entry bears its name; for a regular file every path that ended elsewhere is kept |
| `FileLaws.DeleteDirectoryThenResolve` | src/filesystem.c:784-834 | no path finds anything the directory led to; its path and all below are gone exactly when no other entry bears its name; every path that ended elsewhere is kept |
| `FileLaws.MovedIntoItself` | src/filesystem.c:836-886 | after a directory is moved below itself no path finds it or anything it leads to |
| `FileLaws.MoveThenFind` | src/filesystem.c:836-886 | of the tree before the move, names repeated or not: the new path finds the file exactly when the record entered, the new parent is a directory outside the moved one, the name can be stored and nothing else bears it |
| `FileLaws.MoveFormedIff` | src/filesystem.c:836-886 | names stay distinct exactly when no record entered, the new parent is a regular file, or the stored name was borne by nothing else there |
| `FileOps.EditEffect` | src/filesystem.c:550-574 | an edit, a function of the store before it, changes one slot and keeps extents apart; it is refused exactly when there is no place |
| `FileOps.WrittenEffect` | src/filesystem.c:630-706 | a write, a function of the store before it, is done exactly when that store can take it: a place for a rewritten file, or a slot, a place for the data, a parent, and a place for the parent with one record more |
| `FileOps.MovedEffect` | src/filesystem.c:836-886 | a move, a function of the store before it, takes the record out and puts it in exactly when the new parent has a place for one more |
| `FileOps.MoveLosesIff` | src/filesystem.c:836-886 | of the store before the move: the file ends in no directory exactly when the new parent has no place for its record or is a regular file |
| `FileOps.MoveFindsIff` | src/filesystem.c:836-886 | of any store before the move: the new path finds the file exactly when the new parent has a place for one more record and the new path is welcome to it |
| `FileOps.OpKeepsGood` | src/filesystem.c:630-886 | every operation keeps one root, whole listings, every slot listed at most once, and the live extents apart, whatever names it repeats |
| `FileOps.RunKeepsGood` | src/filesystem.c:630-886 | the same over any run |
| `FileOps.RunFromFormat` | src/filesystem.c:275-886 | over any run from a freshly made disk the live extents never overlap |
| `FileOps.NamesKeptIff` | src/filesystem.c:630-886 | for each operation the exact condition, on the store before it, for names to stay distinct |
| `FileRuns.StepKeeps` | src/filesystem.c:630-886 | an operation keeps every path that it does not name and that does not lead through what it names |
| `FileRuns.RunKeeps` | src/filesystem.c:630-886 | over any run, moves onto taken names included, a path finds the same slot, kind and file bytes unless an operation names it or a path leading to it |
| `FileRuns.TidyRunKeepsNames` | src/filesystem.c:630-886 | over any run that repeats no name the names of every directory stay distinct |
| `FileRuns.WriteThenRunThenRead` | src/filesystem.c:630-886 | from any store a write that is found again is read unchanged after any such run |
| `RoomyDisks.WriteAt` | src/filesystem.c:657-706 | on a disk with room behind its files a new file is made, in the first free slot, and nothing else changes |
| `RoomyDisks.MoveAt` | src/filesystem.c:836-886 | on such a disk a move is done, and the two directories are all that changes |
| `FileFailures.MovedOntoFile` | src/filesystem.c:335-388 | the run from a new disk: write /b, make /d, write /d/x, move /d to /b; then /b is the file and /b/x is in the hidden directory, and deleting /b/x, which spares /b, turns its 128 bytes into 64 |
| `FileFailures.DeletedByCodeIs` | src/filesystem.c:596-619 | where nothing is hidden that deletion is the one of the other rows |
| `FileFailures.MovedBelowItself` | src/filesystem.c:836-886 | the run from a new disk: make /d and /d/b, move /d to /d/b/d; both are still on the disk and every path but the root's is gone |
| `FileFailures.WrittenUnderFile` | src/filesystem.c:657-706 | the run from a new disk: write /f, write /f/x; the second succeeds, /f/x is not found, and the empty /f holds a record |
| `FileFailures.RemovalIff` | src/filesystem.c:596-619 | the records kept overrun the buffer exactly when the file does not list the slot; a file without a record gets the size 0xffffffc0 and no sectors |
| `FileFailures.LongNameLost` | src/filesystem.c:585-588 | on a new disk a file written under a name of 60 bytes is found under its first 59 |
| `FileFailures.LongFileLost` | src/filesystem.c:144-229 | 256 sectors are neither written nor read |
| `FileFailures.MovedToNowhere` | src/filesystem.c:836-886 | a full disk on which a move leaves the file in no directory |
| `FileSystem.FileSystem.constructor` | src/filesystem.c:275-298 | a disk without a root gets an empty root and nothing else; one with a root is taken as it is |
| `FileSystem.FileSystem.FindRoot` | src/filesystem.c:258-272 | finds the root's slot |
| `FileSystem.FileSystem.FindIn` | src/filesystem.c:362-378 | the first live entry with the name; on the way down only directories count |
| `FileSystem.FileSystem.ResolvePath` | src/filesystem.c:335-388 | the loops over parts and entries compute the resolution of the path |
| `FileSystem.FileSystem.EditFile` | src/filesystem.c:550-574 | one slot has the new bytes, extents stay apart, the table is saved; it fails exactly when no gap is long enough, and then nothing changes |
| `FileSystem.FileSystem.AddToDir` | src/filesystem.c:576-594 | the directory's file has one record more |
| `FileSystem.OtherRecords` | src/filesystem.c:605-612 | the copying loop keeps the records that do not name the slot |
| `FileSystem.FileSystem.RemoveFromDir` | src/filesystem.c:596-619 | the directory's file has one record less; it cannot fail |
| `FileSystem.FileSystem.FindSlot` | src/filesystem.c:621-628 | the first free slot, or none exactly when all are live |
| `FileSystem.FileSystem.ReadFile` | src/filesystem.c:405-427 | the bytes of what the path finds |
| `FileSystem.FileSystem.WriteNew` | src/filesystem.c:657-706 | a new entry, its record and its data, in that order; done exactly when the old disk can take it, and a failure leaves the disk as it was |
| `FileSystem.FileSystem.WriteFile` | src/filesystem.c:630-706 | succeeds exactly for valid paths that the old disk can take the data under; the disk is then that function of the old one, sound also under regular files and for long names; failure leaves it as it was |
| `FileSystem.FileSystem.DeleteFile` | src/filesystem.c:708-751 | succeeds exactly for valid paths that resolve; the disk is then a function of the old one, and sound |
| `FileSystem.FileSystem.WipeEntries` | src/filesystem.c:758-782 | the recursion ends, and frees exactly the slots below the directory |
| `FileSystem.FileSystem.WipeSlot` | src/filesystem.c:767-779 | one entry, dead already or wiped: its whole subtree is dead |
| `FileSystem.FileSystem.DeleteDirectory` | src/filesystem.c:784-834 | succeeds exactly for valid paths that find a directory; exactly what its entries lead to dies, and it leaves its parent |
| `FileSystem.FileSystem.WipeAndUnlink` | src/filesystem.c:802-833 | the wipe, the removal from the parent and the freeing together |
| `FileSystem.FileSystem.Unlink` | src/filesystem.c:805-833 | with its contents freed the directory leaves its parent and dies |
| `FileSystem.FileSystem.MoveFile` | src/filesystem.c:836-886 | succeeds exactly for valid paths whose file and new parent are found; the disk is then that function of the old one, and sound; failure leaves it as it was |
| `Paths.SplitJoin` | src/util/string.c:216-247 | splitting takes a joined path back to its parts |
| `Paths.TokensSnoc` | src/filesystem.c:390-403 | the stretch after the last slash is the last token |
| `Paths.Split` | src/util/string.c:216-247 | the counting pass sizes the array exactly and the second pass fills it with the tokens |
| `Paths.SplitPath` | src/filesystem.c:390-403 | the last slash divides every path into directory and name, and its tokens likewise |
| `Paths.IsValidPath` | src/filesystem.c:308-333 | true exactly for the joins of components of 1 to 60 bytes, of at most 1001 bytes in all |
| `Paths.SplitValid` | src/filesystem.c:308-403 | a valid path divides into its parts but the last, and the last |
| `WorkingPaths.NeverLonger` | programs/shell/c.c:485-539 | an absolute path never grows, so the result fits its buffer |
| `WorkingPaths.NormalParts` | programs/shell/c.c:485-539 | splitting the result gives the components the stack kept, none of them `.` or `..` |
| `WorkingPaths.NormalIdempotent` | programs/shell/c.c:485-539 | normalising twice is normalising once |
| `WorkingPaths.WalkName` | programs/shell/c.c:504-521 | a name goes on top of those kept, or is dropped when there are 64 |
| `WorkingPaths.WalkUp` | programs/shell/c.c:504-510 | `..` takes back the last one kept, and does nothing at the root |
| `WorkingPaths.WalkDownUp` | programs/shell/c.c:504-521 | a name and then `..` is no move, unless 64 are kept: then the 64th goes |
| `WorkingPaths.NormalEnters` | programs/shell/c.c:485-539 | one more component after a directory: `.` stays, `..` leaves off the last component, a name is added unless there are 64 |
| `WorkingPaths.NormalDownUp` | programs/shell/c.c:485-539 | into a directory and out again is the same path exactly when it has fewer than 64 components |
| `WorkingPaths.NormalFollows` | programs/shell/c.c:477-539 | a relative path followed from a normalised directory ends where it does from the directory itself |
| `WorkingPaths.NormalIsValid` | programs/shell/c.c:485-539 | the filesystem accepts the result when the components are at most 60 bytes |
| `WorkingPaths.Collect` | programs/shell/c.c:489-522 | the scan with the 64-slot stack is the walk over the components, whose steps `WalkName`, `WalkUp` and `WalkHere` fix |
| `WorkingPaths.Rebuild` | programs/shell/c.c:524-538 | the joined components and an end mark, in the buffer |
| `WorkingPaths.ParsePath` | programs/shell/c.c:485-539 | the buffer holds the normal form of what it held; `NormalEnters` says what one more component does to it |

## Left out

- PageMapper.Mapper.MapPage: assumes frames for the missing tables and a frame that backs nothing else; `TableBudget.MapPageUsesNullIff` says what happens without the frames.
- PageMapper.Mapper.NextTable: assumes a frame for a missing table, as MapPage does.
- PageMapper.Mapper.AllocOne: assumes frames for the missing tables of its page, as MapPage does.
- PageMapper.Mapper.CreateRoot: assumes a free frame; without one the code clears frame 0 and uses it.
- PageMapper.Mapper.AllocRange: assumes that the tables it needs can be made, which `TableBudget.NourishedIff` states on the memory before the call.
- Ranges.AllocRangeAllOrNothing: assumes the same; `TableBudget.AllocRangeUsesNullIff` says what happens otherwise.
- TableBudget.AllocRangeSucceedsIff: assumes that the range does not starve; a starved one has frame 0 as a table, whatever it returns.
- ElfLoader.LoadProgram: assumes a frame for each page it maps and for each table on the way to it, a table that two ranges share counted twice, and segments on separate pages within the file and the lower half; the loader does not look at the result of its allocations. It works on memory values, not on the mapper object.
- ElfLoader.LoadSegment: assumes those frames for its range, and a segment within the file and the lower half, on unmapped pages.
- ElfLoader.HeapInit: assumes those frames for its two ranges.
- SpaceRuns.RunSane: page operations stay within the bounds of the single operations and pids do not wrap; the teardown of a process that a tick removes is not modelled.
- SpaceRuns.RunIsFold: speaks of the half that is a space's own; the upper half is the kernel's.
- HeapAllocator.Allocator.Malloc: sizes whose rounding wraps are excluded; `NeedCoversRequest` says which they are.
- BlockDevice.Device.WriteRaw: non-empty buffers below the address limit and blocks of more than one byte, which is what the installer passes.
- FileSystem.FileSystem.constructor: a disk that has a root is assumed to be sound, as the disks that the modelled runs leave are.
- FileSystem.FileSystem.WriteFile: data of at most 255 sectors, by `ReadBack`; a regular file used as a parent must have room for a record; only files, and directories without data, are made, as all callers do.
- FileSystem.FileSystem.DeleteFile: the root and files whose directory is hidden are excluded; their record is not where the code looks, and it copies more records than its buffer holds (`FileFailures.RemovalIff`).
- FileSystem.FileSystem.DeleteDirectory: directories whose own directory is hidden are excluded, for the same reason.
- FileSystem.FileSystem.RemoveFromDir: assumes that the directory lists the slot, once; `FileFailures.RemovalIff` says what happens otherwise.
- FileSystem.FileSystem.MoveFile: the same, and a regular file used as a parent must have room for a record.
- WorkingPaths.ParsePath: absolute paths, which is what the shell passes; a relative one may need a byte more than its buffer.
- Disks of fewer than 642 sectors, for which the free-space computation wraps.
- Bytes of a directory record behind the name's terminator: taken to be zero, the code leaves them as allocated.
- Heap allocation inside the filesystem and the shell is taken to succeed.
- `filesystem_list_dir`, metadata and printing: they only read.
- The disk holds the table apart from the data area; the superblock, drive identification and the port protocol are not modelled.
- `pmm_init` and the reservation of regions: the model starts from any bitmap in which frame 0 is used.
- `vmm_init`, huge pages, `vmm_unmap_PML4` and the teardown of a removed process's memory, also when a tick removes it; register loads.
- ELF32, ELF header checks and the register frame of a new process.
- System calls, blocking signals and signal handlers, which are empty in the code.
- CRC checks of GPT headers, the choice of the header, the hash that gives the disk id, and the rest of the installation: reads, fixed layouts and messages.
- Device errors other than the end of the device.
- Screen, keyboard, fonts, interrupts, floating-point helpers and the shell's commands.
