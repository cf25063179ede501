# guatOS: a verified model of the v1 kernel

This project models the three cores of the guatOS v1 kernel in Dafny and proves what they promise.

**Memory.** The first-fit bitmap on bytes (`Bitmap.dfy`), the intrusive list on words of memory
(`List.dfy`), two-level paging edited through its own recursive mapping (`Paging.dfy`), the state of
page allocation with the invariant that ties virtual bitmaps, page-table entries and frame pools
together (`Vm.dfy`, `Boot.dfy`, `Allocation.dfy`), the allocator as an object that reaches memory only
through the active directory (`AddressSpaces.dfy`), process directories and fork (`Fork.dfy`,
`Processes.dfy`), what exactly such calls take from the heap and the pools (`Gains.dfy`), and every run
of these calls from boot (`VmRuns.dfy`). A walk with access rights says what a user program can store
to. The arena allocator works on words, with headers, counters and free lists in the pages they manage (`Arena.dfy`, `ArenaSteps.dfy`,
`ArenaPages.dfy`, `Malloc.dfy`), in a page bitmap that it shares with others, and `HeapRuns.dfy` takes
it through whole runs in which holders store into their blocks, and those others take, give back and
write pages of their own. `Frames.dfy` says exactly when the pools have enough frames, and that both
layers answer alike.

**Threads and devices.** The scheduler, semaphores, re-entrant locks and the timer are one step machine
whose assertions are shown never to fail (`Sched.dfy`, in place in `Threads.dfy`). Every region with
interrupts off is one step, and so is every single access to a lock's fields, so that an interrupt can
come between `sema_down` returning and `holder` being written. The keyboard's ring buffer with blocking
readers and writers is `IoQueue.dfy`, the disk driver with its interrupt `Ide.dfy`.

**File system.** Sectors, words and bitmaps on the disk (`Disk.dfy`), inode slots (`Inode.dfy`), a
mounted partition with its list of open inodes (`Volume.dfy`), `inode_release` (`Release.dfy`), regular
files (`File.dfy`, `FileWrite.dfy`), directories (`Dir.dfy`, `DirStore.dfy`, `DirDelete.dfy`,
`DirRead.dfy`), paths (`Path.dfy`) and the walks along them on the disk (`Walk.dfy`). `Witnesses.dfy` shows a volume, a directory, a file and a tree
that meet the preconditions used there.

What the source changes in place is a class whose methods are proved against functions on the state.
Predicates called `Inv` or `Valid` are the invariants; a result type with `Halt` says that an ASSERT or
PANIC stops the kernel, `Null` that NULL is returned. Each `assert` in a method of `Threads.dfy` is an
ASSERT of the source; in other methods some are, and others are steps of the proof.

Where the code departs from what it is meant to do, the model does what the code does, and the condition
under which it meets its intent is a lemma: the bit read behind a bitmap (`Bitmaps.ScanIsFirstFitIff`),
the inode number cut to a byte by `inode_sync` (`Inodes.ReloadIff`, `Inodes.SyncClobbers`), the working
directory cut to a byte by `sys_chdir` (`Paths.ChdirGetcwdIff`), the ring buffer that does not test
again between taking its lock and going to sleep (`IoQueue.SleepsOnlyWhenEmptyIff`,
`IoQueue.StuckReader`), the assertion that stops the kernel for requests that `sys_malloc` lets through
(`Malloc.StopsBelowPool`), the sum in `file_read` that wraps (`Files.ReadSizeIff`), and a fork that ends
with NULL and keeps the pages it took (`Processes.SysFork`).

`Common.dfy` has the types and the few functions that all parts share. `dafny verify dfyconfig.toml`
checks the whole project.

## Model

| member | source | states |
|---|---|---|
| Bitmaps.ScanIsFirstFitIff | v1-src/lib/bitmap.c:28-65 | For more than one bit the scan also looks at the bit just past the map; it answers like first fit in the map exactly when that bit is set, or the map does not end in cnt - 1 clear bits, or a run lies inside; otherwise it answers with a run that ends behind the map |
| Bitmaps.LastSetIsExact | v1-src/lib/bitmap.c:28-65 | A map whose last bit is set, like that of a process with a stack, is always scanned exactly |
| Bitmaps.ScanOverrunExample | v1-src/lib/bitmap.c:47-51 | A map of one byte and a clear bit behind it for which the scan for two bits returns an index although the map has no such run |
| Bitmaps.MaskSets | v1-src/lib/bitmap.c:67-79 | Writing one bit of a byte through its mask gives that bit the value and leaves the other seven |
| Bitmaps.SetByteSetsBit | v1-src/lib/bitmap.c:67-79 | Rewriting byte k / 8 through the mask is, on the whole map, the update of bit k alone |
| Bitmaps.FullMap | v1-src/lib/bitmap.c:31-33 | Every byte is 0xff exactly when every bit is set, which is what the skipping loop relies on |
| Bitmaps.RunStep | v1-src/lib/bitmap.c:51-63 | One more bit of the scan either completes a run, which is then the least one, or keeps the claim that no run ends earlier |
| Bitmaps.Bitmap.Init | v1-src/lib/bitmap.c:15-18 | All bits become clear and memory behind the map is untouched |
| Bitmaps.Bitmap.ScanTest | v1-src/lib/bitmap.c:20-25 | The result is non-zero exactly when the bit is set, also for the bit just past the end |
| Bitmaps.Bitmap.FirstClearBit | v1-src/lib/bitmap.c:28-42 | Skipping full bytes and then set bits ends at the least clear bit of a map that is not full |
| Bitmaps.Bitmap.Scan | v1-src/lib/bitmap.c:28-65 | On a map that is not full: the least index at which cnt clear bits start, or -1 when there is none, the guard bit counting for cnt > 1 |
| Bitmaps.Bitmap.Set | v1-src/lib/bitmap.c:67-79 | The map as booleans changes in one bit; memory behind the map is untouched |
| Lists.InitializedIsEmpty | v1-src/lib/list.c:10-16 | The four stores make an empty list out of any memory |
| Lists.InsertedIsList | v1-src/lib/list.c:18-28 | For a list of any length and any position, the four link stores give the list with the element at that position and write only words of its nodes and of the element |
| Lists.RemovedIsList | v1-src/lib/list.c:44-52 | The two link stores give the list without the element at any position, in order, and write only words of its nodes |
| Lists.Memory.ListInit | v1-src/lib/list.c:10-16 | In memory the list is empty |
| Lists.Memory.ListInsertBefore | v1-src/lib/list.c:18-28 | The list has the element in front of the given node; no other memory changes |
| Lists.Memory.ListPush | v1-src/lib/list.c:30-33 | The list becomes the element followed by the old list |
| Lists.Memory.ListAppend | v1-src/lib/list.c:38-42 | The list becomes the old list followed by the element |
| Lists.Memory.ListRemove | v1-src/lib/list.c:44-52 | The element at its position is gone and the order of the others stays |
| Lists.Memory.ListPop | v1-src/lib/list.c:53-58 | The first element is returned and the rest is the list |
| Lists.Memory.ListEmpty | v1-src/lib/list.c:60-63 | True exactly for the empty list |
| Lists.Memory.ListLen | v1-src/lib/list.c:65-74 | The number of elements |
| Lists.Memory.ListTraversal | v1-src/lib/list.c:76-88 | The first element for which the function answers true, or none exactly when it answers false for all |
| Lists.Memory.ElemFind | v1-src/lib/list.c:90-100 | True exactly for a member of the list |
| Paging.PtePtrIsLinear | v1-src/kernel/memory.c:379-383 | The addresses computed for the entries form one array of words from 0xffc00000 on, in page order, for all 2^32 addresses |
| Paging.PtePtrOnBits | v1-src/kernel/memory.c:379-392 | The same for the masks and shifts on 32-bit registers, for both address macros |
| Paging.WalkIsEntry | v1-src/kernel/memory.c:522-526 | The two-level walk of an address faults exactly when the page has no present entry, and otherwise adds the offset to the frame |
| Paging.SelfMapReachesEntry | v1-src/kernel/memory.c:379-392 | Through self-mapped entry 1023 the hardware walks the computed address to exactly the entry of the given address, and faults exactly when there is no table; the directory entry is always reached |
| Paging.SelfMapReads | v1-src/kernel/memory.c:379-392 | The words read through the two windows are the entries of the page |
| Paging.SelfMapWrites | v1-src/kernel/memory.c:413-429 | A store through a window changes that one entry and nothing else |
| Paging.NewTableThroughWindow | v1-src/kernel/memory.c:422-428 | After a table frame is entered its window page is that frame, so clearing the window page clears the table and keeps the self-map |
| Paging.AdmittedStores | v1-src/kernel/memory.c:413-429 | When both entries on the way have U/S and R/W set, a store of a user program reaches the page wherever the walk does (section 4.6 of the Intel SDM Volume 3A) |
| Vm.UserStores | v1-src/kernel/memory.c:413-429 | Whenever the invariant holds, a store of a user program reaches every page of a user space below the kernel that is mapped, and faults on all others |
| Vm.KernelHalfShared | v1-src/userprog/process.c:74-88 | Whenever the invariant holds, every directory translates every kernel address outside the window exactly as the boot directory does |
| Vm.BitsMatchEntries | v1-src/kernel/memory.c:344-453 | Between operations a bit of a virtual bitmap is set exactly when its page is present |
| Vm.FramesNotShared | v1-src/kernel/memory.c:344-453 | Two pages that are present, in one space or two, have different frames |
| Vm.PoolsAreFramesInUse | v1-src/kernel/memory.c:145-158 | Between operations the set bits of the two pools are exactly the frames of mapped pages and of user page tables |
| Vm.TakeKeepsInv | v1-src/kernel/memory.c:398-408 | Taking a free frame keeps the invariant |
| Vm.MapKeepsInv | v1-src/kernel/memory.c:413-429 | Entering a reserved frame keeps the invariant and changes the entry of one page only, in all spaces |
| Vm.AddTableKeepsInv | v1-src/kernel/memory.c:422-428 | Adding a cleared page table keeps the invariant and changes no page entry |
| Vm.UnmapKeepsInv | v1-src/kernel/memory.c:161-166 | Clearing the present bit and freeing the frame keeps the invariant and changes the entry of one page only |
| Vm.WriteDataKeepsInv | v1-src/kernel/memory.c:522-526 | Any contents written to a data page leave every entry and the invariant alone |
| Vm.ReserveKeepsInv | v1-src/kernel/memory.c:344-373 | Setting the bits of a free run keeps the invariant, its pages then being those still to be mapped |
| Vm.ReleaseKeepsInv | v1-src/kernel/memory.c:168-184 | Clearing the bits of pages that are not mapped keeps the invariant |
| Boot.StartedIsGood | v1-src/boot/loader.s:100-138 | The page tables of the loader with the empty pools of mem_init satisfy the invariant, for every memory size from two megabytes on |
| Boot.LowMemoryMapped | v1-src/boot/loader.s:100-138 | The page tables of the loader map the first megabyte to itself, and once more from 3 gigabytes on |
| Allocation.MapRunIsExact | v1-src/kernel/memory.c:437-453 | The loop of malloc_page, when it does not stop the kernel, maps exactly its run to frames nobody used and changes no other entry, role or data |
| Allocation.MallocPageMapsItsRun | v1-src/kernel/memory.c:437-453 | malloc_page sets the bits of the first free run and maps exactly those pages; afterwards nothing is half done |
| Allocation.ReservedCanBeMapped | v1-src/kernel/memory.c:413-429 | The assertions of page_table_add hold whenever a frame is reserved for a page whose bit is set and which is not mapped yet |
| Allocation.UnmapRunIsExact | v1-src/kernel/memory.c:186-222 | The loop of mfree_page unmaps exactly its run and frees exactly the frames of those pages |
| Allocation.MFreePageUnmapsItsRun | v1-src/kernel/memory.c:186-222 | mfree_page of mapped pages leaves a state in which exactly those pages are gone and nothing is half done |
| Allocation.FreeUndoesMalloc | v1-src/kernel/memory.c:186-222 | mfree_page after malloc_page restores both bitmaps, the user pool, every entry and all data; only page tables of that space stay allocated, and for the kernel heap not even these |
| Allocation.WithTableKeepsInv | v1-src/kernel/memory.c:413-428 | Getting a missing page table keeps the invariant and all entries |
| Frames.RoundIff | v1-src/kernel/memory.c:413-429 | One round of the loop gets through exactly when the pool has a frame, and the kernel pool one for a missing table |
| Frames.MapRunIff | v1-src/kernel/memory.c:437-453 | The loop of malloc_page gets through exactly when the pool has a frame for each page and the kernel pool one for each page table that is missing |
| Frames.HeapAnswersAlike | v1-src/kernel/memory.c:437-453 | malloc_page as the heap sees it stops, answers NULL, or returns the address and sets the bits exactly as malloc_page on page tables and pools does |
| VmRuns.StepKeepsInv | v1-src/kernel/memory.c:344-453 | Each of malloc_page, get_a_page, mfree_page, a new address space, a fork and a write to data leads from a good state in which nothing is half done to another |
| VmRuns.ForkKeepsInv | v1-src/userprog/fork.c:42-69 | The whole copy loop of fork leaves such a state |
| VmRuns.RunKeepsInv | v1-src/kernel/memory.c:145-222 | So does every run of these calls |
| VmRuns.EveryReachableState | v1-src/kernel/memory.c:344-453 | In every state reached from boot: bit set exactly when mapped, frames not shared, pools exactly the frames in use, kernel half the same in all directories, and every mapped page of a user space can be stored to by its user program |
| AddressSpaces.Machine.constructor | v1-src/kernel/memory.c:272-338 | The machine after boot is in the good initial state; half of the pages behind two megabytes is in either pool, cut to whole bytes of bitmap, all bits are clear, and the first megabyte is mapped at 0 and at 3 gigabytes |
| AddressSpaces.Machine.AddrV2P | v1-src/kernel/memory.c:522-526 | The frame of the page that the active directory maps, plus the offset |
| AddressSpaces.Machine.Palloc | v1-src/kernel/memory.c:398-408 | The first free frame of the pool is taken; the kernel stops exactly when the pool is full |
| AddressSpaces.Machine.AddTableFor | v1-src/kernel/memory.c:422-428 | Through the windows alone: a frame is taken, entered with all rights of a user program, and cleared as a page table; failure exactly when the kernel pool is full |
| AddressSpaces.Machine.PageTableAdd | v1-src/kernel/memory.c:413-429 | Through the windows alone: the state becomes the one with the page mapped, with a new table where one was missing; a store of a user program at the address then reaches the frame; it fails only with a full kernel pool |
| AddressSpaces.Machine.VaddrGet | v1-src/kernel/memory.c:344-373 | The first run of cnt clear bits is set and its address returned, NULL exactly when there is none, whenever the scan is exact for the bit behind the map; otherwise the run found takes that bit too, and which of the two it is is told for every map and every such bit |
| AddressSpaces.Machine.GetAPageWithoutBitmap | v1-src/kernel/memory.c:529-541 | A frame is taken and mapped at a page whose bit is already set; it fails only when a pool is exhausted |
| AddressSpaces.Machine.MapPages | v1-src/kernel/memory.c:445-451 | The loop runs the specification of the whole run |
| AddressSpaces.Machine.MallocPage | v1-src/kernel/memory.c:437-453 | For a run inside the space: the outcome, the address and the new state are those of the specification, and the machine stays valid |
| AddressSpaces.Machine.GetAPage | v1-src/kernel/memory.c:488-517 | The page at the given address, and no other, is mapped to a frame nobody used; it stops only for a thread of the wrong kind or an exhausted pool |
| Allocation.PageGotIsExact | v1-src/kernel/memory.c:488-517 | get_a_page of a free page leaves a good state in which exactly that page is mapped and nothing is half done |
| AddressSpaces.Machine.Pfree | v1-src/kernel/memory.c:145-158 | The frame is clear in its own pool |
| AddressSpaces.Machine.PageTablePteRemove | v1-src/kernel/memory.c:161-166 | Through the window, bit 0 of the word of that page is cleared; every other bit, word and frame of memory is as before |
| AddressSpaces.Machine.FreeOnePage | v1-src/kernel/memory.c:186-222 | One round of either loop of mfree_page |
| AddressSpaces.Machine.VaddrRemove | v1-src/kernel/memory.c:168-184 | The bits of the run are cleared |
| AddressSpaces.Machine.MFreePage | v1-src/kernel/memory.c:186-222 | The new state is that of the specification, and the assertions in both loops hold |
| Fork.NewDirCanBeAdopted | v1-src/userprog/process.c:74-88 | A heap page filled by create_page_dir has the shared kernel half, maps itself, and has no user table |
| Fork.AdoptKeepsInv | v1-src/userprog/process.c:110-127 | Making such a page the directory of a process with any bitmap keeps the invariant |
| Fork.CopyStep | v1-src/userprog/fork.c:42-69 | One set bit of the copy loop maps the child page to an unused frame with the contents of the parent page and touches nothing but the buffer |
| Fork.CopyIsSnapshot | v1-src/userprog/fork.c:20-69 | After fork the child maps exactly the pages of the parent, with equal contents, on frames unused before; all earlier spaces are as they were |
| Processes.GetKernelPage | v1-src/kernel/memory.c:459-467 | A zeroed heap page on an unused frame, every space unchanged; exactly this page is gained; the kernel stops only when something is exhausted, and NULL does not occur |
| Processes.FillPageDir | v1-src/userprog/process.c:83-85 | The copy from the last page of the address space and the last store make the new directory page, with all rights in entry 1023 |
| Processes.CreatePageDir | v1-src/userprog/process.c:74-88 | A directory with the kernel half, itself in slot 1023 and nothing below; every space unchanged; exactly its page is gained |
| Processes.GetKernelPages | v1-src/kernel/memory.c:459-467 | Zeroed heap pages in a row on unused frames, every space unchanged; exactly these pages are gained; NULL only without a run, and nothing has changed then; the kernel stops only when something is exhausted |
| Processes.CreateProcessSpace | v1-src/userprog/process.c:94-127 | A new address space with an empty bitmap, every other space and all data unchanged; the heap has gained exactly 25 pages, of the PCB, the bitmap and the directory, and the pools exactly their frames; after NULL exactly the page of the PCB |
| Processes.PageDirActivate | v1-src/userprog/process.c:47-54 | The active directory is that of the process, or the boot directory for a thread without one |
| Processes.CopyOnePage | v1-src/userprog/fork.c:56-63 | One set bit, with the two switches of directory, does the specified step |
| Processes.CopyBodyStack3 | v1-src/userprog/fork.c:42-69 | Every page of the child up to the kernel is copied, or the kernel stopped with a pool exhausted; the parent directory is active again |
| Processes.CopyInto | v1-src/userprog/fork.c:42-69 | From a state in which the directory of the child and the buffer are there, the loop ends in the snapshot of the state before these were made; of the pages taken since then exactly the buffer is given back, and the copy itself takes frames for pages and tables of the child only |
| Processes.CopyProcess | v1-src/userprog/fork.c:104-124 | The result is the snapshot; the heap has gained exactly 24 pages, of the bitmap and the directory, the buffer being free again; after NULL exactly the buffer, which the source does not give back; all earlier data is unchanged |
| Processes.SnapshotFrom | v1-src/userprog/fork.c:104-124 | Heap pages taken before the copy do not matter: a snapshot of the state after them is one of the state before |
| Processes.SysFork | v1-src/userprog/fork.c:124-141 | Exactly the pages of the caller, with equal contents, on frames unused before; the heap has gained exactly 25 pages, of the PCB, the bitmap and the directory, and the pools exactly their frames and those of the pages and tables of the child, every other bit and mapping of the heap and all data being as before; after NULL every space is as it was, and exactly the PCB and the buffer are gained; the kernel stops only when something is exhausted |
| Gains.MappedIsGained | v1-src/kernel/memory.c:437-453 | malloc_page for the kernel: the heap has exactly the pages of its run more, whose bits were clear, and frames newly in use are for these |
| Gains.CopyGains | v1-src/userprog/fork.c:42-69 | The copy loop leaves the bits and the mappings of the heap alone, and frames newly in use are for pages and page tables of the child |
| Gains.FreedAgain | v1-src/kernel/memory.c:186-222 | A page that was gained and is given back is not gained: bit, mapping and frame are as they were at first |
| Gains.GainedTrans | v1-src/kernel/memory.c:437-467 | What two calls gain adds up, and no page is gained twice |
| Gains.PoolsFollow | v1-src/kernel/memory.c:145-158 | The pools then have exactly the frames of the pages and spaces gained more, and none of these was in use before |
| Processes.CopyTakes | v1-src/userprog/fork.c:104-124 | Of the pages taken before the copy only that of the buffer goes back |
| Processes.CopyStays | v1-src/userprog/fork.c:104-124 | No page of data from before fork is written by the copy or given back after it |
| Arena.DescTable | v1-src/kernel/memory.c:38-48 | Block sizes double from 16 and the number of blocks is what fits behind the header |
| Arena.BlockBounds | v1-src/kernel/memory.c:51-59 | Every block lies in its page behind the header, and clearing the low twelve bits of its address finds the arena again |
| Arena.LiveBlocksDisjoint | v1-src/kernel/memory.c:61-142 | Live pointers have at least the bytes asked for, and no two of them share one |
| Arena.ArenaHasLive | v1-src/kernel/memory.c:225-265 | Every arena, small or large, has a live pointer in it |
| Arena.NothingLiveNothingHeld | v1-src/kernel/memory.c:225-265 | With no live pointer every free list is empty, and the bits that are set are exactly the pages of other holders |
| Arena.CountBounds | v1-src/kernel/memory.c:51-142 | The counter of an arena is at most the number of its blocks, and equal exactly when all are free |
| ArenaSteps.MoveKeepsInv | v1-src/kernel/memory.c:133-137 | Moving one block between a free list and the live pointers, with the counter, keeps the invariant of the whole heap |
| ArenaPages.BuildKeepsInv | v1-src/kernel/memory.c:112-131 | A new arena with all its blocks appended keeps the invariant |
| ArenaPages.CollapseKeepsInv | v1-src/kernel/memory.c:254-262 | Giving back an arena whose blocks are all free keeps the invariant |
| ArenaPages.LargeKeepsInv | v1-src/kernel/memory.c:88-98 | A large arena keeps the invariant |
| ArenaPages.DropKeepsInv | v1-src/kernel/memory.c:248-250 | Giving back a large arena keeps the invariant |
| ArenaPages.BesideKeepsInv | v1-src/kernel/memory.c:38-59 | No change to words that are neither size words, list ends, headers nor free blocks breaks the heap |
| ArenaPages.OthersKeepInv | v1-src/kernel/memory.c:344-453 | Whatever other holders of pages do, taking free pages, giving theirs back and writing to them, the invariant of the heap stays, and so does every word of a live block |
| ArenaPages.HolderKeepsInv | v1-src/kernel/memory.c:51-59 | The holder of a block may store anything anywhere in it: the invariant stays, and every word of the other live blocks |
| Malloc.BlockDescInit | v1-src/kernel/memory.c:38-48 | In memory all seven descriptors have their sizes, counts and an empty list, and nothing else is written |
| Malloc.MoveLeavesOthers | v1-src/kernel/memory.c:133-137 | A block that moves leaves the bytes, the room and the requests of all other live pointers alone |
| Malloc.TooManyPages | v1-src/kernel/memory.c:88-98 | The sizes for which the assertion on the number of pages fails |
| Malloc.StopsBelowPool | v1-src/kernel/memory.c:437-439 | On a machine of 32 MB a request of 15724533 bytes passes the size test of sys_malloc and stops the kernel, whatever is free; one byte less does not ask for too many pages |
| Malloc.KernelHeap.constructor | v1-src/kernel/memory.c:38-48 | An empty heap in a space of which any pages may be taken satisfies the invariant; the taken pages belong to others |
| Malloc.KernelHeap.HolderWrites | v1-src/kernel/memory.c:133-139 | A store to any word of a live block: that word has changed, the heap stays good, all other pointers and the pages of others keep their bytes |
| Malloc.KernelHeap.OthersTake | v1-src/kernel/memory.c:437-467 | Somebody else gets a run of pages: they become theirs, and the heap, its pointers and their bytes stay |
| Malloc.KernelHeap.OthersTakeAt | v1-src/kernel/memory.c:488-517 | The same for one page at a given address |
| Malloc.KernelHeap.OthersGiveBack | v1-src/kernel/memory.c:186-222 | Somebody else gives a page back: the heap stays, and only that page is free |
| Malloc.KernelHeap.OthersWrite | v1-src/kernel/memory.c:522-526 | A store to a page of somebody else leaves the heap and its blocks alone |
| Malloc.KernelHeap.FindDesc | v1-src/kernel/memory.c:106-112 | The smallest class that holds the request |
| Malloc.KernelHeap.MallocPage | v1-src/kernel/memory.c:437-453 | The kernel stops exactly for 3840 pages or more, a full bitmap, a user run found at the last page below the kernel, or a run without frames; otherwise NULL exactly when there is no run, and else the first one |
| Malloc.KernelHeap.BuildArena | v1-src/kernel/memory.c:112-132 | A full free list for a class that had none, other pointers intact; the kernel stops exactly where a request for one page stops it |
| Malloc.KernelHeap.AppendBlocks | v1-src/kernel/memory.c:126-130 | All blocks of the arena are on the list in address order, every link in memory |
| Malloc.KernelHeap.TakeBlock | v1-src/kernel/memory.c:133-139 | The first free block, zeroed, becomes live; others intact |
| Malloc.KernelHeap.SmallMalloc | v1-src/kernel/memory.c:105-140 | A zeroed block of the smallest class that holds the size, the first of the free list if that is not empty; a page is taken only when the list is empty, and the kernel stops exactly when that page stops it; never NULL |
| Malloc.KernelHeap.LargeMalloc | v1-src/kernel/memory.c:88-104 | Whole pages with a header; the kernel stops exactly where the request for these pages stops it, from 3840 pages on always; otherwise NULL exactly when no run is free |
| Malloc.KernelHeap.SysMalloc | v1-src/kernel/memory.c:61-142 | NULL exactly for a size of 0, a size not below the pool, or a large request that does not stop the kernel and has no run of pages; the kernel stops exactly when pages are needed and the request for them stops it; otherwise a zeroed block nobody had, the first of its class if there is a free one, all other pointers and their bytes intact; its room is the least class or the least whole number of pages less 12 bytes that holds the size |
| Malloc.KernelHeap.GiveBack | v1-src/kernel/memory.c:251-263 | The pointer is no longer live, others intact; the block is the last of its free list, or no block of its arena is left in use, and then all of them are off the list and the page is free |
| Malloc.KernelHeap.Collapse | v1-src/kernel/memory.c:254-262 | Exactly the blocks of the arena leave the list, and exactly its page is free |
| Malloc.KernelHeap.SysFree | v1-src/kernel/memory.c:225-265 | Exactly this pointer stops being live, and all others keep their bytes; a small block is then the last of its free list, or its whole arena was free and exactly its page is given back; a large one gives back exactly its pages; NULL changes nothing |
| HeapRuns.RunCalls | v1-src/kernel/memory.c:61-142 | After any run of requests, releases and stores of the holders into their blocks, with others taking, giving back and writing pages in between, every word of every block held is the one stored last, or 0; the blocks do not overlap and are as large as asked for; the others hold what they took; each request of up to 1024 bytes and below the pool was granted, none of 0 or of the size of the pool |
| HeapRuns.OneStore | v1-src/kernel/memory.c:61-142 | A store into a block changes what its holder expects there, and nothing else |
| HeapRuns.OneFree | v1-src/kernel/memory.c:225-265 | A release takes away one block; the others read as before |
| HeapRuns.OneAlloc | v1-src/kernel/memory.c:61-142 | A request that is granted adds a block of zeros; the others read as before |
| HeapRuns.HeldIsOk | v1-src/kernel/memory.c:61-142 | Pointers that are exactly the live ones are pairwise apart and large enough |
| HeapRuns.OthersMove | v1-src/kernel/memory.c:186-222 | Any move of another holder keeps the heap good, its live pointers, their room and every word of theirs |
| HeapRuns.FreeAll | v1-src/kernel/memory.c:225-265 | Releasing everything that is held leaves exactly the bits of other holders set, their pages as they were, and every free list in memory empty |
| Sched.ScheduleWorks | v1-src/thread/thread.c:241-267 | No assertion in schedule fails, including the unblocking of idle, and afterwards exactly one thread runs |
| Sched.ScheduleKeepsInv | v1-src/thread/thread.c:241-267 | schedule keeps the global invariant |
| Sched.TimerKeepsInv | v1-src/device/timer.c:58-71 | So does a timer interrupt at any point where interrupts are on |
| Sched.StartKeepsInv | v1-src/thread/thread.c:210-223 | So does starting a thread |
| Sched.BlockKeepsInv | v1-src/thread/thread.c:291-299 | So does blocking, the idle thread included |
| Sched.UnblockKeepsInv | v1-src/thread/thread.c:304-314 | So does unblocking a sleeping thread |
| Sched.AcquireKeepsInv | v1-src/thread/sync.c:49-60 | So does the test at the head of lock_acquire, nested or not |
| Sched.AcquireStepKeepsInv | v1-src/thread/sync.c:52-55 | So do the single stores after sema_down, between any of which other threads may run; the count is 0 where the source asserts it |
| Sched.ReleaseKeepsInv | v1-src/thread/sync.c:62-73 | So do the assertion and the tests at the head of lock_release |
| Sched.ReleaseStepKeepsInv | v1-src/thread/sync.c:69-72 | So do its single stores |
| Sched.TakeKeepsInv | v1-src/thread/sync.c:23-34 | So does taking the semaphore: nobody else is inside |
| Sched.SleepKeepsInv | v1-src/thread/sync.c:23-34 | So does going to sleep on it |
| Sched.WakeKeepsInv | v1-src/thread/sync.c:36-47 | So does waking the first waiter, who still has to look at the semaphore |
| Sched.UpKeepsInv | v1-src/thread/sync.c:36-47 | So does sema_up |
| Sched.StepKeepsInv | v1-src/thread/thread.c:241-314 | No assertion fails in any enabled step, and the invariant stays |
| Sched.EveryRunIsSafe | v1-src/thread/thread.c:241-314 | Over every run of any interleaving no assertion fails and the invariant holds |
| Sched.BootedIsGood | v1-src/thread/thread.c:273-286 | The state after thread_init satisfies the invariant |
| Sched.MutualExclusion | v1-src/thread/sync.c:49-73 | At most one thread is inside a lock, with the right count; semaphores are 0 or 1; a thread is on at most one list |
| Sched.RoundRobin | v1-src/device/timer.c:58-71 | While only timer interrupts come, the ready thread at position k runs after exactly the sum of the remaining slices plus one interrupt each, and not before |
| Sched.WithinSlice | v1-src/device/timer.c:58-71 | For as many interrupts as a thread has ticks left it goes on and nobody else changes |
| Sched.EndOfSlice | v1-src/thread/thread.c:241-267 | At the end of a slice the thread goes to the end of the list with its priority as its new slice, and the first one runs |
| Sched.ClockCounts | v1-src/device/timer.c:58-71 | The tick counter is the number of interrupts modulo 2^32 |
| Sched.WokenRunsNext | v1-src/thread/thread.c:304-314 | A woken thread is the one that the next schedule runs, before all that were ready |
| Sched.LongestWaiterIsWoken | v1-src/thread/sync.c:36-47 | sema_up wakes the thread that has waited longest and puts it in front of the ready list |
| Sched.SleeperQueuesLast | v1-src/thread/sync.c:23-34 | A thread that goes to sleep queues behind all waiters |
| Threads.Kernel.constructor | v1-src/thread/thread.c:273-286 | After thread_init: main runs, init and idle are ready in this order, with priorities 31, 31 and 10 and whole slices; all locks are free |
| Threads.Kernel.ThreadUnblock | v1-src/thread/thread.c:304-314 | Its assertions hold; the thread is READY and first on the ready list, and nothing else about it or about others changes |
| Threads.Kernel.Schedule | v1-src/thread/thread.c:241-267 | Its assertions hold; a running thread is queued as READY with a fresh slice, and the first of the list, or idle if that is empty, runs; nothing else about any thread changes |
| Threads.Kernel.Requeue | v1-src/thread/thread.c:246-251 | A running thread is READY at the end of the list with its priority as its slice; its assertion holds; any other stays as it is |
| Threads.Kernel.Dispatch | v1-src/thread/thread.c:259-266 | The first ready thread leaves the list and runs; nothing else changes |
| Threads.Kernel.ThreadBlock | v1-src/thread/thread.c:291-299 | For any of the three states asked for: the thread that was current has it, and keeps priority, slice and ticks, unless it is idle and runs again; the first ready thread, or idle, runs; no other thread changes; the invariant is kept |
| Threads.Kernel.ThreadStart | v1-src/thread/thread.c:210-223 | The new thread is READY at the end of the list with its priority as its slice and no ticks; nobody else changes; the invariant is kept |
| Threads.Kernel.IntrTimerHandler | v1-src/device/timer.c:58-71 | The clock and the ticks of the current thread count one; it goes on with one tick less, or at 0 queues with a fresh slice and the first of the list runs; nothing else changes; the invariant is kept |
| Threads.Kernel.SemaDownPass | v1-src/thread/sync.c:23-34 | One pass of the loop: with the semaphore at 0 the thread blocks behind the other waiters and the next one runs, else it takes the semaphore; nothing else changes; its assertions hold |
| Threads.Kernel.SemaUp | v1-src/thread/sync.c:36-47 | The semaphore is 1, the first waiter, if any, is READY in front of the list and off the waiters, and nothing else changes; both assertions hold |
| Threads.Kernel.LockAcquire | v1-src/thread/sync.c:49-60 | A holder counts one more, anybody else goes to the semaphore; nothing else changes; the invariant is kept |
| Threads.Kernel.LockRelease | v1-src/thread/sync.c:62-73 | The assertion on the holder holds; above 1 the count is one less, and at 1 the thread goes on to give the lock up; nothing else changes |
| Threads.Kernel.TouchLock | v1-src/thread/sync.c:52-72 | Each single access to holder and holder_repeat_nr writes what the source writes there and nothing else; the assertion on the count holds |
| IoQueue.FullIs63 | v1-src/device/ioqueue.c:14-29 | The queue is full exactly with 63 characters and empty exactly with none |
| IoQueue.StoredRing | v1-src/device/ioqueue.c:75-77 | Storing at head appends to the contents, around the end of the buffer too |
| IoQueue.TakenRing | v1-src/device/ioqueue.c:56-57 | Taking at tail removes the oldest character |
| IoQueue.GetLoopWorks | v1-src/device/ioqueue.c:45-63 | ioq_getchar returns the oldest character or waits, and the assertions of the wait hold |
| IoQueue.PutLoopWorks | v1-src/device/ioqueue.c:66-81 | ioq_putchar appends or waits, likewise |
| IoQueue.StepKeepsInv | v1-src/device/ioqueue.c:31-81 | No assertion of the queue or of its lock fails in any step; a recorded waiter is a blocked thread that holds the lock; no lock waiter is stranded |
| IoQueue.EveryRunKeepsInv | v1-src/device/ioqueue.c:31-81 | The same over every run |
| IoQueue.EveryRunIsFifo | v1-src/device/ioqueue.c:45-81 | In every run the characters returned are a prefix of those accepted, at most 63 behind, and recorded waiters are blocked holders of the lock |
| IoQueue.SleepsOnlyWhenEmptyIff | v1-src/device/ioqueue.c:45-63 | Exactly which step puts a reader to sleep on a queue with something in it: the one in which it comes out of a wait for the lock, finds it free, and characters are there |
| IoQueue.GuardedReaderIsNotStuck | v1-src/device/keyboard.c:163-165 | With one reader, and writers that test for a full queue first as the keyboard handler does, the reader is blocked only while the queue is empty, in every run |
| IoQueue.StuckReader | v1-src/device/ioqueue.c:45-81 | A concrete run of one reader and one blocking writer that ends with the reader asleep on a queue with a character in it |
| IoQueue.Ioqueue.constructor | v1-src/device/ioqueue.c:7-12 | An empty queue without waiters and with a free lock that satisfies the invariant |
| IoQueue.Ioqueue.IoqWakeup | v1-src/device/ioqueue.c:38-43 | The assertion holds; the waiter is awake where it was, and nobody else has moved |
| IoQueue.Ioqueue.GetChar | v1-src/device/ioqueue.c:45-63 | The oldest character comes out and a recorded writer is awake and no longer recorded; or the queue is empty, nothing changes in the ring, and the caller blocks for the lock or, with it, as the recorded reader |
| IoQueue.Ioqueue.PutChar | v1-src/device/ioqueue.c:66-81 | The character is stored exactly when fewer than 63 are there, and a recorded reader is awake and no longer recorded; otherwise the caller blocks for the lock or, with it, as the recorded writer |
| IoQueue.Ioqueue.FromLock | v1-src/device/ioqueue.c:31-36 | lock_acquire followed by the wait: the thread blocks as the last waiter for the lock, or holds it and is recorded; nobody else moves |
| Ide.SelectRoundTrip | v1-src/device/ide.c:123-136 | The registers are in LBA mode with bits 7 and 5 of the device register set, without which a disk would decode no address, and it decodes from them the address, the device and the count that were asked for, 256 being passed as byte 0 (28-bit READ/WRITE SECTOR(S), clause 8 of ATA/ATAPI-6) |
| Ide.ReadAfterWrite | v1-src/device/ide.c:184-253 | After a write each sector written has the new bytes and every other sector the old ones |
| Ide.ChunksTile | v1-src/device/ide.c:184-218 | Chunks that follow each other read like one transfer |
| Ide.WritesTile | v1-src/device/ide.c:220-253 | Chunks that follow each other write like one transfer |
| Ide.EveryHandshake | v1-src/device/ide.c:257-268 | Over every interleaving with the interrupt the semaphore assertions hold, at most one of expecting_intr and a pending completion is there, and each command takes one completion |
| Ide.SleeperIsWoken | v1-src/device/ide.c:257-268 | The next interrupt wakes a driver that sleeps, and it can then go on |
| Ide.IdeChannel.constructor | v1-src/device/ide.c:257-268 | A channel with no command under way |
| Ide.IdeChannel.SelectDisk | v1-src/device/ide.c:115-122 | The device is selected, in LBA mode; no other register changes |
| Ide.IdeChannel.SelectSector | v1-src/device/ide.c:123-136 | The registers hold the address, the count and the device |
| Ide.IdeChannel.CmdOut | v1-src/device/ide.c:138-142 | The completion is expected before the command is sent; the disk is at that command, with the registers as they are then |
| Ide.IdeChannel.IntrHdHandler | v1-src/device/ide.c:257-268 | The specified step; its sema_up finds a semaphore of 0 |
| Ide.IdeChannel.AwaitDone | v1-src/device/ide.c:184-218 | One completion is taken, whether the interrupt came before or while waiting |
| Ide.IdeChannel.ReadFromSector | v1-src/device/ide.c:144-154 | For the command 20h in LBA mode: the words go to their place in the buffer and nowhere else; a command gives its words once |
| Ide.IdeChannel.Write2Sector | v1-src/device/ide.c:156-166 | For the command 30h in LBA mode: the words go to the sectors named by the registers when it was sent, and nowhere else; a command takes its words once |
| Ide.IdeChannel.ReadChunk | v1-src/device/ide.c:203-215 | One command with its wait extends the contiguous copy by the sectors of the chunk, unless the disk is not ready |
| Ide.IdeChannel.WriteChunk | v1-src/device/ide.c:238-250 | One command with its wait writes the sectors of the chunk behind those before, unless the disk is not ready |
| Ide.IdeChannel.IdeRead | v1-src/device/ide.c:184-218 | Any number of sectors is one contiguous copy; the first chunk that finds the disk not ready stops the kernel, with exactly the chunks before it copied |
| Ide.IdeChannel.IdeWrite | v1-src/device/ide.c:220-253 | Any number of sectors is one contiguous overwrite; the first chunk that finds the disk not ready stops the kernel, with exactly the chunks before it written |
| Disk.WordRoundTrip | v1-src/fileSystem/inode.c:35-58 | A word stored low byte first reads back |
| Disk.PackedSector | v1-src/fileSystem/file.c:75-93 | Every bit of a bitmap can be found in the packed sector |
| Disk.MapBytes | v1-src/fileSystem/file.c:75-93 | The sector that is written has the very bytes of the bitmap in memory |
| Disk.BitmapReadsBack | v1-src/fileSystem/file.c:75-93 | Every bit of a bitmap can be read back from its sectors |
| Disk.SyncIsEnough | v1-src/fileSystem/file.c:75-93 | Writing the one sector of a changed bit brings the whole bitmap on the disk up to date |
| Inodes.InodeRoundTrip | v1-src/fileSystem/inode.c:35-58 | Decoding an encoded inode gives the inode |
| Inodes.SyncedLayout | v1-src/fileSystem/inode.c:35-58 | After inode_sync the words of the table at 76 times the low byte of the number, at + 4 and at + 16 + 4 k are the number, the size and block k, low byte first; the bytes at + 8 to + 15 and + 68 to + 75 are 0; every other byte of the table and every other sector is as before |
| Inodes.StoredLayout | v1-src/fileSystem/inode.c:84-93 | The inode of a slot has as its number, size, count, write_deny and blocks the words at + 0, + 4, + 8, + 12 and + 16 + 4 k |
| Inodes.DeletedLayout | v1-src/fileSystem/inode.c:130-148 | After inode_delete the 76 bytes of the slot are 0 and every other byte of the table is as before |
| Inodes.LocateIsRight | v1-src/fileSystem/inode.c:18-33 | two_sec is true exactly when the slot straddles a sector, and the slot lies in the table and in what is read |
| Inodes.SlotsDisjoint | v1-src/fileSystem/inode.c:18-33 | Slots of different inodes share no byte |
| Inodes.SlotWrittenBytes | v1-src/fileSystem/inode.c:35-58 | Writing a slot changes its 76 bytes of the table, no other byte and no other sector |
| Inodes.SlotRoundTrip | v1-src/fileSystem/inode.c:35-58 | A slot reads back what was written; every other slot is as before |
| Inodes.SyncedSlots | v1-src/fileSystem/inode.c:35-58 | After inode_sync the slot of the low byte of the number holds the persistent fields and every other slot what it held |
| Inodes.ReloadIff | v1-src/fileSystem/inode.c:35-98 | Sync and reload return the persistent fields exactly for numbers below 256, or when the slot held them anyway |
| Inodes.SyncClobbers | v1-src/fileSystem/inode.c:37 | For a number of 256 or more inode_sync overwrites the slot of another inode |
| Inodes.DeletedSlots | v1-src/fileSystem/inode.c:130-148 | The slot is zero and every other one as before |
| Volumes.BlockBitKeeps | v1-src/fileSystem/file.c:75-93 | Writing a block bit in memory and on the disk keeps both bitmaps in step and the table and data untouched |
| Volumes.InodeBitKeeps | v1-src/fileSystem/file.c:75-93 | The same for an inode bit |
| Volumes.CountedMore | v1-src/fileSystem/inode.c:64-75 | Another open of a listed inode keeps the list exact |
| Volumes.Pushed | v1-src/fileSystem/inode.c:76-98 | A first open puts one inode for the number on the list |
| Volumes.CountedLess | v1-src/fileSystem/inode.c:101-113 | A close that is not the last keeps the list exact |
| Volumes.TakenOut | v1-src/fileSystem/inode.c:101-113 | The last close takes the inode off the list |
| Volumes.Partition.constructor | v1-src/fileSystem/inode.c:64-98 | A well-formed volume with no inode open |
| Volumes.Partition.BlockBitmapAlloc | v1-src/fileSystem/file.c:65-72 | The first free data block, which was free and is now taken |
| Volumes.Partition.SyncBlockBit | v1-src/fileSystem/file.c:75-93 | Exactly the sector of that bit is written |
| Volumes.Partition.SyncInodeBit | v1-src/fileSystem/file.c:75-93 | Exactly the sector of that bit is written |
| Volumes.Partition.InodeSync | v1-src/fileSystem/inode.c:35-58 | The slot that inode_sync locates has the number, the size and the blocks at their offsets, low byte first, and zeros elsewhere; no other byte of the table and no other sector changes |
| Volumes.Partition.InodeDelete | v1-src/fileSystem/inode.c:130-148 | The 76 bytes of the slot are 0; no other byte of the table and no other sector changes |
| Volumes.Partition.LoadInode | v1-src/fileSystem/inode.c:84-93 | The inode whose fields are the words of its slot at their offsets |
| Volumes.Partition.AddNode | v1-src/fileSystem/inode.c:76-98 | A fresh inode in front of the list, opened once |
| Volumes.Partition.CountOpen | v1-src/fileSystem/inode.c:66-75 | An inode found on the list is opened once more |
| Volumes.Partition.InodeOpen | v1-src/fileSystem/inode.c:64-98 | The one in-memory inode of the number with one open more, or a fresh one from the disk exactly when none is open; all others untouched |
| Volumes.Partition.InodeClose | v1-src/fileSystem/inode.c:101-113 | One open less; the inode leaves the list exactly with its last close |
| Release.NamedIsBlock | v1-src/fileSystem/inode.c:150-189 | The blocks freed are exactly the direct blocks, the table block and the table entries of the file |
| Release.ReleaseAddsUp | v1-src/fileSystem/inode.c:150-189 | Freeing the blocks, clearing the inode bit and zeroing the slot together change exactly these, in memory and on the disk |
| Release.FreeBlocks | v1-src/fileSystem/inode.c:155-182 | Exactly the bits of the listed blocks are cleared, in memory and on the disk |
| Release.InodeRelease | v1-src/fileSystem/inode.c:150-189 | Exactly the bits of the file and its inode are cleared, its slot is zero, no other slot, block or open inode changes |
| Files.ReadBlocks | v1-src/fileSystem/file.c:385-427 | The four ways of gathering block numbers give the block map of the file, direct and indirect |
| Files.BlockLayout | v1-src/fileSystem/file.c:385-427 | The first 12 block numbers stand in the inode, the next 128 as words of the sector it names last, low byte first |
| Files.ContentLayout | v1-src/fileSystem/file.c:361-449 | Byte x of a file is byte x % 512 of the block that stands at place x / 512 of its block numbers |
| Files.ReadChunk | v1-src/fileSystem/file.c:431-445 | One round copies the next bytes of the file and writes nothing else of the buffer |
| Files.ReadSizeIff | v1-src/fileSystem/file.c:361-373 | The 32-bit sum of position and count makes the read as long as it should be exactly when it does not wrap, or wraps to something above the size |
| Files.ReadSizeExample | v1-src/fileSystem/file.c:367-369 | At position 1 of a file of 10 bytes a read of 2^32 - 1 bytes sets out for all of them |
| Files.FillBuffer | v1-src/fileSystem/file.c:430-446 | The loop copies the next bytes of the file, to the last, and writes nothing else of the buffer |
| Files.FileRead | v1-src/fileSystem/file.c:361-449 | The bytes from the position to the smaller of position plus count and the size, for direct and indirect files; -1 at the end of the file |
| FileWrites.AddBlock | v1-src/fileSystem/file.c:268-277 | One block more: it was free, its bit is set in memory and on the disk, and the inode names it |
| FileWrites.Grow | v1-src/fileSystem/file.c:233-279 | Exactly the missing direct blocks are allocated |
| FileWrites.AppendChunk | v1-src/fileSystem/file.c:329-354 | A chunk behind the first n bytes of a file appends to its contents |
| FileWrites.WriteChunk | v1-src/fileSystem/file.c:329-354 | One round appends the chunk and writes no other sector |
| FileWrites.WriteData | v1-src/fileSystem/file.c:329-354 | The loop appends the whole buffer |
| FileWrites.AppendAddsUp | v1-src/fileSystem/file.c:196-359 | Growing, writing and syncing add up to an append |
| FileWrites.FileWrite | v1-src/fileSystem/file.c:196-359 | Below 12 blocks: exactly the buffer is appended, exactly the new blocks are allocated in memory and on the disk, the inode is on the disk, every other data sector and inode slot is unchanged |
| FileWrites.OtherFileUnchanged | v1-src/fileSystem/file.c:196-359 | A write leaves the blocks and the bytes of every other file unchanged |
| FileWrites.AppendableIsReadable | v1-src/fileSystem/file.c:361-449 | The file after a write is one that file_read accepts |
| FileWrites.WritesReadBack | v1-src/fileSystem/file.c:196-449 | Two writes followed by a read from where the first began give back both buffers in order |
| FileWrites.CloseFile | v1-src/fileSystem/file.c:186-194 | A close leaves the bytes of the file where the next open finds them: in memory if others have it open, and else on the disk |
| FileWrites.OpenWriteClose | v1-src/fileSystem/file.c:160-359 | After an open, a write and a close the next open finds the old bytes followed by the new ones, and every inode is open as often as before |
| Volumes.SameListOk | v1-src/fileSystem/inode.c:64-75 | Another size and other blocks of open inodes leave the list exact |
| Directories.PutEntry | v1-src/fileSystem/direct.c:184-190 | An entry copied into a slot of a sector is there, and the other 20 slots are as before |
| Directories.EntryLayout | v1-src/fileSystem/direct.h:18-23 | Entry k of a sector: 16 bytes of name from byte 24 k on, then the number and the type as words, low byte first |
| DirStore.SlotLayout | v1-src/fileSystem/direct.c:44-89 | Slot n of a directory is entry n % 21 of its block n / 21, byte by byte, and free when that block is not there |
| Directories.SearchIsLookup | v1-src/fileSystem/direct.c:44-89 | The first slot with a name, if any, is what the directory as a map has for it |
| Directories.InsertInMap | v1-src/fileSystem/direct.c:116-197 | Filling the first free slot adds exactly that name, keeps "." and "..", and counts one live entry more |
| Directories.DeleteFromMap | v1-src/fileSystem/direct.c:200-297 | Zeroing a slot removes exactly that name and counts one live entry less |
| DirStore.SlotsAfterPut | v1-src/fileSystem/direct.c:182-190 | A sector written with the entry changes that slot of the directory only |
| DirStore.SlotsAfterNewBlock | v1-src/fileSystem/direct.c:139-180 | A new block with the entry in front changes that slot only |
| DirStore.SlotsAfterFreeing | v1-src/fileSystem/direct.c:255-262 | Dropping a block whose only entry is the given one clears that slot only |
| DirStore.PutKeepsDir | v1-src/fileSystem/direct.c:182-190 | Insertion into a block that is there keeps the directory well formed, its size the number of live entries times 24 |
| DirStore.NewBlockKeepsDir | v1-src/fileSystem/direct.c:139-180 | So does insertion with a new block |
| DirStore.SearchDirEntry | v1-src/fileSystem/direct.c:44-89 | Found exactly when the map has the name, with its inode and type |
| DirStore.AddDirBlock | v1-src/fileSystem/direct.c:139-180 | A new block with the entry, allocated in memory and on the disk |
| DirStore.SyncDirEntry | v1-src/fileSystem/direct.c:116-197 | The map gets exactly the new name; the first free slot is used; a block is allocated exactly when that slot has none |
| DirDelete.ScanBlock | v1-src/fileSystem/direct.c:229-248 | Whether the block has ".", how many other live entries it has, and where the entry with the number is |
| DirDelete.FindTarget | v1-src/fileSystem/direct.c:215-252 | The block and the place of the one entry with the number, and what was counted in its block; 140 exactly when there is none |
| DirDelete.RemoveAndSync | v1-src/fileSystem/direct.c:254-292 | That entry goes, and the inode of the directory is on the disk |
| DirDelete.ZeroingKeepsDir | v1-src/fileSystem/direct.c:284-291 | Zeroing an entry keeps the directory well formed |
| DirDelete.FreeingKeepsDir | v1-src/fileSystem/direct.c:255-291 | Freeing the block of its only entry keeps the directory well formed and gives back exactly that block |
| DirDelete.FreeDirBlock | v1-src/fileSystem/direct.c:256-262 | The block goes back, in memory and on the disk, and the directory forgets it |
| DirDelete.FreeWithBlock | v1-src/fileSystem/direct.c:255-291 | The only entry of a block goes with its block |
| DirDelete.WipeEntry | v1-src/fileSystem/direct.c:284-290 | An entry is zeroed in its block, and nothing else of the directory changes |
| DirDelete.RemoveEntry | v1-src/fileSystem/direct.c:254-290 | The choice between freeing and zeroing removes exactly that slot |
| DirDelete.DeleteDirEntry | v1-src/fileSystem/direct.c:200-297 | True exactly when an entry other than "." and ".." has the number; then its name and only it goes, on the disk too; otherwise nothing changes |
| DirRead.DirReadNext | v1-src/fileSystem/direct.c:300-346 | The live entry numbered by the position, over missing blocks and free slots; NULL exactly behind the last; the scan stays in bounds |
| DirRead.ReadWhole | v1-src/fileSystem/direct.c:300-346 | From position 0 on, repeated reading gives all live entries in slot order and ends |
| DirRead.LiveAreNames | v1-src/fileSystem/direct.c:300-346 | What is read is the map: every name once, with its inode and type |
| DirRead.TwoLive | v1-src/fileSystem/direct.c:348-352 | Two live entries are there exactly when the names are "." and ".." |
| DirRead.DirIsEmpty | v1-src/fileSystem/direct.c:348-352 | True exactly when only "." and ".." are left |
| Paths.PathParse | v1-src/fileSystem/fs.c:219-230 | The first component and what follows it; NULL exactly for the empty path |
| Paths.PathDepthCnt | v1-src/fileSystem/fs.c:232-248 | The number of components |
| Paths.SplitJoined | v1-src/fileSystem/fs.c:219-230 | Splitting joined components gives them back |
| Paths.ResolveIsTrail | v1-src/fileSystem/fs.c:251-304 | The lookup passes the trail of directories that the components name; it ends in a directory exactly with the last component, else at the first component that is a file, which is its answer, or that is missing; up to this one the components are looked up |
| Paths.WalkedAll | v1-src/fileSystem/fs.c:275-303 | All components are looked up whenever the walk ends in a directory |
| Paths.SearchedDepth | v1-src/fileSystem/fs.c:232-248 | The depth of the path that was searched is the number of components looked up |
| Paths.ResolveOn | v1-src/fileSystem/fs.c:251-304 | A path that goes on behind a directory resolves from that directory |
| Paths.NamesLeadThere | v1-src/fileSystem/fs.c:678-727 | The names found on the parent walk, from the root down, resolve to the directory, in every well-formed tree |
| Paths.GetcwdIsInverse | v1-src/fileSystem/fs.c:731-768 | search_file of the path that sys_getcwd gives is the directory again |
| Paths.ChdirGetcwdIff | v1-src/fileSystem/fs.c:771-788 | After sys_chdir to d the path from sys_getcwd leads back to d exactly when d is below 256 |
| Paths.PathIsSearchable | v1-src/fileSystem/fs.c:731-768 | The path of any directory is one that search_file accepts |
| Paths.ReverseCopy | v1-src/fileSystem/fs.c:760-765 | Cutting off last pieces turns the order of the components round |
| Walks.OpenOne | v1-src/fileSystem/inode.c:64-98 | An open of a directory of the tree counts one more, and every directory in memory stays in step with the disk |
| Walks.CloseOne | v1-src/fileSystem/inode.c:101-113 | A close counts one less; the inode leaves memory exactly with the last |
| Walks.DirClose | v1-src/fileSystem/direct.c:94-100 | Closing where the walk is leaves every number open as often as at first; closing the root directory does nothing |
| Walks.MoveTo | v1-src/fileSystem/fs.c:283-286 | One directory is closed and another opened: the walk is at the other |
| Walks.LookUp | v1-src/fileSystem/direct.c:44-89 | Reading the blocks of an open directory of the tree finds what its map has |
| Walks.ProgressStep | v1-src/fileSystem/fs.c:275-289 | A component that names a directory takes the walk one further, down the fold and along the searched path |
| Walks.SearchDown | v1-src/fileSystem/fs.c:270-303 | The loop on the disk, for every path other than the three spellings of the root |
| Walks.SearchFile | v1-src/fileSystem/fs.c:251-304 | On the disk: the result, the type and the parent are those of folding directory lookup over the components; the path that was searched holds exactly the components looked up; the parent is open once more, everything else as often as before |
| Walks.BlocksOfDir | v1-src/fileSystem/fs.c:680-686 | An open, a copy of the blocks and a close leave every count as it was; the blocks hold the slots of the directory |
| Walks.GetParentDirInodeNr | v1-src/fileSystem/fs.c:678-689 | The parent of the directory, read from its first block; both assertions hold |
| Walks.NameInBlocks | v1-src/fileSystem/fs.c:705-727 | The first entry with the number of the child, over missing blocks, is its entry |
| Walks.GetChildDirName | v1-src/fileSystem/fs.c:691-727 | The name of the one entry with the number of the child, read block by block |
| Walks.SysGetcwd | v1-src/fileSystem/fs.c:731-768 | On the disk: the parent walk ends, the buffer holds the path of the directory, and every inode is open as often as before |
| Walks.GetcwdThenSearch | v1-src/fileSystem/fs.c:731-768 | sys_getcwd followed by search_file on its buffer ends at the working directory, with its type, and with its parent open |
| Walks.SysChdir | v1-src/fileSystem/fs.c:771-788 | 0 exactly when the path leads to a directory; the working directory then is the low byte of its number; every inode is open as often as before |
| Witnesses.LostDirectory | v1-src/fileSystem/fs.c:779 | A tree with a directory 256: after a chdir into it the path from getcwd leads to the root |
| Witnesses.LostInode | v1-src/fileSystem/inode.c:37 | A disk on which inode 256 does not read back after a sync |
| Witnesses.WalkFromRoot | v1-src/fileSystem/fs.c:251-304 | A partition on which the walks can start |

## Left out

- AddressSpaces.Machine.MallocPage: the run that `vaddr_get` finds lies inside the space (`Bitmaps.ScanExact`), which always holds when the last bit of the bitmap is set (`Bitmaps.LastSetIsExact`), as in a process with a stack, or the bit behind it is. A run that ends behind the bitmap would map the first page of the kernel half as a page of the process; `AddressSpaces.Machine.VaddrGet` says when it is found.
- VmRuns.StepKeepsInv: the same condition on each call of `malloc_page`.
- VmRuns.RunKeepsInv: the same.
- VmRuns.EveryReachableState: the same.
- Processes.GetKernelPages: the same.
- Malloc.KernelHeap.SysMalloc: the same; whether the pools have enough frames is an input of the call, and `Frames.HeapAnswersAlike` says of which state of the pools and tables.
- Malloc.KernelHeap.MallocPage: the same.
- Boot.StartedIsGood: words of the kernel's page tables that the loader does not write are taken to hold no present entry.
- AddressSpaces.Machine.constructor: the same words.
- Sched.StartKeepsInv: thread_start is one step, although it does not turn interrupts off; its only call is in `thread_init`, before v1-src/kernel/init.c:32 turns them on.
- Threads.Kernel.ThreadStart: the same. `process_execute` and `sys_fork`, which add threads later, do so with interrupts off (v1-src/userprog/process.c:119, v1-src/userprog/fork.c:131).
- Sched.AcquireKeepsInv: fewer than 2^32 nested acquisitions of one lock.
- Processes.CreateProcessSpace: the pages of the PCB and the bitmap are taken and cleared, but what `init_thread` writes into the PCB is not part of it; NULL for the bitmap, which the source does not test, ends the call. The scan for the bitmap's 23 pages stays in the heap (`Bitmaps.ScanExact`).
- Processes.CopyProcess: the same for the child; its register frame, name and file descriptors are not part of it.
- Processes.SysFork: the same; the lists of threads are those of `Sched.dfy`.
- Ide.IdeChannel.IdeRead: how long `busy_wait` waits; its answer is an input.
- FileWrites.FileWrite: files stay within their 12 direct blocks; beyond them the source reads a wrong index (v1-src/fileSystem/file.c:281) and does not advance it (v1-src/fileSystem/file.c:315-324), so such writes do not work. Inode numbers are below 256 and the slot lies in one sector, because the source passes a 512-byte buffer to `inode_sync`; enough free blocks are a precondition.
- FileWrites.Grow: the same bound of 12 blocks.
- FileWrites.WritesReadBack: the same conditions, for both writes.
- Files.FileRead: the sum of position and count does not wrap below the size (`Files.ReadSizeIff`), and the block behind the last byte is below 139, which the source asserts.
- DirStore.SearchDirEntry: directories without an indirect table: `sync_dir_entry` never makes one that can be read back (v1-src/fileSystem/direct.c:126-131).
- DirStore.SyncDirEntry: names have at most 15 bytes, so that the terminator fits; directories stay within their 12 direct blocks and have a free slot and a free block; beyond them the source never loads the table it writes (v1-src/fileSystem/direct.c:126-131).
- DirRead.DirReadNext: directories without an indirect table, as above.
- DirRead.ReadWhole: the same.
- DirDelete.DeleteDirEntry: at most one entry other than "." and ".." has the inode number (there are no links; the source asserts it within a block); the directory's own number is below 256 (see `Inodes.ReloadIff`).
- Walks.SearchFile: components have at most 15 bytes, the size of the buffer for a name; a path of several slashes only is excluded because the source then returns an uninitialised number. Directories stay within their 12 direct blocks, and no count of opens is at 2^32 - 1.
- Walks.SysGetcwd: the path fits the buffers, as the source asserts; directories as for `Walks.SearchFile`.
- Paths.PathDepthCnt: a path without a component is excluded because the source then tests an uninitialised buffer.
- Bitmaps in `AddressSpaces.dfy` and `Volume.dfy` are sequences of booleans; their byte masks are in `Bitmap.dfy` and their packing into sectors in `Disk.dfy`.
- The heap layer works on the page bitmap and on words of memory; frames and page tables below it are those of `AddressSpaces.dfy`. The locks around allocation are those of `Sched.dfy`.
- The TLB: every walk reads the tables as they are.
- `thread_yield` and `mtime_sleep`, which queue a thread that is still RUNNING and so trip an assertion of `schedule`; `sys_wait`, `sys_exit` and `thread_exit`, where a finished child and a waiting parent share one status.
- Use of the user heap and of file descriptors after fork: copied arenas still point at the descriptors of the parent.
- `partition_format` and `mount_partition`: a superblock with disjoint regions is a precondition.
- `file_create`, `sys_mkdir`, `sys_rmdir` with their rollback, and the write-deny test of `file_open`.
- ELF loading, the shell, `wash_path`, console, keyboard scancodes, PIC, TSS and register saving: they would add easy members or need repaired code.
