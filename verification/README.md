# Verified model of the juos kernel's resource managers

juos is a small i386 kernel. This project models the parts of it that hand out and keep track of
resources, and proves what they keep over every sequence of calls:

- **the kernel heap** (`kernel/kernel/kmm.cpp`): a bin of 100 slots of 64 bytes and an
  address-ordered linked list of big chunks behind one `malloc`/`free`;
- **paging** (`kernel/kernel/paging.cpp`) over a first-fit frame table and a bump heap: two-level
  tables, shared kernel tables, process directories and page faults;
- **the process scheduler** (`kernel/kernel/schedualer.cpp`) over the kernel's linked `Queue` and
  growing `Vector`;
- **the ext2-like block store** (`kernel/drivers/ext2.cpp`): block input and output by sectors, and
  file creation;
- **number printing** (`libc/stdio/printf.cpp`) and **destructor registration**
  (`kernel/kernel/icxxabi.cpp`, section 3.3.6 of the Itanium C++ ABI).

## How it is built

Each component has two layers. A *model* module (`HeapModel` and `HeapRuns`, `PagingModel` and
`PagingRuns`, `SchedulerModel`, `Ext2Model`, and the first halves of the smaller files) holds the
state as values, one function per operation, and the lemmas. An *imperative* module (`KernelHeap`
over `HeapMemory`, `KernelPager`, `ProcessSchedulers`, `Ext2Store`, the classes of `Queues`,
`Vectors`, `BlockStore`, `BumpHeap`, `FrameTables`, `AtExit`, and the methods of `NumberFormat`)
holds the code in the form the kernel has it, with its loops and in-place updates, and each method's
postcondition equates the new state with the model's function of the old one.

| file | contents |
|---|---|
| `HeapModel.dfy` | big chunks as a list of headers; allocation, freeing, consolidation |
| `HeapRuns.dfy` | both pools, live blocks, runs of calls, safety exactly when guarded |
| `HeapMemory.dfy` | headers linked by address in memory, and what each write does to the list |
| `HeapBytes.dfy` | the split of a hole on the bytes, where headers may overlap |
| `KernelHeap.dfy` | the memory manager: its loops, the writes in place, the slot array |
| `BumpHeap.dfy`, `FrameTables.dfy` | the primitive heap and the frame table |
| `PagingModel.dfy` | directories, tables, translation, the mapping loop |
| `PagingRuns.dfy` | start-up, process directories, page faults, runs, isolation |
| `DirectoryMaps.dfy` | lists of regions, and what a new process directory reads |
| `Pager.dfy` | the pager class |
| `Queues.dfy`, `Vectors.dfy` | the kernel's containers |
| `Processes.dfy`, `SchedulerModel.dfy`, `ProcessScheduler.dfy` | the queued processes, the scheduler as a value and as a class |
| `BlockStore.dfy`, `Ext2Model.dfy`, `Ext2Store.dfy` | the block device and the store |
| `NumberFormat.dfy`, `AtExit.dfy` | number printing, destructors |
| `Basics.dfy`, `Bytes.dfy` | shared definitions |

`dafny verify dfyconfig.toml` checks everything.

## Results that are not what the code's comments say

- The heap's search is described as looking for the smallest hole; it stops at the first one
  (`MallocBigIsFirstFit`), which is a smallest one exactly when none behind it is smaller
  (`SmallestHoleExactlyWhen`). `FirstHoleIsNotSmallest` is a run where the two differ. The split
  behind the search is taken exactly for sizes whose sum with header and alignment wraps
  (`SplitTakenExactlyWhenWrapped`).
- A size above 2^32 - 21 wraps and is given 16 bytes at most (`ServedExactlyWhenWhole`). A big request
  made while no big chunk is in use is written over the head chunk without looking at what is linked
  behind it. A run serves every request and keeps live memory safe exactly when no size wraps and each
  such request fits before the second header (`SafeExactlyWhenGuarded`). `UnguardedRun` is a run that
  breaks it.
- A size that wraps may leave no list of chunks. It leaves one exactly when a split it makes has room
  for its header and a request it makes of the last chunk is at least 13 bytes
  (`StepKeepsExactlyWhen`, `ChainHoldsExactlyWhen`, and on memory `MemoryManager.Malloc`).
  `WrappedRequestLoops` and `WrappedRequestCutsOff` are runs that leave none.
- A table made by `_get_page` answers with its entry 0, because the index is taken from the new
  table's own aligned address. A region is mapped as asked exactly when its counter reaches the end,
  the frames suffice, and its first page begins a table or its first table exists
  (`MapRegionExactlyWhenReady`). `WrongEntryAfterStart` is the failure in the kernel's own process: a
  fault at 0x401000 makes page 1024 present. The next fault on the same address mends it
  (`SecondFaultMapsPage`). The same condition for the regions of a new process directory is in
  `CreateDirectoryExactlyWhen`. On the last page of the address space the region's end wraps to 0 and
  the fault maps nothing (`FaultMapsPage`).
- The mapping loop's counter has 32 bits. For a region that ends above 0xFFFFF000, more exactly above
  0xFFFFF000 plus the offset of its start in its page, it wraps and the loop goes on from page 0 until
  the frames run out and the kernel panics (`WrappedLoopPanics`, `MapRegionReturnsExactlyWhen`).
- The 512th file is taken to belong to a group whose descriptor block is the first group's block
  bitmap; a new group is made there, over the first group's inode bitmap (`BitmapExactUpTo511`) and
  over the records of the first six files (`RecordsLostPast511`).
- File names may have 511 characters, but their field has 256 and they are copied without a terminator.
  A longer name runs over its index and into the next entry (`IndexKeptExactlyWhen`,
  `NameReadsExactlyWhen`).
- Mounting an existing store keeps its group but forgets which indices are taken; new files take the
  old ones' indices and records (`RemountReusesIndices`).
- `__cxa_finalize(0)` does not unset what it runs, so what it ran runs again under a second null form
  (`NullFormRepeats`) or under its own name (`NamedFormAfterNullRepeats`). Nothing runs twice exactly
  when each null form comes last for the entries it runs (`NothingRunsTwiceExactlyWhen`).

## Assumptions

- Heap addresses and stored chunk sizes do not wrap: the heap checks no end address. Request sizes do
  wrap in the model, every 32-bit size is covered, and `BigRequestCovers` says from which size on.
- The pointer difference at `kernel/kernel/kmm.cpp:194` is whole-number division by 13, the size of a
  packed header. No safety result depends on its value.
- Statements about the header list concern the allocator's own writes. That no live block meets a
  header is what makes the owners' writes harmless, and it is proved for guarded runs only.
- `1 << Log` in `Vector` does not overflow: capacities stay below 2^32.
- The bump heap's pointer does not wrap.
- Destructors do not register or finalize.

## Model

| member | source | states |
|---|---|---|
| `HeapModel.BigRequestCovers` | kernel/kernel/kmm.cpp:345-346 | the size passed on covers block and header exactly when the 32-bit sum does not wrap, and is then at least 80; past that limit it is at most 16 |
| `HeapModel.SplitTakenExactlyWhenWrapped` | kernel/kernel/kmm.cpp:167-179 | the unsigned test for splitting a hole is true exactly for the sizes whose 32-bit sum with header and alignment wraps |
| `HeapModel.FirstHole` | kernel/kernel/kmm.cpp:153-169 | the search stops at the lowest unused, large enough, non-last chunk, or at the last chunk if there is none |
| `HeapModel.FirstFitByAddress` | kernel/kernel/kmm.cpp:151-215 | with chunks in use, the chunk handed out is the lowest that is not in use, not the last, and reaches at least the request and less than 2^32 - 1 bytes up to the next; if there is none, a chunk is added where the last one ends |
| `HeapModel.MallocBigIsFirstFit` | kernel/kernel/kmm.cpp:151-215 | with chunks in use, the lowest-address hole is handed out, and no header moves: one is added for a split with room, none otherwise; the list grows behind its last chunk only when there is no hole |
| `HeapModel.StoredSize` | kernel/kernel/kmm.cpp:143-214 | the chunk handed out stores the request as its size, or, for a hole taken whole, the hole's length in whole headers less one |
| `HeapModel.SplitParts` | kernel/kernel/kmm.cpp:179-190 | a split hole keeps its address and stored size, and the new header behind the request is unused, linked both ways, and ends where the next chunk starts |
| `HeapModel.SmallestHoleExactlyWhen` | kernel/kernel/kmm.cpp:152-169 | of the holes that would do, a smallest one is handed out if and only if none behind the first is smaller than it |
| `HeapModel.ChainKeptExactlyWhen` | kernel/kernel/kmm.cpp:133-245 | for every request, allocation leaves headers ascending at least 13 bytes apart, a null `prev` on the head, a usable last size, and the counter equal to the chunks in use if and only if a split has room for its header and a request for the last chunk is at least 13 |
| `HeapModel.MallocBigKeepsGrants` | kernel/kernel/kmm.cpp:143-148 | for every request, granted ranges stay clear of the next headers and at least 80 long if and only if the request is at least 80 and, with nothing in use, fits before the second header |
| `HeapModel.MallocBigAt` | kernel/kernel/kmm.cpp:133-245 | unless a split lacks room, the chunk handed out was not in use and no other chunk's address, size, mark or grant changes |
| `HeapModel.MallocBigGrants` | kernel/kernel/kmm.cpp:133-245 | unless a split lacks room, the pointer handed out leads to exactly one chunk in use, granted exactly the request |
| `HeapModel.MallocBigInUse` | kernel/kernel/kmm.cpp:133-245 | unless a split lacks room, the ranges in use after allocation are those before and the new one, which was not among them |
| `HeapModel.MergeForwardEnds` | kernel/kernel/kmm.cpp:287-302 | forward consolidation keeps the head, sizes, and last chunk's size and grant bounds |
| `HeapModel.MergeBackwardEnds` | kernel/kernel/kmm.cpp:305-320 | the same for backward consolidation, which keeps the higher header |
| `HeapModel.FreeBigKeeps` | kernel/kernel/kmm.cpp:275-328 | freeing keeps the whole list invariant and grants through both consolidations, removes exactly the freed range from those in use, and keeps the counter exact |
| `HeapModel.FreeBigExact` | kernel/kernel/kmm.cpp:275-328 | exactly which headers leave the list when a chunk is freed, what size and `prev` the freed chunk is left with, and that nothing else changes but the `prev` of the chunk behind it |
| `HeapRuns.SmallBlocksBelowChunks` | kernel/kernel/kmm.cpp:103-115 | a live small block is a 64-byte slot below the big chunks and its address leads back to its slot |
| `HeapRuns.InvariantsAreSafe` | kernel/kernel/kmm.cpp:330-361 | under the invariants no two live blocks of either pool meet, and none meets a header of the list |
| `HeapRuns.MallocFails` | kernel/kernel/kmm.cpp:97-131 | `malloc` returns null exactly for size 0 and for small requests with all 100 slots live, and then changes nothing |
| `HeapRuns.MallocAddsBlock` | kernel/kernel/kmm.cpp:330-348 | unless a split lacks room, success adds exactly one live block, at a pointer that was not live; it is at least as long as asked if and only if the size is at most 2^32 - 21 |
| `HeapRuns.SmallTakesLowest` | kernel/kernel/kmm.cpp:97-131 | a small request gets the lowest free slot, 64 bytes to a slot, and sets it alone; freeing the pointer clears that slot |
| `HeapRuns.ServedExactlyWhenWhole` | kernel/kernel/kmm.cpp:330-348 | of all 32-bit sizes, `malloc` writes no header over another and answers with null or a live block at least as long as asked if and only if the size is at most 2^32 - 21 |
| `HeapRuns.FreeRemovesBlock` | kernel/kernel/kmm.cpp:350-361 | `free` of a live pointer reaches the pool it came from, removes exactly that block and keeps all invariants |
| `HeapRuns.SmallRoundTrip` | kernel/kernel/kmm.cpp:254-266 | freeing a small block at once restores both pools exactly |
| `HeapRuns.StepKeepsExactlyWhen` | kernel/kernel/kmm.cpp:330-361 | every legal call of either kind and any 32-bit size keeps the invariant of both pools if and only if it keeps the list, keeps grants clear if and only if it is guarded, and keeps the list whenever its size does not wrap |
| `HeapRuns.UnguardedIsUnsafe` | kernel/kernel/kmm.cpp:143-148 | an unguarded request yields a block that covers bytes of a header in the list |
| `HeapRuns.SafeExactlyWhenGuarded` | kernel/kernel/kmm.cpp:133-328 | in every run of `malloc` of any 32-bit size and `free` of live pointers, every request is served and all live blocks stay apart from each other and from all headers at every point if and only if the run is guarded: no size wraps, and no request made with no big chunk in use runs into the second header |
| `HeapRuns.ChainHoldsExactlyWhen` | kernel/kernel/kmm.cpp:133-361 | throughout any run of `malloc` of any 32-bit size and `free` of live pointers the list is finite, ascending, at least 13 bytes apart, with `allocated_chunks` the chunks in use, if and only if every call keeps the list |
| `HeapRuns.WholeRunIsKept` | kernel/kernel/kmm.cpp:345-346 | a run without a size that wraps keeps the list at every call, guarded or not |
| `HeapRuns.LiveUntilFreed` | kernel/kernel/kmm.cpp:330-361 | a live block stays live with its length through any run that keeps the list and does not free it |
| `HeapRuns.UnguardedRun` | kernel/kernel/kmm.cpp:143-148 | a concrete run of five calls ends with a block over a linked header |
| `HeapRuns.FirstHoleIsNotSmallest` | kernel/kernel/kmm.cpp:152-169 | a concrete run ends with a hole of 216 bytes below one of 120, and a request of 100 bytes is given the larger |
| `HeapRuns.WrappedRequests` | kernel/kernel/kmm.cpp:345-346 | as a first request, size 2^32 - 1 wraps and keeps the list, and size 2^32 - 20 does not keep it |
| `HeapMemory.ForwardLinked` | kernel/kernel/kmm.cpp:287-302 | after forward consolidation `next` still walks an ascending list and every `prev` is null or the true predecessor |
| `HeapMemory.BackwardLinked` | kernel/kernel/kmm.cpp:305-320 | the same after backward consolidation, including the case of a null `prev` that leaves the forward chain as it was |
| `HeapMemory.SplitLinked` | kernel/kernel/kmm.cpp:179-191 | after a split with room for its header `next` walks an ascending list with the new header in it and every `prev` is null or the true predecessor |
| `HeapMemory.HoldsExactlyWhen` | kernel/kernel/kmm.cpp:133-328 | the chain from the head is the only one, so memory holds a list if and only if that chain meets the list invariant |
| `HeapMemory.OverlaidHoldsNoList` | kernel/kernel/kmm.cpp:179-191 | after a split without room nothing that `next` visits from the head is a list: it is cut off, comes to two headers less than 13 bytes apart, or does not end |
| `HeapBytes.OverlaidBytesHoldNoList` | kernel/kernel/kmm.cpp:179-191 | the same for the split's writes byte by byte, whatever bytes the new header shares with the hole or its successor |
| `HeapBytes.RoomySplit` | kernel/kernel/kmm.cpp:179-191 | with room those writes are the three headers of the split, and any header apart from them is as before |
| `HeapBytes.RequestAligned` | kernel/kernel/kmm.cpp:345-346 | every request that `malloc` passes on is a multiple of 8, wrapped or not |
| `KernelHeap.MemoryManager.constructor` | kernel/kernel/kmm.cpp:38-87 | start-up gives the model's initial heap |
| `KernelHeap.MemoryManager.MallocFastbin` | kernel/kernel/kmm.cpp:97-131 | the slot loop does what the model's small allocation does |
| `KernelHeap.MemoryManager.Search` | kernel/kernel/kmm.cpp:135-169 | the linked search loop ends and finds the model's first hole |
| `KernelHeap.MemoryManager.TakeHole` | kernel/kernel/kmm.cpp:172-196 | handing out a hole refines the model, whole or split with room; without room memory is as the split's writes leave it |
| `KernelHeap.MemoryManager.SplitHole` | kernel/kernel/kmm.cpp:179-191 | the split's writes, in order, give memory in every case and the model's list whenever there is room |
| `KernelHeap.MemoryManager.AppendChunk` | kernel/kernel/kmm.cpp:198-215 | appending gives memory in every case, and links a new header behind the last and nothing else when the last chunk has room |
| `KernelHeap.MemoryManager.MallocBigChunk` | kernel/kernel/kmm.cpp:133-245 | for every request the linked allocator refines the model's, or leaves memory as the writes of a split without room, or of a header appended without room, leave it |
| `KernelHeap.MemoryManager.Malloc` | kernel/kernel/kmm.cpp:330-348 | for every 32-bit size memory holds a list afterwards if and only if the call keeps the list; unless a split lacks room, `malloc` refines the model's step and returns its pointer, and otherwise memory is given |
| `KernelHeap.MemoryManager.ConsolidateForward` | kernel/kernel/kmm.cpp:286-302 | relinking in memory is the model's forward consolidation |
| `KernelHeap.MemoryManager.ConsolidateBackward` | kernel/kernel/kmm.cpp:304-320 | relinking in memory is the model's backward consolidation |
| `KernelHeap.MemoryManager.FreeBigChunk` | kernel/kernel/kmm.cpp:275-328 | the linked free refines the model's |
| `KernelHeap.MemoryManager.FreeFastbin` | kernel/kernel/kmm.cpp:254-266 | the slot of the pointer is cleared and nothing else |
| `KernelHeap.MemoryManager.FreePtr` | kernel/kernel/kmm.cpp:350-361 | `free` of a live pointer refines the model's step |
| `KernelHeap.MemoryManager.Perform` | kernel/kernel/kmm.cpp:330-361 | any run of calls that keeps the list reaches the model's state with the model's answers, and after a guarded one live blocks stay apart from each other and from all headers |
| `KernelHeap.WrappedRequestLoops` | kernel/kernel/kmm.cpp:198-215 | after `malloc(2^32 - 20)` and a request for 100 bytes the head is its own successor |
| `KernelHeap.WrappedRequestCutsOff` | kernel/kernel/kmm.cpp:179-191 | after `malloc(100)` twice, freeing the first and `malloc(2^32 - 20)`, the head is unused and last, the second block's header is no longer reached, and memory holds no list |
| `BumpHeap.PlacesAbove` | kernel/kernel/kheap.cpp:7-32 | allocations never lie below the old top, and aligned ones are page aligned |
| `BumpHeap.AlignUpIsLeast` | kernel/kernel/kheap.cpp:13-20 | an aligned request is placed at the least page-aligned address not below the top |
| `BumpHeap.AllocationsAreDisjoint` | kernel/kernel/kheap.cpp:7-37 | no two allocations of any list of requests share a byte |
| `BumpHeap.PlacesAreLeast` | kernel/kernel/kheap.cpp:7-37 | each allocation has the least address, aligned as asked, from the end of the one before it |
| `BumpHeap.PrimitiveHeap.AllocateWPointer` | kernel/kernel/kheap.cpp:7-32 | the returned address, the address stored through the pointer, and the new top |
| `FrameTables.FirstFreeIsFirst` | kernel/kernel/frame_table.cpp:5-20 | the search finds the lowest free frame |
| `FrameTables.TakeKeepsSegment` | kernel/kernel/frame_table.cpp:5-30 | while nothing is freed the taken frames are an initial segment, so the first free frame is the number taken so far |
| `FrameTables.FrameTable.FindFirst` | kernel/kernel/frame_table.cpp:5-20 | an error exactly when every frame is taken, otherwise the count of taken frames |
| `PagingModel.MapOneKeeps` | kernel/kernel/paging.cpp:66-82 | one round keeps all paging invariants, takes one frame, and panics exactly when none is left |
| `PagingModel.MapOneTranslate` | kernel/kernel/paging.cpp:36-82 | one round changes one translation, of the page itself or of entry 0 of a table it had to make |
| `PagingModel.NewTableIsBlank` | kernel/kernel/paging.cpp:41-53 | a table made on the way lies at the next page boundary of the heap, takes 4096 bytes, and is blank but for its first entry, which is filled in |
| `PagingModel.MapPagesKeeps` | kernel/kernel/paging.cpp:58-85 | the loop keeps all invariants, takes one frame a page, and panics exactly when the frames do not suffice |
| `PagingModel.MapPagesTranslate` | kernel/kernel/paging.cpp:58-85 | the exact flat effect of the loop on every page of the directory, wherever the region starts |
| `PagingModel.MapRegionOthers` | kernel/kernel/paging.cpp:58-96 | mapping any region, even one that wraps, leaves the unshared pages of other directories translating as before |
| `PagingModel.MapRegionKeepsInv` | kernel/kernel/paging.cpp:58-96 | mapping any 32-bit region, wrapping and panicking ones too, keeps all paging invariants |
| `PagingModel.MapRegionIsPages` | kernel/kernel/paging.cpp:66 | while its 32-bit counter reaches the end, the loop does exactly the rounds of the pages counted |
| `PagingModel.WrappedLoopPanics` | kernel/kernel/paging.cpp:66-74 | a region that ends above 0xFFFFF000 plus the offset of its start in its page is never reached by the counter, and the kernel panics |
| `PagingModel.MapRegionReturnsExactlyWhen` | kernel/kernel/paging.cpp:58-96 | `map_region` returns if and only if its counter reaches the end before it wraps and the free frames suffice; otherwise it panics |
| `PagingModel.MapRegionExactlyWhenReady` | kernel/kernel/paging.cpp:36-96 | `map_region` returns with the region's pages and no others present, on the next frames in order, if and only if its counter reaches the end before wrapping, the frames suffice, and the first page begins a table or its table exists; if it returns, the frames taken are the pages counted |
| `PagingModel.AlignedRegionPages` | kernel/kernel/paging.cpp:66 | a page-aligned region holds its length in pages |
| `PagingModel.FirstRegionIsIdentity` | kernel/kernel/paging.cpp:125-126 | on a fresh frame table the first mapping from address 0 gives page i frame i, for every end the frames reach |
| `PagingModel.CommonFrame` | kernel/kernel/paging.cpp:66-82 | two translations to one frame go through one entry of one table at one page number, and in two directories through a shared table |
| `PagingModel.PresentPagesAreGuarded` | kernel/kernel/paging.cpp:76-81 | every present page is read-only, supervisor-only, and holds a taken frame |
| `PagingModel.AddressesFindTables` | kernel/kernel/paging.cpp:45-53 | each processor address is the kernel's table pointer with the flag bits 7, or 0 where there is no table; with its low 12 bits cleared it is the pointer |
| `PagingRuns.MapRegionPointers` | kernel/kernel/paging.cpp:41-96 | over any region a table pointer once set never changes, and a new one is never a shared table |
| `PagingRuns.MapRegionKeeps` | kernel/kernel/paging.cpp:58-96 | mapping any 32-bit region keeps the whole system invariant |
| `PagingRuns.NewDirectoryKeeps` | kernel/kernel/paging.cpp:156-169 | a new directory lies at an unused address, takes no frame, and keeps the system invariant |
| `PagingRuns.NewDirectoryPlace` | kernel/kernel/paging.cpp:156-161 | a new directory lies at the next page boundary of the heap and takes 8192 bytes, and no frame, table or other directory changes |
| `PagingRuns.NewDirectoryTranslate` | kernel/kernel/paging.cpp:164-169 | a new directory translates the shared first tables as the current one does and nothing else |
| `DirectoryMaps.MapAllReturnsExactlyWhen` | kernel/kernel/paging.cpp:171-181 | a list of regions is mapped without a panic if and only if each is reached and the frames suffice for all; the frames taken are the pages of all |
| `DirectoryMaps.MapAllInside` | kernel/kernel/paging.cpp:171-181 | a page of any list of regions, disjoint or not, is on the frame that the last region containing it gives it, counted from the frames taken before |
| `DirectoryMaps.CreateDirectoryExactlyWhen` | kernel/kernel/paging.cpp:156-184 | for disjoint regions: `create_directory` returns if and only if the counter reaches the end of each and the free frames suffice for all; and then every page reads as asked, region by region on the next frames and elsewhere as the shared tables read or absent, if and only if each region's first page begins a table or is in one that is shared or touched by an earlier region |
| `PagingRuns.PerformKeeps` | kernel/kernel/paging.cpp:87-234 | mapping of any 32-bit region, directory creation and page faults keep the system invariant |
| `PagingRuns.RunKeeps` | kernel/kernel/paging.cpp:87-234 | so does every run of them |
| `PagingRuns.BootLayout` | kernel/kernel/paging.cpp:109-121 | the two directories and the table of 40960 free frames follow one another on the heap from page boundaries, and the kernel's directory starts empty |
| `PagingRuns.KernelMappedReads` | kernel/kernel/paging.cpp:125-136 | start-up never panics, maps the first 512 pages one to one, the heap to the frames after them, and nothing else |
| `PagingRuns.BootInv` | kernel/kernel/paging.cpp:109-149 | start-up establishes the system invariant with the kernel's tables shared by its two directories |
| `PagingRuns.BootReads` | kernel/kernel/paging.cpp:125-149 | after start-up the current directory reads as the kernel's: 512 pages one to one, the heap on the frames after them, nothing else |
| `PagingRuns.NewProcessReads` | kernel/kernel/paging.cpp:128-169 | a process directory created after start-up starts with the first 512 pages one to one and no other |
| `PagingRuns.Isolation` | kernel/kernel/paging.cpp:58-184 | after start-up and any run, two directories reach a common frame only at the same page through a table made at start-up, and a process shares only its first tables |
| `PagingRuns.FaultReturnsExactlyWhen` | kernel/kernel/paging.cpp:186-234 | the handler returns if and only if the page is absent, a process runs, and a frame is left or the address is on the last page; otherwise it panics, and for a present page or without a process with nothing changed |
| `PagingRuns.FaultMapsPage` | kernel/kernel/paging.cpp:208-217 | a fault on an absent page makes it present if and only if its table is there or begins with it and it is not the last page; it then takes the one next frame, and every other page reads as before |
| `PagingRuns.WrongEntryAfterStart` | kernel/kernel/paging.cpp:41-56 | with the kernel's process started, a fault at 0x401000 leaves its page absent and makes page 1024 present on the next frame instead |
| `PagingRuns.SecondFaultMapsPage` | kernel/kernel/paging.cpp:208-217 | two faults on one address make its page present |
| `KernelPager.Pager.FindPage` | kernel/kernel/paging.cpp:36-56 | the page lookup refines the model's, with and without making a table |
| `KernelPager.Pager.MapTop` | kernel/kernel/paging.cpp:68-81 | one round refines the model's, the frame being looked up before the table is made and missed after |
| `KernelPager.Pager.MapVirtToPhys` | kernel/kernel/paging.cpp:58-85 | the loop refines the model's and returns the number of pages |
| `KernelPager.Pager.Initialize` | kernel/kernel/paging.cpp:121-142 | start-up refines the model's |
| `KernelPager.Pager.MapRegionIn` | kernel/kernel/paging.cpp:87-96 | a null directory stands for the current one |
| `KernelPager.Pager.CreateProcessDirectory` | kernel/kernel/paging.cpp:156-184 | the copying and mapping loops refine the model's directory creation |
| `KernelPager.Pager.PageFaultHandler` | kernel/kernel/paging.cpp:186-234 | the handler refines the model's page fault, with a panic when the page is present or no process runs |
| `Queues.Queue.Enqueue` | kernel/include/kernel/data_structures/queue.hpp:48-64 | the linked queue's contents gain the element at the end, also after emptying |
| `Queues.Queue.Dequeue` | kernel/include/kernel/data_structures/queue.hpp:66-84 | the first element leaves and is returned; an empty queue returns null |
| `Queues.Queue.MakeEmpty` | kernel/include/kernel/data_structures/queue.hpp:86-91 | the loop ends with an empty queue |
| `Queues.Queue.Top` | kernel/include/kernel/data_structures/queue.hpp:42-45 | the first element |
| `Queues.FirstInFirstOut` | kernel/include/kernel/data_structures/queue.hpp:48-84 | for every interleaving, what came out followed by what is left is what was there followed by what went in |
| `Queues.MakeEmptyRestarts` | kernel/include/kernel/data_structures/queue.hpp:86-91 | emptying in the middle of any calls keeps what came out before and starts afresh |
| `Queues.Perform` | kernel/include/kernel/data_structures/queue.hpp:48-91 | any list of calls on a linked queue hands out and leaves what the order law's replay says, so without emptying everything comes out in the order it went in |
| `Vectors.GrowthIsAmortized` | kernel/include/kernel/data_structures/vector.hpp:132-161 | over any calls with n pushes the capacity is a power of two below 2n, regrowths equal `Log`, and fewer than 2n elements are copied |
| `Vectors.PushedKeeps` | kernel/include/kernel/data_structures/vector.hpp:132-144 | one push keeps the growth invariant, whose copies are the ones counted in the copy loop |
| `Vectors.Vector.PushBack` | kernel/include/kernel/data_structures/vector.hpp:132-144 | the contents gain the element at the end, across a regrowth too |
| `Vectors.Vector.Reserve` | kernel/include/kernel/data_structures/vector.hpp:151-161 | the copy loop moves all elements to the new array and counts one copy for each |
| `Vectors.Vector.PopBack` | kernel/include/kernel/data_structures/vector.hpp:146-149 | the last element leaves |
| `Vectors.Vector.At` | kernel/include/kernel/data_structures/vector.hpp:175-178 | reading an index |
| `Vectors.Vector.Clear` | kernel/include/kernel/data_structures/vector.hpp:193-199 | the vector is as when it was made |
| `Vectors.Perform` | kernel/include/kernel/data_structures/vector.hpp:132-161 | any run of pushes and pops leaves the replayed contents, and from a new vector its copy loop makes fewer than 2n copies for n pushes |
| `SchedulerModel.RotateTurns` | kernel/kernel/schedualer.cpp:35-57 | finding a process turns the live queue by one place and yields its first member, or null if none is live |
| `SchedulerModel.RotateExact` | kernel/kernel/schedualer.cpp:35-57 | the first process in the queue that has not ended goes to the back, and those before it leave the queue |
| `SchedulerModel.TickChooses` | kernel/kernel/schedualer.cpp:59-71 | a tick chooses the first live system process, or else the first live regular one, and turns that queue alone |
| `SchedulerModel.EndedExactly` | kernel/kernel/schedualer.cpp:73-81 | after any run the ended pids are those ended before and those whose end the run signals |
| `SchedulerModel.EndedIsNeverChosen` | kernel/kernel/schedualer.cpp:39-48 | once the end of a process has been signalled, before or during a run, no tick after it chooses that process |
| `SchedulerModel.SystemFirst` | kernel/kernel/schedualer.cpp:59-71 | after any run a regular process is chosen only when every queued system process has had its end signalled, and nothing only when every process has |
| `SchedulerModel.RunConserves` | kernel/kernel/schedualer.cpp:18-81 | over any run a process whose end is not signalled is queued as often as before plus as often as it was added, in the queue of its priority alone |
| `SchedulerModel.RotateAdvances` | kernel/kernel/schedualer.cpp:35-57 | a queued live process is chosen or moves one live place nearer the front |
| `SchedulerModel.BoundedWaiting` | kernel/kernel/schedualer.cpp:18-81 | without live system processes a live regular process with k live ones ahead is chosen by the (k+1)-th tick, whatever regular processes arrive and others end |
| `SchedulerModel.SystemBoundedWaiting` | kernel/kernel/schedualer.cpp:18-81 | a live system process with k live ones ahead is chosen by the (k+1)-th tick, whatever processes of either kind arrive and others end |
| `SchedulerModel.RoundRobin` | kernel/kernel/schedualer.cpp:35-71 | left alone, n live processes are chosen once each in queue order by n ticks, which restore the queue |
| `SchedulerModel.OneMoreEvent` | kernel/kernel/schedualer.cpp:59-81 | one more event is one more step of the run, and one more choice, that of its tick |
| `ProcessSchedulers.ProcessScheduler.Perform` | kernel/kernel/schedualer.cpp:18-85 | over any list of additions, endings and ticks the scheduler reaches the model's state, `GetNext` answers after each tick with the model's choice, and `times_ran` of every process grows by the number of ticks that chose it |
| `ProcessSchedulers.ProcessScheduler.Add` | kernel/kernel/schedualer.cpp:18-28 | a process joins the queue of its priority |
| `ProcessSchedulers.ProcessScheduler.GetNext` | kernel/kernel/schedualer.cpp:30-33 | the process chosen by the last tick |
| `ProcessSchedulers.ProcessScheduler.End` | kernel/kernel/schedualer.cpp:73-81 | the pid is put at the end of the ended list, and nothing else changes |
| `ProcessSchedulers.ProcessScheduler.IsCanceled` | kernel/include/kernel/schedualer.h:45-57 | true exactly when the pid is in the ended list |
| `ProcessSchedulers.ProcessScheduler.FindProcess` | kernel/kernel/schedualer.cpp:35-57 | the loop ends, refines the model's rotation, and counts a run for the chosen process only |
| `ProcessSchedulers.ProcessScheduler.ChooseNext` | kernel/kernel/schedualer.cpp:59-71 | a tick refines the model's |
| `BlockStore.WriteThenRead` | kernel/drivers/ext2.cpp:313-333 | for every block size, n blocks written read back the same and every other block reads as before |
| `BlockStore.SectorsOfBlocks` | kernel/drivers/ext2.cpp:18-21 | sector arithmetic and byte positions agree for block sizes of whole sectors |
| `BlockStore.Storage.Read` | kernel/drivers/ext2.cpp:313-322 | the sector loop reads exactly the blocks into the buffer's start |
| `BlockStore.Storage.Write` | kernel/drivers/ext2.cpp:324-333 | the sector loop writes exactly the blocks |
| `BlockStore.WriteReadBack` | kernel/drivers/ext2.cpp:313-333 | on the device, n blocks written from one buffer and read into another come back the same, the rest of the other buffer is kept, and every other block reads as before |
| `Ext2Model.DescriptorRoundTrip` | kernel/include/drivers/ext2.h:91-101 | a stored descriptor decodes to itself truncated to its 4- and 2-bit fields |
| `Ext2Model.DescriptorWord` | kernel/include/drivers/ext2.h:91-101 | a descriptor's fields lie side by side in one little-endian word, 4, 4, 4, 2, 2 and 2 bits from the lowest |
| `Ext2Model.WordDecoded` | kernel/include/drivers/ext2.h:91-101 | reading a descriptor takes the fields from those bits of any word and ignores the 14 above |
| `Ext2Model.FormatHolds` | kernel/drivers/ext2.cpp:49-84 | formatting writes the superblock, one empty group with its first table block zeroed, and the root with index 1, and no other block |
| `Ext2Model.RecordPlace` | kernel/drivers/ext2.cpp:44-47 | block and offset of an inode put records of 128 bytes one behind the other in the table |
| `Ext2Model.CreateFailsExactlyWhenFull` | kernel/drivers/ext2.cpp:86-95 | the assertion that an inode is available fails if and only if all 1024 entries are in use |
| `Ext2Model.CreateFileWrites` | kernel/drivers/ext2.cpp:86-139 | with room in the group, creating a file with any accepted name changes one bitmap byte, its own 128-byte record and the cache at its own entry and where its name runs on, and nothing else |
| `Ext2Model.FilesSurvive` | kernel/drivers/ext2.cpp:86-152 | after any n <= 511 files of any accepted names each has its record and its entry, the bitmap and metadata are exact, and records that were there stay |
| `Ext2Model.CreatedRecordBytes` | kernel/drivers/ext2.cpp:106-139 | of up to 1023 files, every byte of each record that is not lost: 0x99 at 36 and 37 and zero elsewhere |
| `Ext2Model.OtherBytesSurvive` | kernel/drivers/ext2.cpp:118-139 | every byte outside the bitmap and the created records keeps its value |
| `Ext2Model.EntriesSurvive` | kernel/drivers/ext2.cpp:99-104 | the entries of up to 1023 files hold their names, and their indices where the names do not reach |
| `Ext2Model.IndexKeptExactlyWhen` | kernel/drivers/ext2.cpp:103-104 | of up to 1023 files with names below 512 bytes, an entry has its own index if and only if no character of its name overwrites a byte of it with another |
| `Ext2Model.OneCharacterOver` | kernel/drivers/ext2.cpp:103-104 | a name of 257 characters leaves the file its index if and only if the last one is the index's lowest byte |
| `Ext2Model.NameReadsExactlyWhen` | kernel/drivers/ext2.cpp:99-104 | of up to 1023 files with names below 512 bytes, a name reads back from its field if and only if it is below 256 bytes and the name before it is at most 260 bytes longer |
| `Ext2Model.MountKeeps` | kernel/drivers/ext2.cpp:69-84 | mounting a store with its group changes the superblock's block only, and the cache starts over |
| `Ext2Model.MountFormats` | kernel/drivers/ext2.cpp:69-76 | mounting a store whose descriptor names no block bitmap or no inode bitmap formats it, and any other keeps all but the superblock's block |
| `Ext2Model.RemountReusesIndices` | kernel/drivers/ext2.cpp:49-84 | mounting a store of n <= 511 files and creating k <= 511 more leaves the bitmap of max(n, k) files and every record, and changes nothing on the disk if and only if k <= n: the new files take the indices of the old ones |
| `Ext2Model.SecondGroupOverlays` | kernel/drivers/ext2.cpp:226-281 | from the 512th file on, a second group lies over the first group's bitmaps and first eight records, and over no other |
| `Ext2Model.BitmapExactUpTo511` | kernel/drivers/ext2.cpp:33-47 | the inode bitmap marks exactly the created files if and only if there are at most 511 |
| `Ext2Model.RecordsLostPast511` | kernel/drivers/ext2.cpp:33-47 | of up to 1023 files, each one's record is on the disk at its group's place if and only if there are at most 511 files or its index is at least 8 |
| `Ext2Model.SecondBitmapExact` | kernel/drivers/ext2.cpp:33-47 | from the 512th file on, the second group's inode bitmap marks exactly its own files |
| `Ext2Store.Fs.constructor` | kernel/drivers/ext2.cpp:49-84 | formatting and mounting through the block buffer refine the model's |
| `Ext2Store.Fs.AvailableInode` | kernel/drivers/ext2.cpp:141-152 | the first unused cache entry, or none |
| `Ext2Store.Fs.FindBlockGroup` | kernel/drivers/ext2.cpp:226-296 | reading a group, or making it when absent, refines the model's |
| `Ext2Store.Fs.WriteBlockGroup` | kernel/drivers/ext2.cpp:118-139 | descriptor, bitmaps and the read-modify-write of the inode's block refine the model's |
| `Ext2Store.Fs.CreateFileNamed` | kernel/drivers/ext2.cpp:86-116 | file creation refines the model's, for every name below 512 bytes |
| `NumberFormat.ReadBack` | libc/stdio/printf.cpp:34-38 | the digits of a number read back as the number, without a leading zero |
| `NumberFormat.DigitsAreUnique` | libc/stdio/printf.cpp:34-38 | no other digits without a leading zero have that value |
| `NumberFormat.DigitCount` | libc/stdio/printf.cpp:28-32 | a number below 2^k has at most k digits |
| `NumberFormat.PrintedReadsBack` | libc/stdio/printf.cpp:24-41 | the text printed for any 32-bit int in base 2 to 16 reads back as the int, plus 2^32 if it is negative, starts with 0 only for 0, and has 1 to 32 characters |
| `NumberFormat.RepresentationDigits` | libc/stdio/printf.cpp:26 | the sixteen digits are the characters with codes 48 to 57 and 97 to 102, none of them null |
| `NumberFormat.SignedIsInverse` | libc/stdio/printf.cpp:34-38 | storing an int as unsigned and back, or an unsigned value as int and back, changes nothing |
| `NumberFormat.ConvertToBase` | libc/stdio/printf.cpp:24-41 | the loop ends, writes that text before the buffer's final null, and never leaves the buffer |
| `NumberFormat.PrintNumber` | libc/stdio/printf.cpp:64-69 | the characters put out are that text |
| `AtExit.CallsExact` | kernel/kernel/icxxabi.cpp:42-58 | a finalization runs exactly the matching entries still set, latest registered first |
| `AtExit.SetUntilFinalized` | kernel/kernel/icxxabi.cpp:62-100 | over any trace an entry is set exactly while its function has not been finalized |
| `AtExit.RunsOnceByName` | kernel/kernel/icxxabi.cpp:62-100 | after any trace an entry runs under its function's finalization, or the null form, exactly if its function has not been finalized, and after that never again |
| `AtExit.RunsExactlyWhenFinalized` | kernel/kernel/icxxabi.cpp:42-100 | over any trace a set entry runs if and only if the trace finalizes its function or everything |
| `AtExit.NothingRunsTwiceExactlyWhen` | kernel/kernel/icxxabi.cpp:24-101 | over any trace no destructor runs twice if and only if no entry set at a null form is finalized again later, by name or by another null form |
| `AtExit.NullFormRepeats` | kernel/kernel/icxxabi.cpp:42-60 | a second null form runs the same calls again, so nothing repeats if and only if nothing is set |
| `AtExit.NamedFormAfterNullRepeats` | kernel/kernel/icxxabi.cpp:42-100 | registering one destructor, finalizing everything and then finalizing it by name runs it twice |
| `AtExit.RegisterExactlyWhenRoom` | kernel/kernel/icxxabi.cpp:14-22 | a registration adds the entry as given and answers 0 while there are fewer than 128, and otherwise changes nothing and answers -1 |
| `AtExit.RegistrationsAppend` | kernel/kernel/icxxabi.cpp:14-22 | registrations alone append their entries in order |
| `AtExit.EntriesAsRegistered` | kernel/kernel/icxxabi.cpp:14-101 | after any trace the table is the first 128 of what was there and what was registered, each with its object and handle, and its function or none |
| `AtExit.FinalizationCalls` | kernel/kernel/icxxabi.cpp:42-100 | the calls of a finalization are the function on the object of each matching set entry, the latest registered first |
| `AtExit.CallsAsRegistered` | kernel/kernel/icxxabi.cpp:14-101 | every call of any trace is the function on the object of the entry it runs, as they were registered |
| `AtExit.Registry.RegisterEntry` | kernel/kernel/icxxabi.cpp:14-22 | an entry with function, object and handle as given is appended, or -1 is returned at 128 |
| `AtExit.Registry.FinalizeFunc` | kernel/kernel/icxxabi.cpp:24-101 | both countdown loops make exactly the model's calls and leave its table |
| `AtExit.Registry.Perform` | kernel/kernel/icxxabi.cpp:14-101 | a whole trace on the registry makes the model's calls, leaves its table, and answers each registration with 0 up to the 128th and -1 after it |

## Left out

- HeapModel.MallocBig: as a value the list after a split without room is only known not to be one; what memory holds then is `HeapMemory.SplitMem`, and the lemmas on blocks say nothing of it.
- HeapMemory.SplitMem: is a map of headers, so of headers that overlap in part it keeps both; `HeapBytes.OverlaidBytesHoldNoList` makes its statement on the bytes, where they share.
- KernelHeap.MemoryManager.MallocBigChunk: takes states whose headers are linked in order; what further calls do once they are not is not part of this model.
- KernelHeap.MemoryManager.FreePtr: takes live pointers only, since the source frees whatever it is given without looking.
- Ext2Model.PlaceFile: drops the part of a name of more than 260 bytes that the 1023rd file writes behind the cache.
- Ext2Model.Encode: the 14 unused descriptor bits, left indeterminate by the source, are taken as zero.
- Ext2Model.Open: the superblock is an arbitrary object that fits its block; its fields are not modelled.
- Queues.Queue.Top: takes non-empty queues, since the source dereferences null otherwise.
- Vectors.Vector.Reserve: takes capacities from the size on, since below it the source writes past the new array; `push_back` asks for none such.
- Vectors.Vector.At: takes indices below the size; the source reads unchecked.
- Vectors.Vector.PopBack: takes non-empty vectors, since the source's size would wrap.
- Freed memory of queue nodes, vector buffers and block groups is not modelled.
- `PageDirectory::~PageDirectory` and `FreeAtIndex`: no directory that holds tables is destroyed in the kernel's flow, and the destructor does not tell absent or shared tables apart.
- `Vector(size)`, `Vector(size, initial)`, `resize` and copying: they use a floating-point logarithm or another capacity convention.
- Block groups beyond the second, other block sizes and other superblock places in file creation: the descriptor's 4-bit fields and the `% 4` offset hold in this setting only.
- Mounting a store of more than 511 files, and a store whose group's blocks lie elsewhere.
- `GetNext`'s answer and the error code at a page fault: they are parameters of the handler.
- Port access, inline assembly, CR3 loads, context switching and the ATA device, which is an array of sectors here.
- The printf format loop, the tty, the keyboard, and the containers of `libstdcxx`.
- Spin locks, which depend on instruction semantics outside the model.
