# Verified model of the kernel's memory, paging, tasking, ramdisk and screen code

This project models the parts of the kernel that carry its invariants, in the form the C code has them, and proves what
they are for.

- **Kernel heap** (`kernel/libc/memory.c`, `kernel/libc/data_structures/ordered_array.c`). `Heaps.Heap` works on raw
  memory: headers and footers are words in a byte array, the hole index is an array of addresses, pages come from the
  frame bitmap. Each method is proved against functions on *states* (`HeapModel`, `HeapOps`): regions that tile
  `[start, end)` and an index. On states and on traces of memory snapshots it is proved that the regions always tile the
  heap, that both tags of every region agree with it, that the index is exactly the set of holes, that no two holes are
  neighbours, that live blocks never overlap and keep their bytes, and that `free` undoes `alloc`. `HeapReentry` models
  `alloc` and `expand` as they call each other when a page table is missing; `HeapPageTable`, `HeapGrowth` and
  `HeapFull` say exactly when such calls return and what heap they leave. `HeapBoot` starts all of it from the directory
  that booting leaves.
- **Frames and paging** (`kernel/cpu/paging/paging.c`). The bitmap against a set of frames, runs of frame operations,
  the two-level directory against a flat map from page number to entry, page tables on pages of their own, the identity
  mapping whose bound moves while it runs, the boot layout, and `clone_directory` with an exact account of the frames
  it takes.
- **Tasking and timer** (`kernel/cpu/tasking/task.c`, `kernel/cpu/timer.c`). The linked ready queue against a ring of
  process ids, fairness of round robin, and a step machine in which ticks may fall between any two steps of
  `addProcess`: while a process is inside no tick switches, otherwise every tick does once switching was enabled.
- **Smaller cores.** The ramdisk packer against the mounted reader, chunked `memcpy` and `memset`, the scrolling text
  screen as a window on a sheet that never scrolls, and `itoa`.

## Reading the model

Addresses and sizes are unbounded numbers, kept below 2^32 by the length of the memory, unless a wrap is modelled
explicitly (`Initrd.ReadSize`, `Initrd.Disk.Readdir`). `ASSERT` only prints, so what it checks is a precondition. Where
running out of frames halts the machine, a method returns `None`, `null` or `false`, and its contract says exactly when:
a page that needs a frame finds none, or a clone needs more frames than are left. Physical addresses that `kmalloc_ap`
reports are those of the bump allocator.

Repairs and guards. Each one stands at its member; where the code as written fails, a lemma says exactly when it does
not.

- `expand` and `contract` round up to a page, as their comments say; the masks as written do so only for the sizes named
  in `HeapAsWritten.ExpandRoundingRight` and `HeapAsWritten.ContractRoundingKeeps`.
- The right merge in `free` assigns the footer's header, as its comment says; as written, `free` ends with right tags if
  and only if no hole follows the block or that hole ends the heap (`HeapAsWritten.TagsAsWrittenRight`,
  `Heaps.Heap.FreeTagsAsWritten`).
- When contraction uses up the merged hole, its own entry is removed and it is not inserted
  (`HeapAsWritten.FreedIndexAsWrittenRight`).
- Growing keeps the tiling exactly when the heap has no hole or ends in one (`HeapOps.GrowTiles`). `expand` calls `alloc`
  on the same heap exactly when a page it is about to back has no page table (`HeapReentry.ExpandReenters`). The guard
  `GrowGuard` excludes a heap with holes that ends in a block, and a missing table. Without alignment and without
  `free` the first half always holds (`HeapSteady.UnalignedIsSteady`); from boot the second holds exactly up to
  0xC0400000 (`HeapBoot.TablesFromBoot`). Over a missing table the code as written survives only if a hole takes the
  table, and then if that cut leaves a hole at the end (`HeapGrowth.GrowthTiles`). Otherwise it hangs
  (`HeapGrowth.AllocNeverReturns`), or counts the bytes of the nested growth twice: on a full heap, `alloc` then hands
  out a block that ends beyond the heap (`HeapFull.BlockBeyond`). Both happen after two allocations from `create_heap`
  (`HeapFull.FullHeapHangs`, `HeapFull.BlockBeyondFromBoot`).
- Cutting an aligned block is sound exactly when the front hole and the tail hole have room for their tags
  (`HeapOps.PlacePartsTile`); that is the guard `PlaceGuard`.
- Freeing at the end of the heap is sound exactly when contraction leaves nothing of the hole or room for its tags
  (`HeapFree.FreedTiles`); that is the guard `FreeGuard`. `HeapGuards` has a request or a short run from `create_heap`
  that violates each of these guards.
- `free` takes the bytes below the first region and above the last one as "no match".
- `create_heap` writes no footer, so a heap that is one hole may lack it (`HeapMemory.HeapTagged`); the heap must be at
  least `HEAP_MIN_SIZE` long from the start, and the index keeps one spare cell because inserting and removing touch the
  cell behind the last.
- The index and the tagged memory are separate objects here, so a method may write tags and index in either order.
- `less_than` is passed to the insertion instead of being stored; for the heap it compares size fields in memory.
- `free_frame` clears the frame's own bit; as written it clears the bit of frame 0
  (`Frames.FrameBitmap.FreeFrameAsWritten`, `FrameRuns.DroppedAsWrittenExact`). `first_frame` gives -1 when all frames
  are used, which is what its caller tests for. The bitmap has one word for each 32 frames.
- `_kill` frees the process node and `schedule` still reads its `next` link afterwards; the node stays readable.
- `memset` fills only with zero bytes in this kernel; for other bytes see `Memsets.ChunkSetRight`.
- `strcpy` writes no terminator; name buffers that are filled by it count as zeroed.
- A backspace at the first cell of the screen would write in front of video memory; it is excluded.

## Model

| member | source | states |
|---|---|---|
| `HeapRuns.RunKeepsInv` | kernel/libc/memory.c:198-504 | in every state of every run of alloc, free and client writes, each within its guard, the regions tile the heap, all tags agree, the index lists the holes, walking header sizes in memory finds exactly the regions and ends at end_address, and hole bytes plus block bytes are the heap length |
| `HeapRuns.StepKeepsInv` | kernel/libc/memory.c:293-504 | each single step within its guard keeps all of that, whichever call it is |
| `HeapRuns.RunSpares` | kernel/libc/memory.c:293-504 | over any run, a block that is not freed stays live and its bytes change only when its owner writes to it |
| `HeapRuns.StoredIsKept` | kernel/libc/memory.c:293-504 | what a client stored in its block is what it reads back after any run that leaves the block alone |
| `HeapRuns.FreeUndoesAlloc` | kernel/libc/memory.c:293-504 | free of what alloc just returned, neither changing the heap's length, restores every region and the exact set of holes, split, absorbed or aligned alike, and every other block keeps its bytes |
| `HeapRuns.StoreKeepsTags` | kernel/libc/memory.h:35-46 | a client writing anything, magic numbers included, between header and footer disturbs no tag |
| `HeapRuns.BlocksApart` | kernel/libc/memory.c:351-415 | two live blocks never overlap and both lie inside the heap |
| `Heaps.Heap.constructor` | kernel/libc/memory.c:198-234 | create_heap makes a well-formed heap of one hole behind the index, writing nothing but that hole's header |
| `Heaps.Heap.Alloc` | kernel/libc/memory.c:293-416 | within the guards alloc in memory does the step of the state model: the new state, all tags in memory, every live block's bytes kept, the payload address of the new block; every page it adds is present on a frame of its own with the bits the heap asks for, and no other entry changes; None only when a page that the grown heap needs has no frame and none is left |
| `Heaps.Heap.Free` | kernel/libc/memory.c:418-504 | free in memory does the step of the state model: the block gone, holes merged, the heap contracted, all tags right, every other block's bytes kept, every page still in the heap on a frame of its own |
| `Heaps.Heap.FreeTagsAsWritten` | kernel/libc/memory.c:424-483 | the assignments of free as they stand, contraction included, leave right tags if and only if no hole follows the block or that hole ends the heap |
| `Heaps.Heap.FindSmallestHole` | kernel/libc/memory.c:157-191 | reading sizes from memory, the search returns the first index position whose hole fits, and -1 if and only if no hole can hold the request, aligned or not |
| `Heaps.Heap.Expand` | kernel/libc/memory.c:236-262 | when every page up to the next page boundary has its table, the end moves there; every page it adds is present, with rw unless the heap is readonly and user unless it is supervisor, on its old frame or a free one, and every other entry is what it was; it fails only when a page it needs has no frame and none is left |
| `Heaps.Heap.Contract` | kernel/libc/memory.c:264-291 | no page still inside the heap is unmapped, the pages behind the new end lose their frame and nothing else, except the first, which stays mapped, no other entry changes, the length never drops below the minimum |
| `Heaps.Heap.Cut` | kernel/libc/memory.c:353-413 | front hole, block and tail hole are tagged in memory, and nothing outside the old hole is written |
| `Heaps.Heap.Place` | kernel/libc/memory.c:351-415 | cutting a block out of a hole updates memory and index to the model's state and keeps every live block's bytes |
| `Heaps.Heap.Grow` | kernel/libc/memory.c:299-348 | within the growth guard, one round of growing gives the new bytes to the last hole, or to a new one, in memory and index, over pages that are present; it fails only for want of a frame |
| `Heaps.Heap.HighestEntry` | kernel/libc/memory.c:309-322 | the loop finds the highest address in the index |
| `Heaps.Heap.Coalesce` | kernel/libc/memory.c:424-469 | marking and both merges leave one tagged hole that covers exactly the block and its neighbouring holes |
| `Heaps.Heap.UnifyLeft` | kernel/libc/memory.c:438-448 | the hole below is found through its footer and joined, and only then |
| `Heaps.Heap.UnifyRight` | kernel/libc/memory.c:450-469 | the hole above is found through its header and joined, and only then |
| `Heaps.Heap.Shrink` | kernel/libc/memory.c:471-498 | a merged hole at the end of the heap shrinks by what contraction gives back and keeps both tags |
| `Heaps.Heap.ReindexFreed` | kernel/libc/memory.c:460-503 | the index loses the right neighbour and gains the merged hole unless a left neighbour's entry serves it |
| `HeapModel.Conservation` | kernel/libc/memory.h:35-46 | a tiling loses no byte: holes and blocks add up to the heap length |
| `HeapModel.IndexExact` | kernel/libc/memory.c:226-231 | in a well-formed heap the index holds the address of every hole exactly once and nothing else |
| `HeapOps.PlacePartsTile` | kernel/libc/memory.c:355-413 | the parts cut out of a hole tile it if and only if the guard holds |
| `HeapOps.GrowTiles` | kernel/libc/memory.c:309-346 | growing keeps the tiling if and only if there is no hole or the heap ends in one |
| `HeapOps.EnlargedTiles` | kernel/libc/memory.c:338-346 | only the last region can grow without running into its neighbour |
| `HeapOps.AlignOffsetIs` | kernel/libc/memory.c:170-173 | the offset of an aligned search leads to the first page boundary behind the hole's header, one that it already ends on not counted |
| `HeapOps.FitsExactly` | kernel/libc/memory.c:164-181 | the test of the search passes if and only if the hole has room for the block with its payload on a page boundary, or anywhere without alignment |
| `HeapOps.CutFits` | kernel/libc/memory.c:364-379 | where the cut leaves room for the tags of the front hole, a hole can hold an aligned request if and only if the block fits where the cut puts it |
| `HeapLaws.PlacedWf` | kernel/libc/memory.c:351-413 | cutting a block keeps the heap well formed |
| `HeapLaws.PlacedBlocks` | kernel/libc/memory.c:351-415 | the live blocks are the old ones plus a new one inside the heap, page aligned if asked; it has exactly the size asked for, or is the whole hole when less than two tags would be left |
| `HeapLaws.GrownWf` | kernel/libc/memory.c:299-346 | growing keeps the heap well formed and the live blocks as they are |
| `HeapAlloc.AllocatedGood` | kernel/libc/memory.c:293-416 | within its guards alloc as a whole, growth included, keeps the heap well formed and adds exactly one block, big enough by less than the size of two tags |
| `HeapAlloc.AllocatedAligned` | kernel/libc/memory.c:364-379 | an aligned request gets a page-aligned payload |
| `HeapAlloc.AllocatedRounds` | kernel/libc/memory.c:299-349 | within its guards, page tables included, the recursion expands the heap at most once, twice for an aligned request |
| `HeapAlloc.SearchExact` | kernel/libc/memory.c:157-191 | sorted index or not, the search reports no hole if and only if no hole of the heap can hold the request, and every hole in front of the one it finds cannot |
| `HeapReentry.ExpandReenters` | kernel/libc/memory.c:254-261 | expand as written calls alloc again if and only if some page it is about to back has no page table, and otherwise only moves the end |
| `HeapReentry.AsWrittenIsModel` | kernel/libc/memory.c:293-349 | within the guards alloc and expand as they call each other make exactly the model's heap and one block |
| `HeapReentry.OneBlock` | kernel/libc/memory.c:293-349 | a request that all page tables would serve cuts out exactly one block if and only if every round of growing, the second one of an aligned request included, finds its tables |
| `HeapReentry.BootTables` | kernel/cpu/paging/paging.c:126-129 | with the one table above 3 GiB that booting makes, the tables are there if and only if the new end is at most 0xC0400000 |
| `HeapPageTable.TableRequest` | kernel/cpu/paging/paging.c:186-191 | the request for a page table returns if and only if a hole takes it, or the two pages behind the heap have their tables, four if there is no hole at all |
| `HeapGrowth.ExpandReturns` | kernel/libc/memory.c:254-261 | with at most one table missing, expand returns if and only if none is missing or the one that is comes |
| `HeapGrowth.AllocNeverReturns` | kernel/libc/memory.c:98-100 | when a table is missing and does not come, the request never returns, whatever its alignment and however many are missing |
| `HeapGrowth.CutGrowsExactly` | kernel/libc/memory.c:309-346 | after any aligned cut, sound or not, growing tiles the heap if and only if the front hole has room for its tags and the heap ends in a hole, all others having room for theirs |
| `HeapGrowth.GrowthTiles` | kernel/libc/memory.c:299-346 | with at most one table missing, the heap that alloc has grown is tiled if and only if no table is missing and there is no hole or one at the end, or a hole takes the page table and its cut grows right; all of it said of the heap before the call |
| `HeapFull.FullHeapReturns` | kernel/libc/memory.c:299-349 | on a heap without holes a request without alignment returns if and only if its tables are there or those of the next four pages |
| `HeapFull.BlockBeyond` | kernel/libc/memory.c:336-351 | on a heap without holes, when the missing table does come, the block that alloc returns starts 0x2008 bytes behind the old end and ends beyond the new one |
| `HeapFull.FilledReturns` | kernel/libc/memory.c:293-349 | two requests from create_heap on fill the heap up to any page; the next one returns if and only if it, or four pages, stay below 0xC0400000 |
| `HeapFull.FullHeapHangs` | kernel/cpu/paging/paging.c:186-191 | two requests from create_heap on fill the heap up to 0xC0400000; then no request of any size returns, although max_address is far |
| `HeapFull.BlockBeyondFromBoot` | kernel/libc/memory.c:336-351 | two requests from create_heap on, and a third one of 0x5000 bytes gets a block that ends 0x2008 bytes beyond the heap |
| `HeapGuards.PlaceGuardFails` | kernel/libc/memory.c:365-413 | an aligned request to the fresh heap that leaves 4 bytes behind its block |
| `HeapGuards.GrowGuardFails` | kernel/libc/memory.c:309-346 | two allocations and a free from create_heap on, after which growing runs into a block |
| `HeapGuards.FreeGuardFails` | kernel/libc/memory.c:471-483 | two allocations from create_heap on, after which a free leaves 4 bytes of a hole |
| `HeapBoot.CreateKernelHeap` | kernel/cpu/paging/paging.c:151-166 | over the directory that booting leaves, create_heap makes a valid heap with every page on a frame of its own |
| `HeapBoot.TablesFromBoot` | kernel/libc/memory.c:254-261 | from there, growing calls for no page table if and only if the new end is at most 0xC0400000 |
| `HeapBoot.RunFromBoot` | kernel/libc/memory.c:293-504 | over any run from boot of steps within their guards the heap stays below the end of its one page table; it does because the growth guard admits no step that would take it there |
| `HeapFree.FreedTiles` | kernel/libc/memory.c:438-498 | what free leaves tiles the contracted heap if and only if the residue of the hole is empty or has room for its tags |
| `HeapFree.FreedWf` | kernel/libc/memory.c:418-504 | free keeps the heap well formed and never extends it |
| `HeapFree.FreedShrinks` | kernel/libc/memory.c:264-291 | free shrinks the heap only when the merged hole reaches its end, and then to the least page multiple that keeps everything in front of that hole and the minimum size |
| `HeapFree.FreedBlocks` | kernel/libc/memory.c:418-448 | free takes away exactly the freed block |
| `HeapFree.FreeUndoesPlace` | kernel/libc/memory.c:351-503 | freeing the block just cut restores all regions, whether the hole was split, absorbed whole or cut in the middle for alignment, unless the heap contracts |
| `HeapMemory.WalkFindsRegions` | kernel/libc/memory.h:35-46 | the header sizes in memory determine the regions and the walk ends exactly on the end |
| `HeapMemory.SizeFieldRight` | kernel/libc/memory.c:193-196 | the comparison of headers reads the sizes of the regions |
| `HeapMemoryLaws.SameOrder` | kernel/libc/memory.c:193-196 | inserting by size fields in memory and by region sizes gives the same index |
| `HeapOrder.PlacedSorted` | kernel/libc/memory.c:351-413 | an unaligned allocation that does not expand keeps the index sorted by size |
| `HeapOrder.FreedSorted` | kernel/libc/memory.c:435-503 | a free without left merge keeps the index sorted, right merge and contraction included |
| `HeapOrder.LeftMergeSorted` | kernel/libc/memory.c:441-448 | a left merge keeps the index sorted if and only if the merged hole still fits between its neighbours in the index |
| `HeapOrder.SmallestFits` | kernel/libc/memory.c:157-191 | with a sorted index the search returns a smallest hole among those that can hold the request, aligned or not |
| `HeapSteady.RunKeepsSorted` | kernel/libc/memory.c:157-191 | over any run of unaligned non-expanding allocations, frees without left merge and writes, the index stays sorted and every search, aligned or not, finds a smallest hole that can hold its request |
| `HeapSteady.UnalignedIsSteady` | kernel/libc/memory.c:299-349 | before anything is freed, an unaligned request meets every other guard as the code stands if the heap may grow and the page tables are there, and leaves only the last region a hole |
| `HeapSteady.UnalignedRunIsSteady` | kernel/libc/memory.c:299-349 | so it does over any run of unaligned allocations |
| `HeapAsWritten.ExpandRoundingRight` | kernel/libc/memory.c:241-246 | the rounding in expand as written is right if and only if the size is odd or a page multiple |
| `HeapAsWritten.ContractRoundingKeeps` | kernel/libc/memory.c:269-278 | the rounding in contract as written keeps what it should if and only if bit 12 is clear or the minimum size covers it |
| `HeapAsWritten.FreedIndexAsWrittenRight` | kernel/libc/memory.c:484-503 | the index as written lists the holes after free if and only if contraction leaves some of the hole |
| `HeapAsWritten.TagsAsWrittenRight` | kernel/libc/memory.c:450-483 | after free as written every tag is right if and only if no hole follows the block or the heap ends with that hole |
| `HeapAsWritten.StaleFooterRun` | kernel/libc/memory.c:455-458 | three allocations and a free from create_heap on, after which the tags that the next free leaves are not right |
| `OrderedArrays.OrderedArray.Insert` | kernel/libc/data_structures/ordered_array.c:40-68 | the shifting loops insert the item before the first element that is not less |
| `OrderedArrays.OrderedArray.Remove` | kernel/libc/data_structures/ordered_array.c:76-85 | the shifting loop removes exactly position i |
| `OrderedArrays.OrderedArray.Lookup` | kernel/libc/data_structures/ordered_array.c:70-74 | lookup returns element i and changes nothing |
| `OrderedArrays.InsertedSorted` | kernel/libc/data_structures/ordered_array.c:44-67 | inserting into a sorted array keeps it sorted, for any strict weak order |
| `OrderedArrays.InsertedElements` | kernel/libc/data_structures/ordered_array.c:48-67 | the elements after insertion are the old ones and the item |
| `OrderedArrays.RemovedElements` | kernel/libc/data_structures/ordered_array.c:76-85 | the elements after removal are the old ones without the removed one |
| `OrderedArrays.RemovedSorted` | kernel/libc/data_structures/ordered_array.c:76-85 | removal keeps the order |
| `Frames.FrameBitmap.SetFrame` | kernel/cpu/paging/paging.c:17-24 | one more frame is used, and no other bit changes |
| `Frames.FrameBitmap.ClearFrame` | kernel/cpu/paging/paging.c:26-33 | one frame less is used, and no other bit changes |
| `Frames.FrameBitmap.TestFrame` | kernel/cpu/paging/paging.c:35-42 | nonzero if and only if the frame is used |
| `Frames.FrameBitmap.FirstFrame` | kernel/cpu/paging/paging.c:44-61 | the least free frame, -1 if and only if all are used |
| `Frames.FrameBitmap.AllocFrame` | kernel/cpu/paging/paging.c:63-85 | an entry that holds a frame keeps it, any other gets the least free one and the bits asked for; None if and only if it needs one and none is free |
| `Frames.FrameBitmap.FreeFrameAsWritten` | kernel/cpu/paging/paging.c:87-99 | as written, only the bit of frame 0 is cleared, whatever frame the entry held |
| `Frames.FrameBitmap.FreeFrame` | kernel/cpu/paging/paging.c:87-99 | repaired, the entry's own frame becomes free |
| `FrameRuns.RunExact` | kernel/cpu/paging/paging.c:63-99 | over any run of alloc_frame and the repaired free_frame the bitmap is exactly frame 0 plus the frames held, each by one holder |
| `FrameRuns.RunAsWrittenDistinct` | kernel/cpu/paging/paging.c:63-99 | as written too, over any run no two holders share a frame and every frame held has its bit set |
| `FrameRuns.DroppedAsWrittenExact` | kernel/cpu/paging/paging.c:87-99 | as written, free_frame keeps the bitmap exact if and only if the entry held no frame |
| `Pagers.Pager.MapPage` | kernel/libc/memory.c:254-259 | a heap page whose table is there is left alone if it has a frame, otherwise it gets the least free one, present, with rw and user as asked; every other entry stays as it is; it fails if and only if a frame is needed and none is free |
| `Pagers.Pager.UnmapPage` | kernel/libc/memory.c:283-287 | unmapping a heap page gives its frame back, clears the frame number and nothing else, and touches no other page |
| `Paging.Kernel.KmallocInt` | kernel/libc/memory.c:110-126 | the bump stage returns an address at or above the old one, page aligned if asked, and moves past it |
| `Paging.Kernel.GetPage` | kernel/cpu/paging/paging.c:178-198 | the entry for an address; a missing table is made only on demand, on the next page from the bump address, with that address and the flags in its directory slot, and its entries are empty; every other slot and entry stays |
| `Paging.OneMorePage` | kernel/cpu/paging/paging.c:188-191 | tables on pages of their own stay so when one more is taken from the bump address |
| `Paging.PutEntry` | kernel/cpu/paging/paging.c:178-198 | storing through the entry changes the flat map at that page number only |
| `Paging.EntriesApart` | kernel/cpu/paging/paging.c:180-184 | distinct page numbers never share an entry |
| `Paging.Kernel.AllocEntry` | kernel/cpu/paging/paging.c:63-85 | alloc_frame on a directory entry, seen in the flat map and the set of used frames; it fails if and only if a frame is needed and none is free |
| `BootPaging.IdentityMap` | kernel/cpu/paging/paging.c:143-149 | the loop with the moving bound terminates for every start value, and if the frames suffice page k maps to frame k below the final free_mem_addr + 0x1000 at exit; what it spends on tables is accounted for exactly, and each table lies on a page of its own |
| `BootPaging.MapIdentityPage` | kernel/cpu/paging/paging.c:144-149 | one round extends the identity mapping by one page and makes at most that page's table, and fails exactly when all frames are used |
| `BootPaging.MakeHeapTables` | kernel/cpu/paging/paging.c:125-129 | the heap's table exists and is empty before any frame is given out |
| `BootPaging.MapHeap` | kernel/cpu/paging/paging.c:152-155 | the heap pages get the frames right behind the identity mapping, if and only if there are that many, and free_mem_addr no longer moves |
| `BootPaging.InitialisePaging` | kernel/cpu/paging/paging.c:105-155 | the frames suffice if and only if the start value is at most 0xEF6F80, and then: identity mapping, heap pages, every used frame held by exactly one page, no other page table, every table on a page of its own behind the directory |
| `BootPaging.FitsExactly` | kernel/cpu/paging/paging.c:111-155 | the arithmetic behind that bound: bitmap, directory, tables and pages |
| `BootPaging.LayoutExact` | kernel/cpu/paging/paging.c:143-155 | the boot layout leaves no frame unaccounted for |
| `Cloning.Cloner.CloneDirectory` | kernel/cpu/paging/paging.c:257-287 | null if and only if the mapped private pages are more than the free frames; otherwise every slot is empty, the kernel's own table, or a fresh deep copy on a page of its own, exactly one frame is taken for each page copied and named by the clone, and frames in use before keep their bytes |
| `Cloning.Cloner.CloneTable` | kernel/cpu/paging/paging.c:232-255 | null if and only if the mapped entries are more than the free frames; otherwise each entry is empty for an empty one, else it has a frame nobody held, the same bytes and the same rw, accessed and dirty bits, and the frames taken are exactly those the copy names |
| `Cloning.Cloner.CloneExact` | kernel/cpu/paging/paging.c:232-287 | if the bitmap was exactly frame 0 and the frames that pages hold, each by one, it still is when the private pages of the clone are counted among the holders |
| `Cloning.Cloner.CloneKeepsMeaning` | kernel/cpu/paging/paging.c:267-284 | each page number resolves in the clone to the very same entry or to an exact copy, and unmapped stays unmapped |
| `Cloning.Cloner.CloneFramesApart` | kernel/cpu/paging/paging.c:267-284 | no two private pages of the clone share a frame |
| `Cloning.CopiesApart` | kernel/cpu/paging/paging.c:232-255 | tables copied one after the other share no frame |
| `RoundRobin.EachRunsOnce` | kernel/cpu/tasking/task.c:245-260 | with n processes, n schedule calls in a row run each exactly once |
| `RoundRobin.ScheduledCloser` | kernel/cpu/tasking/task.c:249-250 | schedule brings every waiting process strictly closer |
| `RoundRobin.KilledCloser` | kernel/cpu/tasking/task.c:93-108 | so does killing the running process |
| `RoundRobin.AddedDistance` | kernel/cpu/tasking/task.c:206-214 | a new process never pushes a waiting one back by more than its own turn |
| `RoundRobin.KilledOrder` | kernel/cpu/tasking/task.c:93-102 | the processes that stay keep their order |
| `RoundRobin.KilledWf` | kernel/cpu/tasking/task.c:77-109 | idle stays at the head, ids stay distinct, only the running process leaves |
| `RoundRobin.WaitingIsBounded` | kernel/cpu/tasking/task.c:77-260 | over any run of schedule, kill and add, a waiting process runs within a bound fixed at the start plus the processes added |
| `Tasks.Tasking.CreateProcess` | kernel/cpu/tasking/task.c:170-203 | the new process has an id nobody has and is not yet linked |
| `Tasks.Tasking.AddProcessUnlocked` | kernel/cpu/tasking/task.c:206-214 | walking to the null link appends the process at the end of the queue |
| `Tasks.Tasking.AddProcess` | kernel/cpu/tasking/task.c:217-223 | the queue grows by the process at its end, switching is back on if it ever was |
| `Tasks.Tasking.Unlink` | kernel/cpu/tasking/task.c:93-102 | the loop relinks the predecessor of the running process and no other node |
| `Tasks.Tasking.Kill` | kernel/cpu/tasking/task.c:77-109 | idle halts the machine with switching off; any other running process leaves the queue, which stays a null-terminated list, the one behind it runs, and switching is on again if it ever was |
| `Tasks.Tasking.Schedule` | kernel/cpu/tasking/task.c:245-260 | the cursor moves to the next process, from the last one to the head |
| `Tasks.Tasking.TimerCallback` | kernel/cpu/timer.c:23-32 | each tick counts, and switches exactly when the flag is set |
| `Tasks.Timer.SetTask` | kernel/cpu/timer.c:11-15 | the flag changes only once switching was ever enabled |
| `Tasks.Timer.EnableTask` | kernel/cpu/timer.c:17-21 | both flags are on afterwards |
| `TimerGate.SwitchingTicksAreSafe` | kernel/cpu/timer.c:23-32 | at every tick that switches nobody is inside addProcess and the queue is a complete list that holds the cursor |
| `TimerGate.CursorStays` | kernel/cpu/tasking/task.c:217-223 | while a process is inside addProcess no step moves the cursor away from it, enabled or not |
| `TimerGate.AddIsAtomic` | kernel/cpu/tasking/task.c:206-223 | whatever ticks come in between, from entry to return the queue changes only by the new process at its end |
| `TimerGate.StepInv` | kernel/cpu/timer.c:11-32 | every step of the machine keeps the list complete and the flag right: ticks switch if and only if switching was ever on and nobody is inside |
| `TimerGate.SwitchesExactly` | kernel/cpu/timer.c:11-32 | in every state of every run, ticks switch if and only if an enable step was taken and nobody is inside addProcess |
| `TimerRing.StepOnRing` | kernel/cpu/timer.c:11-32 | every step of the machine does to the ring of processes what schedule, _kill and __addProcess do to the linked queue, and nothing otherwise |
| `TimerRing.TickOnRing` | kernel/cpu/timer.c:23-32 | in every run a tick moves the ring to the next process if and only if switching was ever enabled and nobody is inside addProcess, and otherwise changes nothing at all |
| `TimerRing.AddReturns` | kernel/cpu/tasking/task.c:206-223 | a process inside addProcess has exactly one step to take besides ticks, ticks change nothing, and each such step brings its return closer by one |
| `Ramdisk.Pack` | tools/initrd_creator/init_rd_creator.c:14-60 | the packer's output is an image: the count, a header with name, offset and length for each file, and the contents at those offsets |
| `Ramdisk.FillHeaders` | tools/initrd_creator/init_rd_creator.c:21-43 | the running offset is where the contents of each file will start |
| `Ramdisk.AppendContents` | tools/initrd_creator/init_rd_creator.c:50-59 | the contents written one after the other land at those offsets |
| `Ramdisk.OffsetMonotone` | tools/initrd_creator/init_rd_creator.c:38-41 | the contents of different files do not overlap |
| `Initrd.Disk.constructor` | kernel/filesystem/initrd.c:72-132 | mounting a packed image anywhere turns every offset into an address, makes one node for each file, and writes only to the header table |
| `Initrd.Disk.Rebase` | kernel/filesystem/initrd.c:110-129 | one round of the mounting loop rewrites one offset and leaves all other headers and contents as they are |
| `Initrd.LoadedIsRebased` | kernel/filesystem/initrd.c:72-76 | an image copied into memory is one that can be mounted |
| `Initrd.Disk.Read` | kernel/filesystem/initrd.c:14-29 | as written for every offset and size; if the end does not wrap and the buffer is outside the image, exactly the clipped slice of file i is in the buffer and the disk stays mounted |
| `Initrd.SliceBytes` | kernel/filesystem/initrd.c:14-29 | the slice starts at the offset, is as long as the size and the file allow, and is the whole file when read from 0 with at least its length |
| `RamdiskRoundTrip.PackMountRead` | kernel/filesystem/initrd.c:14-132 | packing, loading anywhere, mounting and reading gives back exactly the slice of the file that was packed |
| `Initrd.ReadSizeRight` | kernel/filesystem/initrd.c:18-25 | the clipping in 32-bit arithmetic is right if and only if the end does not wrap or the read starts behind the file |
| `Initrd.SuccessiveReads` | kernel/filesystem/initrd.c:14-29 | successive reads, however they are cut, concatenate to the file |
| `Initrd.Disk.Readdir` | kernel/filesystem/initrd.c:31-51 | the entry at an index: dev first for the root, then each file with its inode, none behind the last, none for index 0 of another directory |
| `Initrd.Disk.Finddir` | kernel/filesystem/initrd.c:53-70 | dev for the root, otherwise the first file of that name, none if there is none |
| `Initrd.ListingIsFaithful` | kernel/filesystem/initrd.c:31-70 | finddir of every listed name returns the listed node if and only if the names are distinct and none is dev |
| `Initrd.ListedInode` | kernel/filesystem/initrd.c:31-70 | the inode that readdir gives is that of the node finddir returns for the listed name, if and only if it is the node listed, or the first file is called dev |
| `Initrd.ListingIsComplete` | kernel/filesystem/initrd.c:31-70 | readdir visits every name that finddir finds, once if names are distinct, and stops behind the last file |
| `Initrd.FirstFromIs` | kernel/filesystem/initrd.c:60-67 | finddir's loop returns the first match and misses none |
| `Memcpys.Memcpy` | kernel/libc/memory.c:8-48 | the chunked loop copies the source bytes as they were whenever its exact condition holds, and touches nothing else |
| `Memcpys.ChunkCopyRight` | kernel/libc/memory.c:16-45 | chunks of 8, 4, 2 and 1 bytes copy what a whole-range copy would, whenever the overlap is safe |
| `Memcpys.ByteCopyRight` | kernel/libc/memory.c:39-43 | and so does the byte-by-byte copy, so the two agree |
| `Memcpys.StepCount` | kernel/libc/memory.c:16-45 | the loop takes one step for each 8 bytes and one for each set bit of the rest |
| `Memcpys.ChunkCopyExactly` | kernel/libc/memory.c:16-45 | the chunked copy is right for every content if and only if the destination does not start inside the source or the whole copy is at most one load and one store |
| `Memcpys.OverlapWrong` | kernel/libc/memory.c:16-45 | a witness: a destination just above the source already goes wrong for three bytes |
| `Memsets.Memset` | kernel/libc/memory.c:50-89 | memset fills the range with zeros, and any range of at most one byte |
| `Memsets.ChunkSetRight` | kernel/libc/memory.c:58-86 | memset fills the range with the byte if and only if the byte is 0 or the range has at most one byte |
| `Screens.Screen.PutChar` | kernel/drivers/screen.c:89-133 | the 25x80 buffer keeps showing a window of a sheet that never scrolls, with the cursor at the sheet's position, and at most one scroll |
| `Screens.Screen.PutString` | kernel/drivers/screen.c:77-87 | so does a whole string, up to its terminator; the result counts the terminator |
| `Screens.Screen.ScrollUp` | kernel/drivers/screen.c:135-149 | rows move up by one and the last row is zeroed |
| `Screens.Screen.ClearScreen` | kernel/drivers/screen.c:56-70 | the screen shows the start of a blank sheet |
| `Screens.Screen.SetCursorOffset` | kernel/drivers/screen.c:162-173 | the two registers read back as the offset, which is even and on the screen |
| `Screens.ScrolledOffIsKept` | kernel/drivers/screen.c:89-149 | over any text the cursor stays in the window and rows that were scrolled off never change |
| `Screens.WindowFollows` | kernel/drivers/screen.c:124-129 | the window is exactly as far down as showing the furthest row reached demands |
| `Screens.PutStays` | kernel/drivers/screen.c:124-129 | one scroll for each character is enough |
| `Screens.PlainText` | kernel/drivers/screen.c:116-122 | text without control characters fills the cells from the position on, one each, changes no other cell and leaves the position behind it |
| `Screens.Movements` | kernel/drivers/screen.c:97-108 | newline leads to the start of the next row, return to that of its own, tab four cells on, and none of them changes a cell |
| `Screens.BackspaceUndoes` | kernel/drivers/screen.c:109-122 | backspace after a character takes the position back to it and blanks its cell alone |
| `Screens.ConsoleCoordinates` | kernel/drivers/screen.c:162-167 | current_y is right exactly in row 0, current_x exactly at two cells of every second row, because the offset is halved first |
| `Screens.ColourIsBackground` | kernel/drivers/screen.h:12 | the attribute byte that COLOUR leaves is the background alone |
| `Screens.RowAndCol` | kernel/drivers/screen.c:175-177 | row and column of an offset lead back to it |
| `Itoas.Itoa` | kernel/libc/string.c:7-46 | for base x in sixteens, for any other in tens: the buffer holds a string of digits without leading zeros whose value is the number, then its terminator, and nothing behind that changes |
| `Itoas.NumeralReads` | kernel/libc/string.c:28-33 | the numeral reads back as the value and has no leading zero, except for 0 itself |
| `Itoas.DigitTable` | kernel/libc/string.c:30-32 | digit d is the character 0 to 9 or A to F |
| `Itoas.ValueIsWritten` | kernel/libc/string.c:28-45 | every string of digits without leading zeros is the numeral of its value |
| `Itoas.NumeralInjective` | kernel/libc/string.c:7-46 | different values get different strings |
| `Itoas.NumeralBound` | kernel/libc/string.c:28-35 | at most 10 decimal or 8 hexadecimal digits for a 32-bit value |
| `Itoas.ReverseFront` | kernel/libc/string.c:36-45 | the swapping loop reverses the digits in place |

## Left out

- Heaps.Heap.Alloc: requires the growth and alignment guards described above and room below max_address, because the code runs into neighbouring regions without them; the lemmas named there say exactly when.
- Heaps.Heap.Free: requires the contraction guard and a spare index cell; a pointer that alloc never returned is excluded because its ASSERT does not stop the code.
- Heaps.Heap.Expand: requires the page tables to be present; what happens otherwise is modelled on states only, in HeapReentry, HeapPageTable, HeapGrowth and HeapFull, where memory and frames do not appear.
- HeapGrowth.GrowthTiles: at most one page table is missing; for a request that misses two or more, only HeapGrowth.AllocNeverReturns says something.
- HeapFull.FullHeapReturns: says nothing of a second round of an aligned request, which starts from a heap that the first may have left broken.
- Heaps.Heap.constructor: the memory of the index is an object of its own, not part of the tagged memory.
- Paging.Kernel.KmallocInt: the stage before the heap exists; afterwards kmalloc_int is alloc, whose physical address lookup is not modelled.
- Frames.FrameBitmap.AllocFrame: halting when no frame is free is a `None` result.
- Cloning.Cloner.CloneTable: present and user are always set in a copy, as alloc_frame sets them before the source's bits are looked at.
- Tasks.Tasking.CreateProcess: only id, entry point, state and link; the initial stack and the page directory are not modelled.
- Tasks.Tasking.Kill: frees nothing, so the use of the node after it was freed has no effect here.
- Ramdisk.Pack: files are byte sequences that exist; at most 64 of them with names shorter than 64 bytes that contain no zero byte, and an image below 4 GiB.
- Initrd.Disk.Read: the bytes it reads and writes must exist; for a read whose end wraps, or a buffer inside the image, only the copy as written is stated.
- Screens.Screen.PutChar: port writes become two register fields.
- Itoas.Itoa: the sign branch is left out because it asks an unsigned value to be negative.
- Memsets.Memset: the fill value is a byte; sign extension of negative values is not modelled.
- TimerGate.AddIsAtomic: an interrupt may fall between the steps of the machine but not inside one of them.
- BootPaging.InitialisePaging: the page fault handler, loading cr3 and cr0 and the first clone are not modelled.
- HeapBoot.CreateKernelHeap: the heap gets the entries of the directory as a map, so later changes to the directory's tables by others are not seen.
- `kill`, `is_pid_running` and `tasking_print_all`: the last two wait for a circular list while the queue ends in null.
- `split` in kernel/libc/string.c: it copies over its own pointer slots, so no intended result can be recovered.
- The other string functions, `printf`, the shell and user input: single loops or user interface.
- Port I/O, ATA, RTC, PIC, PIT, keyboard and mouse drivers: hardware traffic.
- Assembly stubs, descriptor tables, stack relocation and context switching; `jump_to_ecx` is "now running cp", `copy_page_physical` copies one frame.
- The boot loaders, `bindump` and the stand-alone ramdisk reader: file plumbing.
