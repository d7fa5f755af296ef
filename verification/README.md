# MatteOS kernel model

MatteOS is a small RISC-V kernel. This project models its stateful cores in Dafny and proves what they
promise over every input and every run.

- **Kernel heap** (`KernelHeap`, `HeapAccounts`): an implicit list of headers, first fit with splitting, and one
  merging pass after each free. Chunks always tile the heap, live blocks stay apart and keep their contents, one
  pass is enough to bound fragmentation over every run, and the statistics count what is live.
- **Pages and address spaces** (`Pages`, `PageTables`, `MemoryManagement`, `Sv39`, `MappedRanges`): the descriptor
  array of the page allocator, the builder of Sv39 tables and its independent reader. The tables in memory always
  represent a flat map from pages to frames, which `map` updates at one page and `translate` reads. `Sv39` is the
  hardware's own walk over the words in memory (RISC-V Privileged Architecture 20211203, sections 4.3.2 and 4.4),
  and what it finds after any calls of `map`.
- **Threads** (`Traps`, `RunQueue`, `ThreadMachine`, `Threads`): trap entry and exit register by register, the
  linked run queue, the scheduler, blocking and waking on console lines, and the system-call path.
  `ThreadMachine` says what threads are for without the mechanism. `Threads.Kernel.Trap` proves that one trap
  of the kernel is one step of that machine, `Threads.Kernel.Perform` that a run of the kernel is a run of it, and
  `Threads.Kernel.Serve` says what follows for the kernel's own queue, lines and registers.
- **FAT32** (`Fat`, `FatVolume`): cluster and FAT-entry addresses, the block cache, the cluster-chain walk and file
  reads, and what they give on a disk laid out byte by byte as the Microsoft FAT32 File System Specification,
  section "FAT Data Structure", has it.
- **Device tree** (`Fdt`, `FdtNops`): the recursive structure-block parser against printers of Devicetree
  Specification v0.4, section 5.4, the second with FDT_NOP words and literal tokens.
- **Virtqueue** (`VirtQueue`): the driver's half of a split virtqueue (VirtIO 1.2, sections 2.7.5, 2.7.6, 2.7.13),
  and what a block device makes of it (section 5.2.6).
- **Build script, paths, numbers** (`BuildScript`, `Paths`, `Numbers`, `NumberForms`).

Code that changes state is modelled by classes and methods with the source's fields and loops, each proved
against a function of the old state. What the source promises is then proved about those functions.

## Where the code departs from its intent

The model keeps the code as it is. Where a promise does not hold on all inputs, one lemma gives the exact
condition and another an input, or a whole family of them, at which it fails.

- `kmalloc` computes the end of its scan as a header pointer plus a byte count, so the scan runs eight times
  too far (`src/Kernel/Memory/KernelMemoryAllocator.cpp:44`). A request that fits nowhere leaves the heap:
  outcome `RanPastHeap`, exactly when no chunk fits, instead of a null pointer. Asking a fresh heap for all of
  its bytes does it (`KernelHeap.FullRequestFitsNowhere`).
- A `kmalloc` request is rounded up in 64 bits and covers what was asked for exactly up to 2^64 - 16 bytes
  (`KernelHeap.RequestCoversSize`); beyond that it destroys the chunk list
  (`KernelHeap.WrappedRequestBreaksHeap`).
- The inner scan of page `alloc` has no upper bound (`src/Kernel/Memory/MemoryManager.cpp:69`): it leaves the
  array, outcome `ScannedPastEnd`, exactly when nothing fits and the last page is free. Asking a fresh pool for
  all of its pages does it (`Pages.FreshPoolScansPastEnd`).
- A page request whose sums wrap in 64 bits, which no pool has room for, is refused exactly when no page is free
  where they wrap, nor the last one (`Pages.WrappedRefusedExactly`). Any other is granted a page that stays free
  (`Pages.WrappedRequestGranted`) or has a loop leave the array (`Pages.FreshPoolMarkedPastEnd`).
- The page pool has as many pages as the heap region but starts behind the descriptors
  (`src/Kernel/Memory/MemoryManager.cpp:49-50`). `MemoryManagement.PoolInsideHeap` says when it still fits; for
  a region of whole pages it never does (`MemoryManagement.WholePagesLeaveHeap`).
- A range whose rounded end lies below its start is mapped through the end of the 64-bit address space
  (`MemoryManagement.PageCountExact`), and so is every range that ends in the last page of it
  (`MemoryManagement.LastPageRunsOn`).
- `get_ppn` masks nine bits where ten lie below the page number; `PageTables.GetPpnExact` says when that is exact.
- `translate` looks at 39 address bits and at the valid bit of a page. It also gives an address where the hardware
  faults: for addresses that are not canonical, and for pages that are neither readable nor executable without being
  writable (`Sv39.MappedRead`). For leaves above the lowest level, which no caller makes, it is right on the first
  4 KiB only (`Sv39.GigapageExactly`, `Sv39.MegapageExactly`).
- `schedule` loops for ever when no thread can run. `ThreadMachine.HangsExactlyWhen` says when that happens: the
  last running thread reads a console line that is not there. A lone thread can do it at once
  (`ThreadMachine.LoneReaderHangs`).
- The `size` cap of a file read compares a sum that may wrap (`Fat.CapExact`), and when it wraps nothing is cut
  (`Fat.WrappedRequestUncut`). A cluster address agrees with the specification exactly when the FATs fill whole
  clusters and fit in 32 bits (`Fat.ClusterAddress`); `Fat.ClusterMissed` is a volume where they do not. For the
  bytes that are read the reserved region must also be whole 512-byte sectors (`Fat.ClusterBytes`).
- Reading a file in pieces differs from reading it at once when its chain is shorter than the size recorded for
  it: a piece that starts at the end of the chain fails, a long read does not (`Fat.ChunksAgreeExactly`,
  `Fat.ChunksFailExactly`, `Fat.ShortChainFails`).
- The device-tree parser compares the distance from the blob's header with the length of the structure block
  (`src/Kernel/Firmware/FDT/FDTParser.cpp:60`), and `align_to` drops the upper half of an address
  (`Fdt.AlignToRoundsUp`). `Fdt.TreeComesBackExactly` says for every limit and every word-aligned address whether
  the tree comes back, `Fdt.LowTreeComesBackExactly` below 4 GiB, where the limit alone decides, and
  `Fdt.SourceLimit` for the source's own limit. `Fdt.SourceLimitFails` is a blob that limit loses; a blob above
  4 GiB keeps nothing but its root's name (`Fdt.HighBlobLosesTree`).
- FDT_NOP words in front of the root, which section 5.4.2 of the Devicetree Specification v0.4 allows, make the
  parser reject the tree (`FdtNops.RootNopsExactly`).
- `split` loses the last component when a single separator ends the text (`Paths.SplitIsCompleteUnless`).
- A mount that contains the path is chosen exactly when no earlier mount shares as much with the path and no
  later one shares more, even if those do not contain it (`Paths.MountChosenExactly`); of `/x/y` and `/x` the
  first is taken for `/x/z` (`Paths.PartialMountChosen`).
- `from_int` prints into 20 bytes, which suffice exactly when its argument is not negative (`Numbers.FromIntFits`).

## Model

| member | source | states |
|---|---|---|
| MachineWords.AlignValueRoundsUp | src/Kernel/Memory/MemoryManager.cpp:180-183 | Aligning rounds up to the next multiple exactly when the 64-bit sum does not wrap; otherwise it gives zero. |
| KernelHeap.FirstFit | src/Kernel/Memory/KernelMemoryAllocator.cpp:45-62 | The lowest chunk that is free and long enough; every chunk before it does not fit. |
| KernelHeap.LiveBlocksDisjoint | src/Kernel/Memory/KernelMemoryAllocator.cpp:37-65 | Two different live blocks never share a word, for every chunk list. |
| KernelHeap.FreePlusTaken | src/Kernel/Memory/KernelMemoryAllocator.cpp:92-110 | Free and used sizes add up to the size of the heap. |
| KernelHeap.RequestCoversSize | src/Kernel/Memory/KernelMemoryAllocator.cpp:42 | The chunk looked for is a multiple of 8, at least 16 bytes, and holds the request plus header exactly when the request is at most 2^64 - 16. |
| KernelHeap.TakeAddsBlock | src/Kernel/Memory/KernelMemoryAllocator.cpp:46-58 | Allocating in a chunk, split or not, adds exactly one live block there, leaves every other block alone and keeps the heap's size. |
| KernelHeap.MallocAddsBlock | src/Kernel/Memory/KernelMemoryAllocator.cpp:37-65 | A request that fits adds exactly one block: new, in the lowest fitting chunk, at least as long as asked for. |
| KernelHeap.FreeRemovesBlock | src/Kernel/Memory/KernelMemoryAllocator.cpp:78-84 | Freeing a live block, merging included, removes exactly that block. |
| KernelHeap.CoalescedKeepsBlocks | src/Kernel/Memory/KernelMemoryAllocator.cpp:126-142 | The merging pass changes neither the live blocks nor the sizes of the heap. |
| KernelHeap.CoalescedHalvesPairs | src/Kernel/Memory/KernelMemoryAllocator.cpp:126-142 | One pass leaves at most half as many adjacent free pairs, although a merged chunk is not looked at again. |
| KernelHeap.TakeKeepsPairs | src/Kernel/Memory/KernelMemoryAllocator.cpp:46-58 | An allocation never creates an adjacent free pair. |
| KernelHeap.PairsBoundRuns | src/Kernel/Memory/KernelMemoryAllocator.cpp:126-142 | With at most one adjacent free pair no three free chunks are in a row and only one place has two. |
| KernelHeap.FragmentationBounded | src/Kernel/Memory/KernelMemoryAllocator.cpp:37-142 | After every sequence of allocations that fit and frees of live blocks, at most one adjacent free pair exists, and a heap with nothing live is one or two chunks. |
| KernelHeap.TwoChunksRemain | src/Kernel/Memory/KernelMemoryAllocator.cpp:126-142 | Two chunks are reached from every fresh heap of eight words or more: two allocations, freed in the order they were made, leave them. |
| KernelHeap.HeaderReads | src/Kernel/Memory/KernelMemoryAllocator.h:16-40 | The size and taken fields read back what was written into the packed header word. |
| KernelHeap.KernelMemoryAllocator.constructor | src/Kernel/Memory/KernelMemoryAllocator.cpp:25-31 | A fresh heap is one free chunk that fills it. |
| KernelHeap.KernelMemoryAllocator.Kmalloc | src/Kernel/Memory/KernelMemoryAllocator.cpp:37-65 | Null for size zero; past the heap exactly when nothing fits; otherwise the pointer behind the header of the lowest fitting chunk, with exactly that chunk's headers rewritten. Up to 2^64 - 16 bytes chunks still tile the heap and no live payload word changes. |
| KernelHeap.KernelMemoryAllocator.Scan | src/Kernel/Memory/KernelMemoryAllocator.cpp:43-46 | The walk over the headers in memory stops at the lowest chunk that fits, or leaves the heap exactly when none does. |
| KernelHeap.KernelMemoryAllocator.ScanLimitTooFar | src/Kernel/Memory/KernelMemoryAllocator.cpp:44 | The end of the scan lies seven times the length of the heap behind the heap. |
| KernelHeap.KernelMemoryAllocator.WriteHeaders | src/Kernel/Memory/KernelMemoryAllocator.cpp:47-57 | The packed header words after the branch are those of the split, or of the whole chunk taken; no other word changes. |
| KernelHeap.FullRequestFitsNowhere | src/Kernel/Memory/KernelMemoryAllocator.cpp:44 | A request for all bytes of a fresh heap fits no chunk. |
| KernelHeap.WrappedRequestBreaksHeap | src/Kernel/Memory/KernelMemoryAllocator.cpp:42-57 | On a fresh heap of three words or more, every request above 2^64 - 16 bytes leaves headers that lay out no chunk list at all. |
| KernelHeap.KernelMemoryAllocator.TakeChunk | src/Kernel/Memory/KernelMemoryAllocator.cpp:46-58 | The allocating branch lays out the split list and touches no live payload. |
| KernelHeap.KernelMemoryAllocator.Kfree | src/Kernel/Memory/KernelMemoryAllocator.cpp:78-84 | Marks the block free and merges once; null does nothing; no remaining payload changes. |
| KernelHeap.KernelMemoryAllocator.Coalesce | src/Kernel/Memory/KernelMemoryAllocator.cpp:126-142 | The pointer-walking pass over the headers in memory is one left-to-right pairwise merge of the chunk list. |
| KernelHeap.KernelMemoryAllocator.GetStatistics | src/Kernel/Memory/KernelMemoryAllocator.cpp:92-110 | Free and used are the sizes of the free and taken chunks and add up to the total. |
| KernelHeap.KernelMemoryAllocator.IsInFreedMemory | src/Kernel/Memory/KernelMemoryAllocator.cpp:112-124 | True exactly for words inside a free chunk. |
| HeapAccounts.HeaderBits | src/Kernel/Memory/KernelMemoryAllocator.h:16-40 | A header holds the chunk's bytes in its low 63 bits and whether it is taken in bit 63. |
| HeapAccounts.LiveExactly | src/Kernel/Memory/KernelMemoryAllocator.cpp:59 | The live blocks are exactly the taken chunks without their header words. |
| HeapAccounts.PayloadExactly | src/Kernel/Memory/KernelMemoryAllocator.cpp:37-84 | The words no operation touches are exactly those of taken chunks behind their headers. |
| HeapAccounts.FreedExactly | src/Kernel/Memory/KernelMemoryAllocator.cpp:112-124 | A word is in freed memory exactly when it lies in a free chunk, header included. |
| HeapAccounts.FirstFitExactly | src/Kernel/Memory/KernelMemoryAllocator.cpp:45-62 | Every chunk before the one chosen is taken or too short; the one chosen is free and long enough. |
| HeapAccounts.GrantedExactlyWhen | src/Kernel/Memory/KernelMemoryAllocator.cpp:42-46 | A request that does not wrap is granted exactly when some free chunk has as many words as the rounded request and a header. |
| HeapAccounts.GrantExactly | src/Kernel/Memory/KernelMemoryAllocator.cpp:42-58 | The block granted is the request rounded up to 8 bytes, and one word more exactly when only a header would be left over. |
| HeapAccounts.MallocCounted | src/Kernel/Memory/KernelMemoryAllocator.cpp:92-110 | An allocation raises the used size by its block and header, and lowers the free size by as much. |
| HeapAccounts.FreeCounted | src/Kernel/Memory/KernelMemoryAllocator.cpp:92-110 | A free, merging included, lowers the used size by exactly what the block's allocation raised it by. |
| HeapAccounts.UsedNothing | src/Kernel/Memory/KernelMemoryAllocator.cpp:92-110 | The used size is zero exactly when no block is live. |
| Pages.OwnershipDetermined | src/Kernel/Memory/Page.h:10-14 | A Free, Taken, Last array encodes only one set of allocations. |
| Pages.RunMarked | src/Kernel/Memory/MemoryManager.cpp:77-83 | An allocation is pages marked Taken and one marked Last behind them; no other page is touched. |
| Pages.MarkEncodes | src/Kernel/Memory/MemoryManager.cpp:77-83 | Marking a free run records one more allocation and no other change. |
| Pages.ClearEncodes | src/Kernel/Memory/MemoryManager.cpp:102-116 | Clearing from a live start to its Last page removes exactly that allocation. |
| Pages.MarkThenClear | src/Kernel/Memory/MemoryManager.cpp:64-116 | Freeing what was just allocated restores the array. |
| Pages.MarkFreeCount | src/Kernel/Memory/MemoryManager.cpp:77-83 | An allocation of n pages uses up exactly n free pages. |
| Pages.FirstFreeRun | src/Kernel/Memory/MemoryManager.cpp:65-76 | The lowest start of enough free pages inside the array; no earlier start has them. |
| Pages.FreshPoolScansPastEnd | src/Kernel/Memory/MemoryManager.cpp:65-73 | In a fresh pool of two pages or more, no run is as long as the pool, and its last page is free: asking for that many pages leaves the array. |
| Pages.OrdinaryAnswer | src/Kernel/Memory/MemoryManager.cpp:64-86 | A request whose sums cannot wrap is answered by the lowest free run that fits; if none fits, by null, or by leaving the array exactly when the last page is free. |
| Pages.OrdinaryMarks | src/Kernel/Memory/MemoryManager.cpp:77-83 | What it marks is that run; one of no pages writes Last where Last already is. |
| Pages.OrdinaryExactly | src/Kernel/Memory/MemoryManager.cpp:69-83 | A request is ordinary exactly when no page's number plus the count reaches 2^64 and, if no pages are asked for, page 0 is in use. |
| Pages.WrappedRefusedExactly | src/Kernel/Memory/MemoryManager.cpp:69-83 | A request whose sums can wrap fits nowhere, and gets null exactly when no page is free at which they wrap, nor the last page. |
| Pages.WrappedRequestGranted | src/Kernel/Memory/MemoryManager.cpp:69-83 | With pages 0 and 1 in use and page 2 free, 2^64 - 1 pages are granted at page 2, and page 0 is marked Last. |
| Pages.FreshPoolMarkedPastEnd | src/Kernel/Memory/MemoryManager.cpp:77-83 | In a fresh pool of two pages or more the same request has the marking loop leave the array. |
| Pages.OnePageFits | src/Kernel/Memory/MemoryManager.cpp:64-86 | A single page can be had exactly when one is free. |
| MemoryManagement.AllocStartRounds | src/Kernel/Memory/MemoryManager.cpp:49-50 | The pool starts on a page boundary, less than a page behind the last descriptor. |
| MemoryManagement.PoolInsideHeap | src/Kernel/Memory/MemoryManager.cpp:46-62 | Every page lies in the heap region exactly when what is lost in front fits in the left-over part of a page. |
| MemoryManagement.WholePagesLeaveHeap | src/Kernel/Memory/MemoryManager.cpp:46-62 | For every region of whole pages the last page of the pool ends behind the region. |
| MemoryManagement.MemoryManager.constructor | src/Kernel/Memory/MemoryManager.cpp:46-62 | A fresh pool has one page in use, the manager's own. |
| MemoryManagement.MemoryManager.Alloc | src/Kernel/Memory/MemoryManager.cpp:64-86 | Every 64-bit request: an ordinary one gets the lowest free run, which is recorded, or changes nothing and gets null, or leaves the array exactly when the last page is free; one of no pages gets the lowest free page and records nothing. Any other is answered and marks the array as `Answer` and `Marked` say. |
| MemoryManagement.MemoryManager.InnerScan | src/Kernel/Memory/MemoryManager.cpp:66-75 | The inner loop, up to its 64-bit end, finds a run exactly where the scan is to stop, and leaves the array exactly when that end lies behind it and every page to the array's end is free. |
| MemoryManagement.MemoryManager.MarkPages | src/Kernel/Memory/MemoryManager.cpp:77-83 | The marking loop writes Taken up to its 64-bit last index and Last there, or leaves the array exactly when that index lies behind it. |
| MemoryManagement.MemoryManager.ZeroWords | src/Kernel/Memory/MemoryManager.cpp:94-98 | The loop clears the words it counts and no other word, or leaves the pool exactly when they reach behind it. |
| MemoryManagement.MemoryManager.Zalloc | src/Kernel/Memory/MemoryManager.cpp:88-100 | Like alloc, and for an ordinary request exactly the words of the pages handed out become zero; for a granted request whose sums wrap the clearing loop leaves the pool. |
| MemoryManagement.MemoryManager.Dealloc | src/Kernel/Memory/MemoryManager.cpp:102-116 | Any address in the first page of a live run frees exactly that run; null does nothing. |
| MemoryManagement.MemoryManager.GetStatistics | src/Kernel/Memory/MemoryManager.cpp:188-201 | Free is the number of free descriptors; used plus free is the total. |
| Pages.FreeCountIs | src/Kernel/Memory/MemoryManager.cpp:188-201 | The count is the number of pages whose descriptor is free. |
| PageTables.GetPpnExact | src/Kernel/Memory/PageTableEntry.cpp:29-31 | The frame address is read back exactly when the upper RSW bit and the low eight reserved bits are clear. |
| PageTables.TranslateReadsFlatMap | src/Kernel/Memory/PageTable.cpp:29-55 | On every tree of tables, for every address, the reader gives the flat map's frame plus the offset, or an error when the page is not mapped; page and offset are those of `Sv39.VirtualParts`. |
| Sv39.VirtualParts | src/Kernel/Memory/VirtualAddress.h:12-17 | Page number and offset make up the low 39 bits of every virtual address, aligned or not. |
| Sv39.PhysicalParts | src/Kernel/Memory/PhysicalAddress.h:12-17 | Frame number and offset make up the low 56 bits of every physical address. |
| Sv39.EntryFlags | src/Kernel/Memory/PageTableEntry.h:12-20 | Which bit of an entry's word each flag is. |
| Sv39.EntryFields | src/Kernel/Memory/PageTableEntry.h:21-25 | Where the page number and the reserved fields stand in an entry's word. |
| Sv39.EmptyIsZero | src/Kernel/Process/ProcessManager.cpp:82 | An entry is the empty one exactly when its word is zero. |
| Sv39.WordsWritten | src/Kernel/Memory/MemoryManager.cpp:158-177 | The word written for a table is its frame and the valid bit and nothing else; the word for a page its frame and eight flags. |
| Sv39.OrIsBitwise | src/Kernel/Memory/PageTable.cpp:54 | The address and the offset are joined bit by bit: bit 11 is set when either has it. |
| Sv39.HardwareReadsFlatMap | src/Kernel/Memory/MemoryManager.cpp:153-178 | The hardware's walk over the words in memory, which knows no tree, finds for every address the flat map's frame, offset and permissions, or faults. |
| Sv39.GigapageExactly | src/Kernel/Memory/PageTable.cpp:35-37 | For a leaf in the root table `translate` and the hardware agree exactly on the first 4 KiB of its 1 GiB. |
| Sv39.MegapageExactly | src/Kernel/Memory/PageTable.cpp:45-47 | For a leaf in a middle table they agree exactly on the first 4 KiB of its 2 MiB. |
| PageTables.GrowRepresents | src/Kernel/Memory/MemoryManager.cpp:158-165 | Linking a zeroed page into an empty entry leaves a tree for the same flat map. |
| PageTables.SetLeafRepresents | src/Kernel/Memory/MemoryManager.cpp:171-177 | Writing a lowest entry updates the flat map at that page and nowhere else. |
| PageTables.HistoryOfPage | src/Kernel/Memory/MemoryManager.cpp:171-177 | After any mappings a page has the frame of the last one that named it and the union of all permission bits it was given; `Sv39.FlagsOfPage` says so bit by bit. |
| Sv39.FlagsOfPage | src/Kernel/Memory/PageTableEntry.cpp:16-18 | Flag by flag: a mapped page is valid, accessed and dirty, and readable, writable, executable, for users or global exactly when it was before or one of the mappings that named it said so. |
| PageTables.RangeMapsExactly | src/Kernel/Memory/MemoryManager.cpp:205-215 | A range maps each of its pages to the matching frame and touches no other page. |
| MappedRanges.RangeRead | src/Kernel/Memory/MemoryManager.cpp:205-215 | An address d bytes into a mapped range, its start rounded down, is translated to the byte d bytes behind the physical start rounded down, with the permissions added. |
| MappedRanges.RangeKeeps | src/Kernel/Memory/MemoryManager.cpp:205-215 | Every other address is translated as before, by the kernel and by the hardware. |
| MemoryManagement.MemoryManager.LinkTable | src/Kernel/Memory/MemoryManager.cpp:158-165 | The missing-entry branch takes the lowest free page, zeroes it and links it; it fails exactly when no page is free. |
| MemoryManagement.MemoryManager.Descend | src/Kernel/Memory/MemoryManager.cpp:157-169 | One turn of the loop reaches the entry one level down, having built what was missing. |
| MemoryManagement.MemoryManager.WriteLeaf | src/Kernel/Memory/MemoryManager.cpp:171-177 | The final write is one mapping of the flat map: the new frame, and the old flags with valid, accessed, dirty and the given bits added. |
| MemoryManagement.MemoryManager.Map | src/Kernel/Memory/MemoryManager.cpp:153-178 | For any two addresses, succeeds exactly when there is a free page for every missing table; then the tables represent the flat map updated at the page the first lies in, built on freshly allocated pages only. |
| MemoryManagement.MemoryManager.MapPages | src/Kernel/Memory/MemoryManager.cpp:210-214 | The loop maps page after page, however often the addresses wrap; it succeeds exactly when the tables missing on the whole range can be had. |
| MemoryManagement.PageCountExact | src/Kernel/Memory/MemoryManager.cpp:208 | The count takes the range from its rounded start to its rounded end, or 2^64 bytes further exactly when the end is below the start. |
| MemoryManagement.LastPageRunsOn | src/Kernel/Memory/MemoryManager.cpp:208 | A range that ends in the last page of the address space is counted to its very end. |
| MemoryManagement.RangeAddresses | src/Kernel/Memory/MemoryManager.cpp:210-214 | The page and frame named by an address that wraps on the way are those of the range. |
| MemoryManagement.MemoryManager.MapRange | src/Kernel/Memory/MemoryManager.cpp:205-215 | For any three addresses, maps as many pages as the 64-bit count says, from the start rounded down, to consecutive frames. |
| MemoryManagement.MemoryManager.IdentityMapRange | src/Kernel/Memory/MemoryManager.cpp:143-151 | The same, each page to its own frame. |
| MemoryManagement.ZeroedRootIsEmpty | src/Kernel/Process/ProcessManager.cpp:82 | A zeroed page is the root of an empty address space. |
| MemoryManagement.TranslateAfterMappings | src/Kernel/Memory/PageTable.cpp:29-55 | Whatever sequence of mappings built the space, translate finds exactly the mapped pages, at the frame last given, plus the offset. |
| Sv39.MappedRead | src/Kernel/Memory/MemoryManager.cpp:153-178 | From addresses to addresses, for any calls of `map`: an address in a page that was mapped, both aligned or not, goes to the physical page of the last call for it plus the offset; the hardware does the same for canonical addresses in pages that are readable, or executable and not writable, with what any of the calls granted. |
| Sv39.UnmappedRead | src/Kernel/Memory/PageTable.cpp:29-55 | An address in a page that no call named is an error to `translate` and a fault to the hardware. |
| MemoryManagement.OtherSpaceUntouched | src/Kernel/Memory/MemoryManager.cpp:153-178 | Building one address space changes no translation of any other. |
| Traps.Hart.EnterKernel | src/Kernel/Arch/riscv64/trap.S:48-126 | From user mode of any thread, entry leaves every register of it in its frame, its own SATP in the dual slot, the kernel SATP loaded and sp, tp and a0 set up. |
| Traps.Hart.SaveRegisters | src/Kernel/Arch/riscv64/trap.S:51-70 | The frame at the alias holds all integer and floating-point registers, t6 through sscratch. |
| Traps.Hart.SaveCsrs | src/Kernel/Arch/riscv64/trap.S:73-80 | sepc, sstatus, scause and stval are stored, and the alias stays in t6. |
| Traps.Hart.SwitchIn | src/Kernel/Arch/riscv64/trap.S:89-125 | The SATPs change places and every later access goes through the real address, which the new page table knows. |
| Traps.InitialFramesReady | src/Kernel/Process/ProcessManager.cpp:128-142 | The frames threads are created with satisfy what the kernel keeps between traps: address, own SATP, zero register, SPP clear. |
| Traps.FreshThread | src/Kernel/Process/ProcessManager.cpp:128-142 | A new thread starts at the given address with sp 0xf0000000 and every other register zero, in user mode, interrupts, floating point and user memory enabled; the rest of its frame is zero but for its own SATP and address. |
| Traps.FrameIsFoundAt | src/Kernel/Process/ProcessManager.h:19 | A thread's page table knows its frame at 0x1000 and nowhere else, the kernel's at its own address and nowhere else, any other not at all. |
| Traps.Hart.ReturnToUser | src/Kernel/Arch/riscv64/trap.S:128-190 | From kernel mode, the thread whose frame is returned resumes with exactly the registers in it, under its own SATP and, SPP being clear in its frame, in user mode. |
| Traps.Hart.SwitchOut | src/Kernel/Arch/riscv64/trap.S:134-165 | The CSRs are loaded and the SATPs change back; the base pointer becomes the alias. |
| Traps.Hart.RestoreRegisters | src/Kernel/Arch/riscv64/trap.S:170-190 | All registers are reloaded, t0 and t6 last through sscratch. |
| Traps.Hart.FrameAt | src/Kernel/Arch/riscv64/trap.S:54-70 | A base register denotes a frame only through the page table that is loaded. |
| RunQueue.LinkedQueue.Append | src/Utils/Arrays/Queue.h:73-81 | The linked nodes hold the old elements and the new one at the end. |
| RunQueue.LinkedQueue.Pop | src/Utils/Arrays/Queue.h:93-103 | Removes and returns the first element. |
| RunQueue.LinkedQueue.PeekFirst | src/Utils/Arrays/Queue.h:105-108 | Returns the first element. |
| RunQueue.LinkedQueue.IsEmpty | src/Utils/Arrays/Queue.h:127-129 | True exactly for the empty queue. |
| RunQueue.LinkedQueue.RotateLeft | src/Utils/Arrays/Queue.h:115-125 | Relinking in place moves the first element to the end, for every length. |
| RunQueue.Turns | src/Kernel/Process/Scheduler.cpp:38-45 | How far the scheduler rotates: at least once, to the first runnable thread and past none. |
| RunQueue.ScheduledInOrder | src/Kernel/Process/Scheduler.cpp:38-45 | The thread that ran and those that cannot run behind it go to the end, in order, up to the first that can. |
| RunQueue.NeverExitsExactly | src/Kernel/Process/Scheduler.cpp:38-45 | No number of turns of the loop brings a runnable thread to the head exactly when no queued thread is runnable. |
| RunQueue.ScheduledIsRotation | src/Kernel/Process/Scheduler.cpp:38-45 | One call keeps the queue a rotation of the order the threads were created in. |
| RunQueue.ScheduleApproaches | src/Kernel/Process/Scheduler.cpp:26-52 | One call returns a given runnable thread or brings it strictly closer to the head. |
| RunQueue.BoundedWaiting | src/Kernel/Process/Scheduler.cpp:26-52 | A thread that stays runnable is returned within n calls, n the queue's length, whatever the others do. |
| ThreadMachine.StepSound | src/Kernel/Arch/riscv64/Interrupts/Interrupts.cpp:84-128 | No lost wake-up: after every step the head of the queue can run, and if any thread is blocked no line is queued. |
| ThreadMachine.HangsExactlyWhen | src/Kernel/Process/Scheduler.cpp:38-45 | The scheduler never returns exactly when the last runnable thread's console read finds no line. |
| ThreadMachine.LoneReaderHangs | src/Kernel/Process/Scheduler.cpp:38-45 | The only thread of a fresh machine, reading the console, is a state without a step. |
| ThreadMachine.StepKeepsContexts | src/Kernel/Syscalls/SyscallManager.cpp:74-114 | A step changes no thread's registers but the caller's, and those only when its call completes: a0 and the program counter. A blocked call keeps its number and arguments for the retry. |
| ThreadMachine.CallAnswers | src/Kernel/Syscalls/SyscallManager.cpp:74-114 | By register number: a console read of a2 bytes puts the lesser of a2 and the line's length plus one into a0 and takes the line; a bad buffer or another error gives 2^64 - 1, a number of 10 or more nothing; the caller resumes four bytes on and nothing else changes. A read without a line blocks the caller and changes no register. |
| ThreadMachine.LinesConserved | src/Kernel/Drivers/Console/NS16550ADriver.cpp:96-120 | Over every run the lines typed are the lines delivered followed by those queued, in order; none is lost or repeated. |
| ThreadMachine.LinesJoin | src/Kernel/Drivers/Console/NS16550ADriver.cpp:108-119 | The typed text is its lines, each with its carriage return, and what is left in the buffer; it is cut nowhere else. |
| ThreadMachine.RegistersSurvive | src/Kernel/Arch/riscv64/trap.S:48-190 | Over every run a thread that does not run keeps exactly the registers it was interrupted with. |
| ThreadMachine.QueueStaysRotation | src/Kernel/Process/Scheduler.cpp:38-45 | Over every run the queue stays a rotation of the order the threads were created in. |
| ThreadMachine.ActionApproaches | src/Kernel/Process/Scheduler.cpp:26-52 | For a thread that can run and is not running, every switch brings it strictly closer to its turn, and no other action moves it or blocks it. |
| ThreadMachine.TurnComes | src/Kernel/Process/Scheduler.cpp:26-52 | Over every run, while a thread that can run has not had its turn, the kernel is not lost, the thread stays able to run, and the scheduler is called at most once per queued thread. |
| Threads.FindThreadExact | src/Kernel/Process/ProcessManager.cpp:147-158 | A thread is found exactly when the first process with the pid has the tid, and then it is that one; a later process with the same pid never is. |
| Threads.RequestContext.Assign | src/Kernel/Process/Request.h:27-32 | Process and thread are recorded once; a second assignment changes nothing. |
| Threads.WakeAllWakes | src/Kernel/Devices/Console/ConsoleDevice.cpp:24-28 | Working off a waiter list with one entry per blocked thread leaves no thread blocked. |
| Threads.BlockThenSwitch | src/Kernel/Syscalls/SyscallFile.cpp:76-80 | Entering the caller in the waiter list, blocking it and switching keeps one entry per blocked thread. |
| Threads.Kernel.constructor | src/Kernel/Process/ProcessManager.cpp:100-124 | One thread for each frame, pids from 1, all running, queued in creation order. |
| Threads.Kernel.Block | src/Kernel/Process/ProcessManager.cpp:172-181 | Only the named thread's state changes, to Blocked; an unknown pid changes nothing. |
| Threads.Kernel.Unblock | src/Kernel/Process/ProcessManager.cpp:160-170 | Only the named thread's state changes, to Running. |
| Threads.Kernel.Schedule | src/Kernel/Process/Scheduler.cpp:26-52 | `None` exactly when the loop has no exit, after however many turns; otherwise the queue is rotated to the next running thread, whose frame is prepared and which becomes current. |
| Threads.Kernel.PrepareForSwitch | src/Kernel/Process/Scheduler.cpp:59-81 | Only the kernel stack and frame pointer of the target's frame and the current ids are written. |
| Threads.Kernel.TakeCharacter | src/Kernel/Drivers/Console/NS16550ADriver.cpp:96-120 | A character extends the buffer; a carriage return moves the buffer to the line queue. |
| Threads.Kernel.WakeWaiters | src/Kernel/Devices/Console/ConsoleDevice.cpp:24-32 | With a line queued every waiter is woken and the list is emptied; otherwise nothing changes. |
| Threads.Kernel.HandleConsoleInterrupt | src/Kernel/Devices/Console/ConsoleDevice.cpp:17-35 | Driver and device together are one typed character of the machine. |
| Threads.Kernel.ReadAsync | src/Kernel/Devices/Console/ConsoleDevice.cpp:63-72 | The first line, or a fresh context at the end of the waiter list. |
| Threads.Kernel.ReadDevice | src/Kernel/FileSystem/RAMFS/RamInode.cpp:69-84 | As many bytes as are returned are copied: the first line with its terminator, or the part of it that fills the size; or the blocked request with its context passed on. |
| Threads.Kernel.HandleRead | src/Kernel/Syscalls/SyscallFile.cpp:55-83 | For a queued line the count is the number of bytes copied, the line with its terminator or the part of it that fills the size; an error for a bad buffer; or the caller registered and blocked, exactly when no line is there. |
| Threads.Kernel.HandleSyscall | src/Kernel/Syscalls/SyscallManager.cpp:74-114 | The result goes to a0 of the caller's frame, minus one for an error, nothing for an unknown call; a blocked call leaves the frame untouched. |
| Threads.Kernel.SwitchFromBlocked | src/Kernel/Arch/riscv64/Interrupts/Interrupts.cpp:61-65 | The next thread runs, or the scheduler is lost exactly when none can. |
| Threads.Kernel.Resume | src/Kernel/Arch/riscv64/Interrupts/Interrupts.cpp:66-67 | A completed call resumes four bytes on. |
| Threads.Kernel.HandleSystemCall | src/Kernel/Arch/riscv64/Interrupts/Interrupts.cpp:48-68 | The whole system-call path is one system-call step of the machine. |
| Threads.Kernel.HandleTimerInterrupt | src/Kernel/Arch/riscv64/Interrupts/Interrupts.cpp:29-35 | A timer interrupt is one switch of the machine. |
| Threads.Kernel.HandleInterrupt | src/Kernel/Arch/riscv64/Interrupts/Interrupts.cpp:84-128 | Every trap from user mode is dispatched to the step it stands for, and returns the frame of the thread at the head of the queue. |
| Threads.Kernel.Enter | src/Kernel/Arch/riscv64/trap.S:48-126 | Hardware and trap vector take any user state of the kernel to the kernel state of the same machine, with tp at the kernel frame. |
| Threads.Kernel.Leave | src/Kernel/Arch/riscv64/trap.S:128-190 | Back to user mode of the thread at the head, for the same machine. |
| Threads.Kernel.StartScheduling | src/Kernel/Process/Scheduler.cpp:54-57 | From the kernel as constructed, the first switch reaches user mode of the booted machine. |
| Threads.Kernel.Trap | src/Kernel/Arch/riscv64/Interrupts/Interrupts.cpp:84-128 | One trap, from user mode to user mode, is one step of the machine: it is lost exactly when the machine has no step, and every other time all threads' registers, states, lines and waiters are what the step says. After a system call that does not wait the hart holds the caller's registers, four bytes on, with a0 as `ThreadMachine.CallAnswers` has it. |
| Threads.Kernel.Perform | src/Kernel/Arch/riscv64/Interrupts/Interrupts.cpp:84-128 | Any number of traps, with whatever the running threads compute in between, is a run of the machine: the kernel ends in user mode where that run ends, or is lost exactly when it has no end. |
| Threads.Kernel.Serve | src/Kernel/Arch/riscv64/Interrupts/Interrupts.cpp:84-128 | Over every run of the kernel: its queue stays a rotation; its queued lines and the delivered ones are the lines typed, in order; a thread that does not run keeps its registers, and one that could run still can, with the kernel not lost and the scheduler called at most once per queued thread. |
| Fat.Mounted | src/Kernel/FileSystem/FATFS/FATFileSystem.h:34-47 | Block size and FAT start are the boot sector's products; as many whole blocks lie in front of the data as fit into the 32-bit FAT size. |
| Fat.ClusterAddress | src/Kernel/FileSystem/FATFS/FATFileSystem.cpp:186-189 | The address computed for a data cluster is the specification's exactly when the FATs fill whole clusters and fit in 32 bits. |
| Fat.ClusterBytes | src/Kernel/FileSystem/FATFS/FATFileSystem.cpp:142-161 | The bytes read for a data cluster start where the specification puts it exactly when, besides, the reserved region is whole 512-byte sectors. |
| Fat.ClusterMissed | src/Kernel/FileSystem/FATFS/FATFileSystem.cpp:186-189 | Two FATs of 513 sectors and clusters of eight: the first data cluster is looked for two sectors before the place the specification gives. |
| Fat.FatEntryAddress | src/Kernel/FileSystem/FATFS/FATFileSystem.cpp:175-184 | A FAT entry is the low 28 bits of the four bytes at the specification's place, weighted 1, 2^8, 2^16 and 2^24 from the first on. |
| Fat.DeviceReads | src/Kernel/Drivers/Storage/VirtIO/BlockIODriver.cpp:18-30 | A read succeeds exactly for whole sectors inside the disk and gives the bytes from the start of the offset's sector. |
| Fat.FatFileSystem.GetBlockFromCache | src/Kernel/FileSystem/BlockBackedFileSystem.h:78-88 | A hit is a cached block of that number; a miss means there is none. |
| Fat.FatFileSystem.Cache | src/Kernel/FileSystem/BlockBackedFileSystem.h:54-60 | The block is put in front and the cache still agrees with the device. |
| Fat.FatFileSystem.ReadBlockPoll | src/Kernel/FileSystem/FATFS/FATFileSystem.cpp:142-161 | A read through the cache, hit or miss, is a read of the device, whatever duplicates the list holds. |
| Fat.FatFileSystem.GetFatEntry | src/Kernel/FileSystem/FATFS/FATFileSystem.cpp:175-184 | The entry on the device, or an error exactly when its block cannot be read. |
| Fat.FatFileSystem.ReadClusterPoll | src/Kernel/FileSystem/FATFS/FATFileSystem.cpp:186-189 | The cluster on the device. |
| Fat.CapExact | src/Kernel/FileSystem/FATFS/FATInode.cpp:162-165 | The cap is the rest of the file exactly when offset plus size does not wrap. |
| Fat.WrappedRequestUncut | src/Kernel/FileSystem/FATFS/FATInode.cpp:162-165 | Whenever the sum wraps, the request is longer than what is left of the file and is not cut. |
| Fat.FatInode.SkipClusters | src/Kernel/FileSystem/FATFS/FATInode.cpp:173-182 | The link of the chain that many hops on: a cluster, the end, or an unreadable entry. |
| Fat.FatInode.CopyCluster | src/Kernel/FileSystem/FATFS/FATInode.cpp:184-192 | One turn adds the chain's next bytes and moves on at a cluster boundary. |
| Fat.FatInode.Turn | src/Kernel/FileSystem/FATFS/FATInode.cpp:184-203 | One turn of the loop adds a cluster's bytes and follows the chain, or says that the chain ended or could not be read. |
| Fat.FatInode.ReadChain | src/Kernel/FileSystem/FATFS/FATInode.cpp:184-203 | The buffer holds the chain's bytes from the offset, short only where the chain ends, and nothing beyond is written. |
| Fat.FatInode.Read | src/Kernel/FileSystem/FATFS/FATInode.cpp:156-204 | Nothing at or past the file size; an error exactly when the offset's cluster cannot be reached or a due byte cannot be read, told apart; otherwise the chain's bytes. |
| Fat.ReadIsUnique | src/Kernel/FileSystem/FATFS/FATInode.cpp:156-204 | A read has one outcome: the specification never allows success and failure, or two results. |
| Fat.ContentsAt | src/Kernel/FileSystem/FATFS/FATInode.cpp:173-174 | A position of the concatenated clusters is in the cluster and at the place the loop computes. |
| Fat.ReadIsSlice | src/Kernel/FileSystem/FATFS/FATInode.cpp:156-204 | For a readable chain of any length: an error exactly when the chain ends at or before the offset, otherwise the contents from offset to the least of offset plus size, file size and chain length. |
| Fat.File.Read | src/Kernel/FileSystem/File.cpp:15-24 | The offset moves by the bytes read, and not at all on an error. |
| Fat.ReadPieces | src/Kernel/FileSystem/File.cpp:15-24 | Successive reads of an open file with a readable chain, each moving the offset, give exactly the chunked read of its contents, bytes or error. |
| Fat.ReadPiece | src/Kernel/FileSystem/File.cpp:15-24 | One read of such a file is the slice of its contents at the offset, or an error exactly when there is none, and moves the offset by its length. |
| Fat.ChunksConcatenate | src/Kernel/FileSystem/File.cpp:15-24 | Any chunking of reads gives the bytes of one large read when both succeed, and no chunk fails when the chain covers the file. |
| Fat.ChunksFailExactly | src/Kernel/FileSystem/File.cpp:15-24 | A chunked read fails exactly when the chain is shorter than the file and the chunks before the last reach its end. |
| Fat.ChunksAgreeExactly | src/Kernel/FileSystem/File.cpp:15-24 | Chunks and one large read agree, bytes or error, exactly unless the read starts inside a short chain and a chunk starts at its end. |
| Fat.ShortChainFails | src/Kernel/FileSystem/File.cpp:15-24 | For every chain shorter than its file: the whole chain and then one byte fails, both at once does not. |
| Fat.ShortChainVolume | src/Kernel/FileSystem/FATFS/FATInode.cpp:184-203 | Chains that end early exist: a one-cluster chain on a disk of three sectors. |
| FatVolume.EntryRead | src/Kernel/FileSystem/FATFS/FATFileSystem.cpp:175-184 | An entry written into four bytes of the FAT, the lowest first, is read as that entry. |
| FatVolume.LaidIsChain | src/Kernel/FileSystem/FATFS/FATInode.cpp:173-200 | On a disk whose FAT links the clusters of a file byte by byte and marks the last one with 0x0FFFFFF8 or more, those clusters are the chain the reader follows. |
| FatVolume.VolumeRead | src/Kernel/FileSystem/FATFS/FATInode.cpp:156-204 | Reading a file from such a disk gives the bytes at the disk addresses the specification has for its clusters, from the offset on, as many as the size, the recorded file size and the chain allow; it fails exactly when the chain ends at or before the offset. |
| FatVolume.SmallestVolume | src/Kernel/FileSystem/FATFS/FATFileSystem.h:34-47 | Such disks exist: three sectors of 0xFF, with the file's bytes from 1024 on. |
| Fdt.AlignToRoundsUp | src/Kernel/Firmware/FDT/FDTParser.cpp:138-140 | Aligning rounds up exactly for addresses below 4 GiB less three bytes. |
| Fdt.CStringExact | src/Kernel/Firmware/FDT/FDTParser.cpp:74 | The NUL-free bytes in front of a NUL inside the blob; nothing exactly when no NUL follows. |
| Fdt.Loop | src/Kernel/Firmware/FDT/FDTParser.cpp:60-125 | The parser's loop ends on every input, a child is entered beyond its parent's start even after a rejected one, and the cursor never moves back. |
| Fdt.ParseNode | src/Kernel/Firmware/FDT/FDTParser.cpp:46-126 | The state machine, with its recursion and its cursor, computes that function, wherever the blob lies. |
| Fdt.AlignedForward | src/Kernel/Firmware/FDT/FDTParser.cpp:138-140 | Aligning never moves the cursor back, and where it loses address bits it moves it beyond any limit. |
| Fdt.HighBlobLosesTree | src/Kernel/Firmware/FDT/FDTParser.cpp:73-79 | A tree above 4 GiB comes back as its root's name, without properties or children. |
| Fdt.NameParses | src/Kernel/Firmware/FDT/FDTParser.cpp:73-79 | A printed name of any length is read, its NUL either passed over by the alignment or skipped as a zero word. |
| Fdt.PropertiesParse | src/Kernel/Firmware/FDT/FDTParser.cpp:103-113 | Printed properties are read back in order, names through the strings block. |
| Fdt.ChildrenParse | src/Kernel/Firmware/FDT/FDTParser.cpp:86-90 | Printed children are read back in order, although each returns on its END_NODE token. |
| Fdt.PrintedParses | src/Kernel/Firmware/FDT/FDTParser.cpp:46-126 | Printing any tree and parsing it gives the same tree: names, values, child order; the limit lies beyond its last name or property, which ends below 4 GiB. |
| FdtNops.NopsIgnored | src/Kernel/Firmware/FDT/FDTParser.cpp:81-83 | A tree written with literal token words and any number of FDT_NOP words in front of each property, each child and each end parses to the same tree. |
| FdtNops.RootNopsExactly | src/Kernel/Firmware/FDT/FDTParser.cpp:66-72 | FDT_NOP words in front of the root, which the Devicetree Specification v0.4 allows: the tree comes back exactly when there are none, and otherwise the root is rejected. |
| FdtNops.EndTokenEnds | src/Kernel/Firmware/FDT/FDTParser.cpp:93-94 | With FDT_END where its FDT_END_NODE should be the tree is still complete, and what follows is not looked at. |
| FdtNops.UnknownWordRejects | src/Kernel/Firmware/FDT/FDTParser.cpp:95-100 | With any other word there the node is rejected, whatever it held so far. |
| FdtNops.RejectionSpreads | src/Kernel/Firmware/FDT/FDTParser.cpp:86-90 | A rejected child takes its parent with it, since its name is read as a token; one without a name does not. |
| Fdt.TreeParses | src/Kernel/Firmware/FDT/FDTParser.cpp:60-125 | A parser that runs out behind the last name or property, by its limit or at 4 GiB, still returns the whole tree. |
| Fdt.TreeCut | src/Kernel/Firmware/FDT/FDTParser.cpp:60-125 | One that runs out before it returns a different tree, unless the tree is the empty root. |
| Fdt.NodeCut | src/Kernel/Firmware/FDT/FDTParser.cpp:60 | One that does not get through a node is left at its limit or behind it, never on the closing token. |
| Fdt.TreeComesBackExactly | src/Kernel/Firmware/FDT/FDTParser.cpp:34-44 | For every limit and every word-aligned blob, the root returned is the tree printed exactly when it is the empty root, or the limit lies beyond its last name or property and every other one ends below 4 GiB. |
| Fdt.LowTreeComesBackExactly | src/Kernel/Firmware/FDT/FDTParser.cpp:34-44 | Below 4 GiB it is the tree printed exactly when it is the empty root or the limit lies beyond the last name or property. |
| Fdt.RoundTripExactly | src/Kernel/Firmware/FDT/FDTParser.cpp:86-90 | What a parent needs: the tree comes back with the cursor on its END_NODE token exactly when the limit lies beyond the last word read for its last name or property, which ends below 4 GiB. |
| Fdt.SourceLimit | src/Kernel/Firmware/FDT/FDTParser.cpp:60 | With the source's limit the tree comes back exactly when less lies in front of the structure block than in it from the last name or property on; with the cursor on END_NODE, when that also covers what follows the last name. |
| Fdt.SourceLimitFails | src/Kernel/Firmware/FDT/FDTParser.cpp:60 | A root with one empty property is lost behind every header of forty bytes or more: an empty root comes back. |
| VirtQueue.DisjointExactly | src/Kernel/Devices/Device.cpp:130-134 | Two operations share a descriptor exactly when three times their distance is within two of a multiple of 128. |
| VirtQueue.FortyTwoInFlight | src/Kernel/Devices/Device.cpp:130-134 | Any 42 consecutive operations use different descriptors; 43 do not. |
| VirtQueue.DeviceSees | src/Kernel/Devices/Device.cpp:99-110 | From ring slot n mod 128 the device finds head 3n mod 128 and follows exactly three consecutive slots with the operation's header, data and status: their addresses, lengths and which of them it may write. |
| VirtQueue.PublishOne | src/Kernel/Devices/Device.cpp:136-144 | Publishing an operation keeps the 41 before it readable. |
| VirtQueue.DeviceUnderstands | src/Kernel/Drivers/Storage/VirtIO/BlockIODriver.cpp:23-65 | From the ring slot, chain and header the device makes out a read (type 0, data it may write) or a write (type 1, data it may not), the first byte on the disk, the length, the buffer and the status byte of the operation. |
| VirtQueue.InFlightUnderstood | src/Kernel/Devices/Device.cpp:99-144 | Of all operations ever started it makes out each of the last 42 whose header was not written over. |
| VirtQueue.VirtIODevice.GetNextQueueIndex | src/Kernel/Devices/Device.cpp:130-134 | Hands out the slots in turn modulo 128. |
| VirtQueue.VirtIODevice.AddToQueue | src/Kernel/Devices/Device.cpp:99-110 | Writes one descriptor, linked to the slot after it when it says so. |
| VirtQueue.VirtIODevice.AddToAvailable | src/Kernel/Devices/Device.cpp:136-144 | Writes one ring slot and advances the 16-bit index. |
| VirtQueue.VirtIODevice.AddChain | src/Kernel/Drivers/Storage/VirtIO/BlockIODriver.cpp:37-65 | Header, data and status go to the three slots of the operation. |
| VirtQueue.SectorExact | src/Kernel/Drivers/Storage/VirtIO/BlockIODriver.cpp:27 | The sector a request names holds its offset, and starts there exactly when the offset is a multiple of 512. |
| VirtQueue.VirtIODevice.BlockOperation | src/Kernel/Drivers/Storage/VirtIO/BlockIODriver.cpp:18-77 | An operation of whole sectors is published after all earlier ones, with type 1 in its header for a write and 0 for a read, so that the device makes out that operation at its ring slot; any other changes nothing. |
| BuildScript.GetTargetIsFirst | scripts/build.py:85-89 | The target of the name with none of that name before it; none exactly when there is none. |
| BuildScript.DedupKeeps | scripts/build.py:103 | Removing duplicates keeps the elements and leaves each once. |
| BuildScript.DedupKeepsOrder | scripts/build.py:103 | Keeping first occurrences keeps dependencies before dependents. |
| BuildScript.GraphIsClosure | scripts/build.py:96-103 | The list of a target holds exactly what it reaches, each once, all dependencies before it. |
| BuildScript.WantedIsClosure | scripts/build.py:111-117 | The lists of the named targets together hold exactly what is needed. |
| BuildScript.OrderIsClosure | scripts/build.py:124 | A run's order holds each needed target once, after everything it depends on. |
| BuildScript.BuildDependencyGraph | scripts/build.py:96-103 | The recursive method computes that list. |
| BuildScript.Run | scripts/build.py:110-132 | Nothing is started when a name is unknown; otherwise the order is followed up to the first failure, and whatever is started has had everything it transitively depends on succeed before. |
| BuildScript.RunAll | scripts/build.py:122-132 | The second loop starts a prefix of the order that ends with the first failing target. |
| Paths.Split | src/Utils/Strings/String.cpp:94-128 | The components, less the last one when a single separator ends the text. |
| Paths.SplitIsCompleteUnless | src/Utils/Strings/String.cpp:100-104 | No component is lost exactly when the text does not end in a component and one separator. |
| Paths.ComponentsOfJoin | src/Utils/Strings/String.cpp:94-128 | The components of a join are the joined components. |
| Paths.SplitOfJoin | src/Utils/Strings/String.cpp:94-128 | Splitting a join of non-empty, separator-free components gives them back, with or without a leading separator. |
| Paths.PartsAre | src/Utils/Strings/String.cpp:113-125 | Whatever the text, every part is non-empty and free of separators. |
| Paths.ComponentsAppend | src/Utils/Strings/String.cpp:98-119 | For all texts, a separator between them cuts: the components are those of one and then those of the other. |
| Paths.JoinAppend | src/Kernel/FileSystem/VirtualFileSystem.cpp:43-49 | A join has one separator between neighbours and none anywhere else. |
| Paths.Compare | src/Kernel/FileSystem/VirtualFileSystem.cpp:131-140 | One mount replaces the best so far exactly when it has more leading components in common. |
| Paths.VisitMounts | src/Kernel/FileSystem/VirtualFileSystem.cpp:128-141 | The first mount with the most leading components in common over all mounts; the root when none has any. |
| Paths.LongestCommonPrefix | src/Kernel/FileSystem/VirtualFileSystem.cpp:122-149 | That choice and its number of common components; an error without a root or when the choice is a null pointer. |
| Paths.RelativePath | src/Kernel/FileSystem/VirtualFileSystem.cpp:43-49 | A slash and the join of the components left over. |
| Paths.PathIsPrefixAndRelative | src/Kernel/FileSystem/VirtualFileSystem.cpp:30-49 | The path is the common prefix followed by the split of the relative path. |
| Paths.BestIsUnique | src/Kernel/FileSystem/VirtualFileSystem.cpp:122-149 | The mounts and the path determine the choice and its length. |
| Paths.UnderMount | src/Kernel/FileSystem/VirtualFileSystem.cpp:132-140 | A path lies under a mount exactly when all of the mount's components are common. |
| Paths.RootChosenExactly | src/Kernel/FileSystem/VirtualFileSystem.cpp:128-141 | Nothing is consumed, and the root chosen, exactly when no mount shares a component with the path. |
| Paths.MountChosenExactly | src/Kernel/FileSystem/VirtualFileSystem.cpp:128-141 | A mount that contains the path is chosen exactly when every mount before it shares fewer components than it has and none after it shares more. |
| Paths.PartialMountChosen | src/Kernel/FileSystem/VirtualFileSystem.cpp:132-140 | Of `/x/y` and `/x`, in this order, the first is chosen for every `/x/z` with another z, although only the second contains it. |
| Numbers.Itoa | src/Utils/Basic.cpp:10-28 | The buffer holds the digits, most significant first, and a NUL; nothing beyond is written. |
| Numbers.ReverseInPlace | src/Utils/Basic.cpp:23-27 | The digits are reversed in place. |
| Numbers.ReadDigits | src/Utils/Basic.cpp:40-50 | The value, in 64 bits, of the digits up to the first other character. |
| Numbers.Atoi | src/Utils/Basic.cpp:30-52 | The value of the digits after an optional sign. |
| Numbers.FromIntFits | src/Utils/Strings/String.cpp:146-151 | For every int, the 20 bytes suffice exactly when it is not negative. |
| Numbers.PrintThenParse | src/Utils/Basic.cpp:10-52 | Reading back what was printed gives the number, for every 64-bit number and base 2 to 16. |
| Numbers.DigitCount | src/Utils/Basic.cpp:17-20 | The number of digits is at most k exactly when the number is below the k-th power of the base. |
| Numbers.BuffersSuffice | src/Utils/Strings/String.cpp:146-157 | 22 bytes hold every 64-bit number in base 10; 20 bytes hold exactly those below 10^19. |
| NumberForms.PrintedEnds | src/Utils/Basic.cpp:17-20 | Printing is positional: the last character is the last digit, of 0 to 9 and a to f, and what stands before it is the rest of the number printed. |
| NumberForms.DigitExactly | src/Utils/Basic.cpp:41-47 | A character is read as a digit exactly when it is one of the sixteen, in either case. |
| NumberForms.ParsedExactly | src/Utils/Basic.cpp:30-52 | Any text reads as the place value, modulo 2^64, of the digits up to the first other character, and as its negative behind a minus sign; a digit need not be below the base. |

## Left out

- KernelHeap.KernelMemoryAllocator.Kmalloc: above 2^64 - 16 bytes only the words it writes are stated, since the chunk list does not survive.
- KernelHeap.KernelMemoryAllocator.Kfree: a pointer that is not a live block is excluded; the source would clear a bit of some other word.
- MemoryManagement.MemoryManager.Alloc: after a request whose sums wrap, or whose marking loop has no end, the array is stated but no set of allocations, since it need not encode one; memory behind the array and the pool is not modelled.
- MemoryManagement.MemoryManager.Dealloc: only addresses inside a live run's first page are accepted, as the source assumes.
- MemoryManagement.MemoryManager.Map: only level 0, as every caller uses it; when pages run out the model stops with `ok` false, where the source goes on with a null table.
- Threads.Kernel.Trap: one thread per process, traps taken in user mode only, one hart; the process-list lock is always free then.
- Threads.Kernel.HandleRead: what the call writes into the user's memory is the result `copied`; user memory and other files' results come from outside (`CallEnv`).
- Sv39.MappedRead: the hardware's permission bits are stated, not which access they allow in which privilege mode.
- MappedRanges.RangeRead: for ranges of at most 2^39 bytes; a longer one names pages more than once, and `Sv39.MappedRead` says what those get.
- FatVolume.VolumeRead: for volumes on which cluster addresses are the specification's; `Fat.ClusterBytes` says which those are.
- Traps.Hart.EnterKernel: the floating-point control register is not saved by the source and not part of the model; what compiled handlers leave in caller-saved registers is not either, and nothing on the way out reads it.
- Threads.Kernel.Schedule: the endless search when no thread is running is the outcome `None`, and `hung` for a trap.
- VirtQueue.VirtIODevice.BlockOperation: request headers are values in a map by address, not bytes of the heap.
- Fat.DeviceReads: a device error is a read beyond the disk or of a partial sector; transient errors are not modelled.
- Fat.Mounted: block sizes of zero, which the source divides by, and reserved regions of 2^31 bytes or more, where its signed product overflows, are excluded.
- Fdt.ParseNode: the blob does not wrap around the end of the address space; a read past the blob is the outcome `Fault`. The theorems about printed trees are for word-aligned blobs, as section 5.6 of the Devicetree Specification v0.4 asks for.
- Paths.Split: separators of one character, the only ones in use.
- Paths.LongestCommonPrefix: the mount table is a list in visiting order; the hash map behind it is not modelled.
- BuildScript.Run: from the targets named before the first unknown name no cycle and no unknown dependency is reached; the script recurses for ever or raises an error on others. What a target's command returns comes from outside.
- Numbers.Itoa: bases from 2, and a buffer that is long enough.
- Console output, logging, timers, PLIC, SBI, MMIO registers: hardware plumbing with no state of interest.
- The process state that `exit` writes; the scheduler reads only thread states.
- Traps in kernel mode, boot before the first switch, several harts.
- `kzmalloc`, cache eviction, the used ring and asynchronous callbacks, the hash map, linked-list removal: unfinished in the source.
- FAT directories and long names, opening files and the descriptor table, FAT type detection, writing.
- ELF loading, modules, the formatter, argument decoding, smart pointers, C++ object lifetime.
