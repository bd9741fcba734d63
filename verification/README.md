# Kernel memory, storage reads and number formatting, verified

A Dafny model of three parts of a small RISC-V kernel, with proofs about all inputs, all runs
and all interleavings.

**Memory.** Physical memory is one sequence of bytes. The frame allocator's flag bytes, the
page tables, the heap's headers and the heap's data all live in it, as they do in the kernel,
so every store may in principle hit any of them. `FrameAllocator`, `PageTree`, `PageMapping`,
`PageRuns`, `FlatHeap`, `HeapMemory`, `HeapLayout`, `KernelHeap`, `HeapRuns` and `Boot` say what each
operation computes as a function on memory and prove the properties that hold across the
layers. `Kernel` is the imperative code: a class with the kernel's statics over one array,
whose loads and stores go byte by byte through the active page table, and whose methods are
proved to compute those functions. `DirectAccess` is the argument that editing the tables
through the direct map works while the tables change.

The central invariant is `PageTree.Tree`: a finite map labels every table frame with its level
and the prefix of the pages below it; every slot is empty, or leads where its position says;
every table except the root has a parent slot; all five entries of the direct map are in place;
free frames are zero and no table is free.

**Storage.** `Virtqueue` is the split virtqueue of VIRTIO 1.1 (sections 2.6 and 5.2.6) as a
state machine in which every store of the driver and every access of the device is a step.
`BlockRead` turns sectors into byte ranges, with its temporary buffer and its request as blocks
of the kernel's heap; `BlockTransfer` puts that read on the machine, where the device follows
physical addresses. `Ext2Path` is the path parser, `Ext2Dir` the directory walk and the place
of an inode, and `Ext2` puts them together: from a path to the bytes of a file. `Ext2Disk` writes
inode records and directory blocks field by field, independently of the code that reads them, and
`Ext2Tree` says what the lookups and `read_file` make of a tree that lies on a disk in that form.

**Formatting.** `Format` is `vprintf` of the kernel and of the C library. What it prints is proved
to follow the format: ordinary characters as they are, and at each number a numeral that parses
to it.

## What the proofs found

- The flag bytes of the frame allocator have eight reserved frames, which is enough for 32768
  frames; a kernel with 2 GiB of memory manages far more. The search of `kalloc_frame` stays
  inside the reserved flags if and only if one of them is clear. When none is, and the first
  word of the root page table is empty, it hands out frame 32768, whose flag is the first byte
  of that table, and the word becomes a valid entry (`FrameAllocator.SearchLeavesFlags`,
  `FrameAllocator.ExhaustionCorruptsFrameZero`). All memory results count only the frames whose
  flag is reserved (`Cap`).
- While no frame is freed, the frames taken form a prefix of all frames: a run of allocations
  and mappings takes one frame for each frame it hands out and one for each table that is on a
  path and did not exist before, always the next ones, and succeeds exactly when they are left
  (`HeapLayout.RunTakesPrefix`). Two pages mapped one after the other are physical neighbours
  exactly when the first needed no table and no frame was taken in between
  (`HeapLayout.NeighboursExactly`).
- So, as long as nothing but the heap has taken frames since boot, heap page k lies in frame
  2 + k + ceil(k/512) + ceil(k/2^18), a heap buffer is physically contiguous exactly when none of
  its pages but the last has a number divisible by 512, and a device that writes any other buffer
  writes into a page table (`HeapLayout.ContiguousExactly`, `HeapLayout.DmaHitsTable`). Creating a
  process takes frames too (scheduler.cpp:15); from then on a buffer that is not contiguous makes
  the device write into some frame that is not the heap's (`HeapLayout.DmaMisses`).
- On the heap as a flat array, `read(offset, length)` with a positive length returns the bytes
  asked for, from every disk of n bytes, exactly when three conditions hold: offset % 512 + length
  % 512 <= 512, the first sector's number has 32 bits, and length / 512 + 1 sectors from it on lie
  on the disk (`BlockRead.ReadExactly`). A range of whole sectors that ends with the disk
  therefore fails: one sector too many is asked for, and the temporary buffer is copied as it was.
  When the first condition fails, the last bytes are the beginning of the request's heap block
  (`BlockRead.SpillIsRequest`). Every range that EXT2 reads meets the first condition
  (`BlockRead.Ext2ReadsFit`); the other two depend on the disk.
- On the machine there is a fourth condition: the temporary buffer must be physically contiguous.
  With a contiguous request header, `read` finds the bytes asked for and leaves memory outside the
  heap alone, for every disk of n bytes, exactly when the buffer is contiguous, or the device
  cannot serve the request at all, and the length is 0 or the other three conditions hold
  (`BlockTransfer.ReadOnMachine`). A request whose 16-byte header is not contiguous reaches the
  device with its last bytes taken from a foreign frame (`BlockTransfer.HeaderSplit`); then the
  sector that the device sees decides (`BlockTransfer.DeliversExactly`).
- The path parser finds the components of a path exactly when the path is neither empty nor "/"
  and has no "//" (`Ext2Path.ParsesComponentsExactly`).
- A directory with fewer than ten entries is searched past its end. What lies there is always the
  heap header of `read`'s temporary buffer, which looks like an entry without a name: a name that
  is not listed is reported missing exactly when it is not empty or there are ten entries
  (`Ext2Dir.MissingReportedExactly`). Otherwise the size of that buffer is taken for an inode
  number.
- The directory check lets block devices and sockets through (`Ext2Dir.DirCheckExactly`).
- Where the directories along a path are sound, `read_file` ends with the inode that the path
  names if and only if every lookup along it succeeds; otherwise it goes on, and reports success,
  with the last directory it reached (`Ext2.ReadFileExactly`).
- `kalloc(size)` grows far enough exactly when size + 32 does not wrap in 64 bits
  (`FlatHeap.GrowthSuffices`).
- `%d` prints a numeral that reads back as its argument exactly for arguments that are not
  negative (`Format.DecimalExactly`).

## Model

| member | source | states |
|---|---|---|
| Sv48.GetVpn3 | kernel/memory/memory.cpp:26-29 | the shift and mask select the page number's top 9 of 36 bits |
| Sv48.GetVpn2 | kernel/memory/memory.cpp:30-33 | the second 9 bits of the page number |
| Sv48.GetVpn1 | kernel/memory/memory.cpp:34-37 | the third 9 bits of the page number |
| Sv48.GetVpn0 | kernel/memory/memory.cpp:40-43 | the last 9 bits of the page number |
| Sv48.GetOffset | kernel/memory/memory.cpp:44-47 | the mask is the address modulo 4096 |
| Sv48.FieldsDetermineAddress | kernel/memory/memory.cpp:26-47 | the five fields together rebuild every 48-bit address |
| Sv48.CreateValidPageTableEntry | kernel/memory/paging.cpp:12-14 | the entry is the low 40 bits of the page number at bit 10, plus V |
| Sv48.LeafEntryFields | kernel/memory/paging.cpp:101-103 | where the flag's bits go for every flag: those from bit 10 on are or-ed into the frame number |
| Sv48.LeafEntryFrame | kernel/memory/paging.cpp:101-103 | with flags below 1024 the entry names the frame exactly when its number has 40 bits |
| Sv48.FrameOrOffset | kernel/memory/paging.cpp:154-157 | or-ing the offset into the frame address is addition |
| FrameAllocator.AllignAddressLeast | kernel/memory/physical_allocator.cpp:35-37 | for every power of two the result is the least multiple at or above the address |
| FrameAllocator.FrameRangeExact | kernel/memory/physical_allocator.cpp:45-61 | the flags start eight frames before the first frame, and the managed frames end exactly at the end of memory, for every heap start |
| FrameAllocator.FirstFree | kernel/memory/physical_allocator.cpp:71-78 | the search ends at the lowest free frame |
| FrameAllocator.GetFrameNumberInverts | kernel/memory/physical_allocator.cpp:29-31 | get_frame_number of the address of frame i is i modulo 2^32 |
| FrameAllocator.LiveAfterAlloc | kernel/memory/physical_allocator.cpp:71-84 | kalloc_frame hands out a frame that is not live, all lower ones are, and exactly that one becomes live |
| FrameAllocator.LiveAfterFree | kernel/memory/physical_allocator.cpp:85-88 | kfree_frame takes exactly that frame off the live set |
| FrameAllocator.RunIsFirstFit | kernel/memory/physical_allocator.cpp:71-88 | every run of allocations and frees is a run of first fit on the set of live frames: never a live frame, always the least |
| FrameAllocator.FlagOutsideManagedFrames | kernel/memory/physical_allocator.cpp:59-61 | a flag byte lies before the managed frames if and only if its index is below 32768 |
| FrameAllocator.UncappedAddress | kernel/memory/physical_allocator.cpp:79-83 | the address handed out is the first frame's plus index times 4096 modulo 2^32 |
| FrameAllocator.SearchStaysInside | kernel/memory/physical_allocator.cpp:72-84 | the search without bound ends at a frame that exists and has a reserved flag if and only if one of those is free, and then kalloc_frame is first fit on them |
| FrameAllocator.SearchLeavesFlags | kernel/memory/physical_allocator.cpp:72-79 | kalloc_frame writes outside every managed frame if and only if one of the 32768 reserved flags is clear |
| FrameAllocator.ExhaustionCorruptsFrameZero | kernel/memory/physical_allocator.cpp:72-84 | when none is and the first word of frame 0 is empty, frame 32768 is handed out and the word becomes a valid entry |
| PageTree.AddedKeepsTree | kernel/memory/paging.cpp:71-97 | pointing an empty slot to a new zero frame keeps the tree invariant |
| PageTree.AddedKeepsLookup | kernel/memory/paging.cpp:71-97 | and changes no page's translation |
| PageTree.LeafSetKeepsTree | kernel/memory/paging.cpp:101-103 | writing a last-level entry keeps the tree invariant |
| PageTree.LeafSetLookup | kernel/memory/paging.cpp:101-103 | and changes no other page's translation |
| PageTree.LeafSetHit | kernel/memory/paging.cpp:101-103 | and makes the walk for its own page end at it |
| PageTree.NodesDistinct | kernel/memory/paging.cpp:71-103 | no two table frames have the same level and prefix |
| PageTree.OneParentSlot | kernel/memory/paging.cpp:71-103 | every table but the root is referenced by exactly one slot, the root by none |
| PageTree.SlotInUse | kernel/memory/paging.cpp:71-103 | a slot is valid if and only if the table for its position exists |
| PageTree.WalkersAgree | kernel/memory/paging.cpp:71-158 | off the direct map the hardware walk of section 4.3.2 of the Privileged Specification yields what the software walk's entry says, at every level |
| PageTree.DirectPages | kernel/memory/paging.cpp:28-34 | the direct map's pages are exactly those of the addresses from VIRTUAL_OFFSET to 4 GiB behind it |
| PageTree.DirectMapHolds | kernel/memory/paging.cpp:28-34 | in every tree the hardware walk sends VIRTUAL_OFFSET + a to a for every a below 4 GiB |
| PageMapping.MapFromKeepsTree | kernel/memory/paging.cpp:61-104 | map_page keeps the tree invariant, with the tables it allocates itself |
| PageMapping.MapFromKeepsOthers | kernel/memory/paging.cpp:61-104 | map_page changes the entry of no other page, unmapped ones included |
| PageMapping.MapFromMaps | kernel/memory/paging.cpp:61-104 | after map_page the walk finds the new entry |
| PageMapping.MapFromKeepsBytes | kernel/memory/paging.cpp:61-104 | map_page changes no byte outside the flags and the tables |
| PageMapping.MapFromFrames | kernel/memory/paging.cpp:71-97 | the frames map_page takes are exactly its new tables |
| PageMapping.MapFromNodes | kernel/memory/paging.cpp:71-97 | its new tables are exactly the missing ones on the page's path |
| PageRuns.NewPageLookup | kernel/memory/virtual_allocator.cpp:89-90 | taking a frame and mapping it changes the entry of that page and no other |
| PageRuns.EntryTranslates | kernel/memory/paging.cpp:107-158 | for a mapped page the software walk yields frame plus offset, and the hardware walk the same when the entry is a leaf |
| PageRuns.NewPageTranslates | kernel/memory/paging.cpp:61-158 | every address of the page just mapped translates to the new frame plus offset |
| PageRuns.StepFrames | kernel/memory/physical_allocator.cpp:71-84 | an allocation or mapping turns only free frames into tables, and a frame handed out is neither free nor a table |
| PageRuns.RunRefinesFlatMap | kernel/memory/paging.cpp:61-158 | over every run of frame allocations and mappings of any frames with any 16-bit flags, none of them a table or a free frame, the four-level tables equal a flat map in which the last write to a page wins, a tree remains, and the direct map sends every address where it did |
| PageRuns.RunFramesDistinct | kernel/memory/physical_allocator.cpp:71-84 | the frames handed out in such a run are pairwise distinct, were free, and are neither free nor tables after it |
| PageRuns.PrivateMayBeMapped | kernel/memory/paging.cpp:101-103 | so each of them may be mapped at any page off the direct map |
| FlatHeap.FreeSpaceFields | kernel/libk/list.cpp:5-13 | size and last bit do not disturb each other; a size is kept modulo 2^63 |
| FlatHeap.GrowthSuffices | kernel/memory/virtual_allocator.cpp:85-94 | the growth loop's page count is enough if and only if size + 32 does not wrap, and one page less is not |
| FlatHeap.FlatKallocOk | kernel/memory/virtual_allocator.cpp:85-108 | on a flat array: the block with its header follows the old ones, what was below is kept, the free block ends the array again |
| FlatHeap.WalkRecoversHistory | kernel/memory/virtual_allocator.cpp:100-108 | walking the headers of a tiled heap yields the list of request sizes |
| FlatHeap.TilingConserves | kernel/memory/virtual_allocator.cpp:100-108 | sizes plus 16 bytes per block add up to the position of the free block |
| FlatHeap.PayloadWriteKeepsTiling | kernel/memory/virtual_allocator.cpp:104-111 | a write inside a payload leaves every header as it is |
| FlatHeap.PayloadsDisjoint | kernel/memory/virtual_allocator.cpp:104-111 | a new payload overlaps no earlier one |
| HeapMemory.HeapRights | kernel/memory/virtual_allocator.cpp:89-92 | the entries of heap pages carry all of R, W and X |
| HeapMemory.HeapTranslate | kernel/memory/virtual_allocator.cpp:89-92 | both walks send heap byte i to its frame plus offset, inside memory |
| HeapMemory.HeapStore | kernel/memory/virtual_allocator.cpp:100-108 | a store to heap byte i changes that byte of the heap, no other, no table and no frame's state |
| HeapMemory.HeapWords | kernel/memory/virtual_allocator.cpp:100-108 | word loads and stores through the tables are word loads and stores of the flat array |
| HeapMemory.HeapNewPage | kernel/memory/virtual_allocator.cpp:89-92 | a new heap page keeps all heap bytes and appends 4096 zeros |
| HeapMemory.HeapTakesFrame | kernel/process/scheduler.cpp:42 | taking a frame for something else changes no heap byte and no heap translation |
| HeapMemory.HeapMapsOther | kernel/process/scheduler.cpp:42-44 | nor does mapping it at a page off the heap |
| HeapMemory.FramesWriteKeeps | kernel/process/scheduler.cpp:46-48 | any change of memory inside frames that are neither tables nor free keeps every table, every translation and the set of free frames |
| HeapMemory.OtherPageKept | kernel/process/scheduler.cpp:42-48 | a page mapped to a private frame stays so while only free frames are taken and other pages mapped |
| HeapMemory.OtherStore | kernel/process/scheduler.cpp:46-48 | a store through such a page changes no heap byte, no table and no free frame |
| HeapLayout.MissingCounts | kernel/memory/paging.cpp:71-97 | the tables missing level by level are the tables of the path that do not exist |
| HeapLayout.MapFromCount | kernel/memory/paging.cpp:71-97 | map_page succeeds if and only if the missing tables fit the frames left, and takes that many in order |
| HeapLayout.HeapPageCount | kernel/memory/virtual_allocator.cpp:89-92 | heap page k is the frame with number 2 + k + ceil(k/512) + ceil(k/2^18), and can be had if and only if the next count fits |
| HeapLayout.HeapPageKeepsLayout | kernel/memory/virtual_allocator.cpp:87-93 | every new page keeps the closed form of the whole layout |
| HeapLayout.NeighbourFrames | kernel/memory/virtual_allocator.cpp:89-92 | pages k and k+1 are physical neighbours if and only if k is not divisible by 512 |
| HeapLayout.ContiguousExactly | kernel/memory/virtual_allocator.cpp:85-93 | a heap range is physically contiguous if and only if no page of it but the last is divisible by 512 |
| HeapLayout.ContiguousInLine | kernel/drivers/virtio/blk.cpp:174-176 | on any heap a range is physically contiguous if and only if neighbouring pages of it lie in neighbouring frames |
| HeapLayout.DmaArrives | kernel/drivers/virtio/blk.cpp:174-176 | on any heap, a device write to the translated address of a contiguous buffer changes exactly those heap bytes; tables, free frames, the heap invariant and memory outside the heap's frames stay |
| HeapLayout.DmaMisses | kernel/drivers/virtio/blk.cpp:174-176 | on any heap, when the buffer is not contiguous, some byte of the write lands in a frame that is not the heap's |
| HeapLayout.DmaHitsTable | kernel/drivers/virtio/blk.cpp:174-176 | which is a page table while only the heap has taken frames |
| HeapLayout.StepTakesPrefix | kernel/memory/physical_allocator.cpp:71-84 | from a prefix of taken frames an operation succeeds if and only if the frames it uses are left, and takes the next ones |
| HeapLayout.RunTakesPrefix | kernel/memory/physical_allocator.cpp:71-84 | so does every run of allocations and mappings: one frame for each handed out and one for each table on a path that did not exist, in order |
| HeapLayout.NewPageTakes | kernel/memory/virtual_allocator.cpp:89-90 | from a prefix of n taken frames a fresh page gets frame n, and succeeds if and only if it and the missing tables are left |
| HeapLayout.NeighboursExactly | kernel/memory/virtual_allocator.cpp:87-93 | two pages mapped with any run in between get neighbouring frames if and only if the first needed no table and the run took no frame; otherwise the gap is that count |
| KernelHeap.RepresentsFacts | kernel/memory/virtual_allocator.cpp:81-86 | the free item is always marked last and its size is exactly the rest of the heap, so no next pointer is followed |
| KernelHeap.GrowPageRefines | kernel/memory/virtual_allocator.cpp:87-93 | a round of the growth loop in machine memory is a round on the flat array |
| KernelHeap.SplitRefines | kernel/memory/virtual_allocator.cpp:100-108 | the header stores in machine memory are the ones on the flat array |
| KernelHeap.KallocRefines | kernel/memory/virtual_allocator.cpp:65-112 | kalloc in machine memory is kalloc on the flat array, adds exactly the computed pages and returns the block behind its header |
| KernelHeap.GrowPagesCount | kernel/memory/virtual_allocator.cpp:87-93 | k rounds succeed if and only if the closed-form count fits the frames |
| KernelHeap.KallocSucceeds | kernel/memory/virtual_allocator.cpp:65-112 | kalloc succeeds if and only if the pages it needs fit by the closed form |
| HeapRuns.StepRefines | kernel/memory/virtual_allocator.cpp:65-112 | a request, a payload write, a frame taken, a page mapped elsewhere or a store through such a page is on the machine what it is on the flat heap, and the pages of others stay apart from heap, tables and free frames |
| HeapRuns.PokeRefines | kernel/process/scheduler.cpp:46-48 | a store through a page mapped for others is no step of the heap, and keeps the closed form of its frames |
| HeapRuns.FlatRunBytes | kernel/memory/virtual_allocator.cpp:100-111 | after any run on the flat heap the blocks tile it by the request history, and every byte allocated before or written during the run, in old blocks or new ones, is the last one written |
| HeapRuns.RunTiles | kernel/memory/virtual_allocator.cpp:65-112 | any run on the machine reaches the state that represents the same run on the flat heap, with all pages mapped in it apart from heap, tables and free frames |
| HeapRuns.RunKeepsLayout | kernel/memory/virtual_allocator.cpp:85-93 | runs that only request and write keep the closed form of the frames |
| HeapRuns.HeaderWalkRecovers | kernel/memory/virtual_allocator.cpp:101-108 | walking the headers through the page tables yields the request history |
| HeapRuns.HeapIsFlatArray | kernel/memory/virtual_allocator.cpp:65-112 | after any run, also from boot and with frames taken, mapped and stored to in between, the machine reads through the tables exactly the flat heap; each byte allocated before or written during the run is the last one written; the headers list all requests; the free block moves by their sum |
| Boot.SetupLoopDone | kernel/memory/paging.cpp:28-34 | the setup loop writes exactly the five entries of the direct map |
| Boot.FlagsCleared | kernel/memory/physical_allocator.cpp:64-67 | after init every frame is free and memory behind the first frame is still zero |
| Boot.PagingInitMaps | kernel/memory/paging.cpp:16-39 | paging_init takes two frames and leaves a tree with a complete direct map |
| Boot.VirtualAllocatorInitOk | kernel/memory/virtual_allocator.cpp:42-63 | virtual_allocator_init succeeds if and only if frames suffice and leaves a one-page heap with all invariants |
| Boot.BootReachesHeap | kernel/os.cpp:17-19 | on zero memory the boot order succeeds if and only if five frames are available, and reaches the invariant of all heap runs |
| DirectAccess.StoreThroughDirectMap | kernel/memory/paging.cpp:78-103 | a store through the direct map reaches the intended bytes at each of its steps, when it spares the direct map's own entries |
| DirectAccess.EditEntry | kernel/memory/paging.cpp:71-103 | every slot that map_page writes can be written that way |
| DirectAccess.HeapStoresOk | kernel/memory/virtual_allocator.cpp:100-108 | byte-wise stores to the heap never fault and compute the specified memory |
| Kernel.Kernel.PhysicalAllocatorInit | kernel/memory/physical_allocator.cpp:38-69 | the loop clears exactly the flags of the managed frames |
| Kernel.Kernel.KallocFrame | kernel/memory/physical_allocator.cpp:71-84 | the unbounded loop over flags in memory computes the specified search, and first fit while a reserved flag is clear |
| Kernel.Kernel.KfreeFrame | kernel/memory/physical_allocator.cpp:85-88 | the store computes the specified free |
| Kernel.Kernel.GetEntry | kernel/memory/paging.cpp:163-165 | a load through the direct map is the table's entry |
| Kernel.Kernel.SetEntry | kernel/memory/paging.cpp:160-162 | a store through the direct map sets that entry and no other byte |
| Kernel.Kernel.MapPageForSetup | kernel/memory/paging.cpp:46-59 | the two stores of the specification |
| Kernel.Kernel.PagingInit | kernel/memory/paging.cpp:16-39 | two frames, four GiB pages, and the new root made active |
| Kernel.Kernel.NextTable | kernel/memory/paging.cpp:71-80 | one level of map_page: the rest of the specified mapping remains to be done from the table returned |
| Kernel.Kernel.MapPage | kernel/memory/paging.cpp:61-104 | the code computes the specified mapping while it edits the tables it runs on |
| Kernel.Kernel.GetPhysicalAddress | kernel/memory/paging.cpp:105-158 | the code computes the software walk: 0 when no last-level entry is found, and otherwise frame plus offset |
| Kernel.Kernel.VirtualAllocatorInit | kernel/memory/virtual_allocator.cpp:42-63 | the code computes the specified first heap page |
| Kernel.Kernel.MemoryInit | kernel/os.cpp:17-19 | the three initialisations compute the specified boot order and establish the invariant of all heap runs |
| Kernel.Kernel.SplitBlock | kernel/memory/virtual_allocator.cpp:100-108 | the stores compute the specified split and the pointer behind the header |
| Kernel.Kernel.Kalloc | kernel/memory/virtual_allocator.cpp:65-112 | growth loop, mapping and split compute the specified allocation |
| Virtqueue.SlotAcrossWrap | kernel/drivers/virtio/blk.cpp:188-190 | the 16-bit index names the ring slot of the unbounded count, also across the wrap |
| Virtqueue.FetchMeansPublished | kernel/drivers/virtio/blk.cpp:188-190 | the device sees differing indices if and only if a published request is not yet fetched |
| Virtqueue.StepKeepsInv | kernel/drivers/virtio/blk.cpp:158-196 | every step of driver or device keeps the protocol invariant |
| Virtqueue.RunKeepsInv | kernel/drivers/virtio/blk.cpp:158-196 | every interleaving keeps it |
| Virtqueue.ExactlyOnceInOrder | kernel/drivers/virtio/blk.cpp:158-196 | in every reachable state the device has executed the published requests once each, in order, with their own sector, buffer, length and direction; at most one is outstanding |
| Virtqueue.NoHalfWrittenChain | kernel/drivers/virtio/blk.cpp:170-190 | what the device has read of a chain is that part of the waiting request's chain, and it reads nothing while the driver writes |
| Virtqueue.ReturnsAfterExecution | kernel/drivers/virtio/blk.cpp:193-195 | when the status wait can end, the call's own request has been executed |
| Virtqueue.BasicOpReturns | kernel/drivers/virtio/blk.cpp:193-195 | the wait is never stuck and ends after at most nine steps of any interleaving |
| Virtqueue.WritesPublish | kernel/drivers/virtio/blk.cpp:170-191 | whatever the queue held, the stores leave the request's header, the pending status 0x12, the descriptors (header, 16, flags 1, next 1), (buffer, length, flags 3 for a read and 1 for a write, next 2), (status, 1, flags 2), a slot of 256 naming descriptor 0, and the index one further; all else stays |
| Virtqueue.FlagFacts | kernel/drivers/virtio/blk.cpp:173-187 | to a device that decodes flags bit by bit (section 2.6.5) this is the framing of section 5.2.6: a readable header of 16 bytes, data writable exactly for a read, one writable status byte |
| Virtqueue.WritesComplete | kernel/drivers/virtio/blk.cpp:170-190 | after each of the stores the effects of all before it are there, and the index moves with the last store only |
| Virtqueue.VirtQueue.BasicOp | kernel/drivers/virtio/blk.cpp:158-196 | -1 and no change for a length that is no multiple of 512 or a type that is neither 0 nor 1; otherwise 0, the stores in program order, and the queue of WritesPublish |
| BlockRead.ReadExactly | kernel/drivers/virtio/blk.cpp:115-135 | on every flat heap, read returns the bytes asked for from every disk of n bytes if and only if the length is 0, or the range fits its sectors, the sector number has 32 bits and all sectors asked for lie on the disk |
| BlockRead.SpillIsRequest | kernel/drivers/virtio/blk.cpp:123-129 | a range that does not fit ends with the first bytes of the request block: size 536, magic word, type, reserved word, sector, data |
| BlockRead.ServedFacts | kernel/drivers/virtio/blk.cpp:158-196 | the device changes the buffer, if the sectors lie on the disk, and the status byte, and nothing allocated before otherwise; the request block is its heap header of size 536, type 0, the reserved word, the 32-bit sector and the data |
| BlockRead.Ext2ReadsFit | kernel/drivers/ext2.cpp:16-104 | the ranges of super block, descriptor, inode, directory block and file data all end inside their sectors, for all values, 32-bit wrap included |
| BlockRead.Driver.Memcpy | kernel/memory/virtual_allocator.cpp:31-40 | copies the bytes and leaves the rest |
| BlockRead.Driver.ReadBlocks | kernel/drivers/virtio/blk.cpp:141-144 | -1 and no change for partial sectors; otherwise the specified heap with the request in a new block |
| BlockRead.Driver.Read | kernel/drivers/virtio/blk.cpp:115-135 | the two blocks are allocated and the specified bytes copied, which are the wanted ones under the conditions of ReadExactly |
| BlockTransfer.KernelAsks | kernel/drivers/virtio/blk.cpp:123-171 | from every state that represents a heap, the two calls of kalloc and the stores into the request, through the page tables, reach the state in which the device is asked |
| BlockTransfer.SafeTransfer | kernel/drivers/virtio/blk.cpp:172-195 | a transfer into a contiguous buffer, or none, changes the heap by the sectors and the status only, and nothing outside the heap's frames; the heap invariant stays |
| BlockTransfer.DeliversExactly | kernel/drivers/virtio/blk.cpp:115-196 | read finds the bytes asked for and memory outside the heap is as it was, for every disk of n bytes, if and only if the buffer is contiguous or not served, and the length is 0 or the device sees the sector meant, serves it, and the range fits its sectors |
| BlockTransfer.HeaderInLine | kernel/drivers/virtio/blk.cpp:170-173 | of a contiguous request header the device sees the type and the sector that were written |
| BlockTransfer.HeaderSplit | kernel/drivers/virtio/blk.cpp:170-173 | of any other it reads the last bytes out of a frame that is not the heap's |
| BlockTransfer.ReadOnMachine | kernel/drivers/virtio/blk.cpp:115-196 | with a contiguous header the same holds if and only if the buffer is contiguous or cannot be served, and the length is 0 or the three conditions of ReadExactly hold |
| BlockTransfer.ChainTransfers | kernel/drivers/virtio/blk.cpp:170-187 | a device that reads its header, writes its data and writes its status along the chain published for the call, with the addresses of the kernel's walk, does exactly this transfer |
| BlockTransfer.TransferIsServed | kernel/drivers/virtio/blk.cpp:158-196 | with contiguous header and buffer, machine memory after the transfer holds exactly the flat heap that BlockRead and Ext2 work on |
| BlockTransfer.ReadReachesHeap | kernel/drivers/virtio/blk.cpp:123-129 | loads through the page tables then read the wanted bytes |
| Ext2Path.ParserInvertsJoin | kernel/drivers/ext2.cpp:136-179 | every list of non-empty slash-free names, joined, with or without outer slashes, is parsed back |
| Ext2Path.ParsesComponentsExactly | kernel/drivers/ext2.cpp:136-179 | the names parsed are the components of the path if and only if it is not empty, not "/" and has no "//" |
| Ext2Dir.Matches | kernel/drivers/ext2.cpp:108-122 | true if and only if the names are equal |
| Ext2Disk.InodeLayout | kernel/drivers/ext2.h:52-73 | in a record written field by field i_mode takes the first 2 bytes and i_block[0] those from 40 to 44 |
| Ext2Disk.EveryRecord | kernel/drivers/ext2.h:52-73 | every 256 bytes are the writing of some inode |
| Ext2Disk.EntryLayout | kernel/drivers/ext2.h:75-82 | inode number, record length, length of the name and name in a written directory entry |
| Ext2Dir.FindEntry | kernel/drivers/ext2.cpp:54-66 | the first of ten entries with the name, or none; on every directory written entry by entry, the inode number written for the first of the first ten entries with the name, and none when ten have other names |
| Ext2Dir.WalkSearchesList | kernel/drivers/ext2.cpp:54-66 | on a chain of record lengths the walk is a search of the listed entries |
| Ext2Dir.WrittenSearch | kernel/drivers/ext2.cpp:54-66 | a search of n steps from any offset at which entries are written finds the first of n with the name, or none of n |
| Ext2Dir.WrittenLookup | kernel/drivers/ext2.cpp:54-66 | in a written directory with the heap's header behind: the first of the first ten entries with the name; else, for the empty name and fewer than ten entries, the block size plus 512; else none |
| Ext2Dir.LookupExactly | kernel/drivers/ext2.cpp:54-66 | the lookup of any name: the inode among the first ten entries; else, for the empty name and fewer than ten, the number read from the header behind the block; else none |
| Ext2Dir.MissingReportedExactly | kernel/drivers/ext2.cpp:58-66 | a name that is not listed is reported missing if and only if it is not empty or there are ten entries |
| Ext2Dir.DirCheckExactly | kernel/drivers/ext2.cpp:40-46 | the mode test lets through exactly the eight file types with that bit |
| Ext2Dir.RootIsInodeTwo | kernel/drivers/ext2.cpp:92-97 | the general inode formula at inode 2 is the one of get_root_inode |
| Ext2Dir.InodePlace | kernel/drivers/ext2.cpp:69-80 | inode g * inodes_per_group + k + 1 lies at block_size * table of group g modulo 2^32 plus 256 * k |
| Ext2Dir.InodesDisjoint | kernel/drivers/ext2.cpp:69-80 | distinct inodes are read from disjoint 256-byte ranges |
| Ext2.BlockHeapFacts | kernel/drivers/ext2.cpp:50-56 | the search sees the block as read, and behind it the heap header of read's temporary buffer; nothing allocated before has changed |
| Ext2.GetInodeInDir | kernel/drivers/ext2.cpp:38-82 | overwrites the inode by what is read for the entry found, or returns -1 and leaves it; everything else allocated before stays |
| Ext2.HeapDoesNotMatter | kernel/drivers/ext2.cpp:38-82 | whatever the heap holds, the result is the one the disk decides |
| Ext2.WrittenInode | kernel/drivers/ext2.h:52-73 | from every written record the driver reads i_mode and i_block[0] |
| Ext2.ReachedBytes | kernel/drivers/virtio/blk.cpp:117-120 | an exact read delivers the disk's bytes from 1 MiB plus the offset on |
| Ext2.ListedResolves | kernel/drivers/ext2.cpp:38-82 | a listed name is looked up to its inode's record: for inode number k of group g the disk's 256 bytes at 1 MiB + block_size * table modulo 2^32 + 256 * k |
| Ext2.LookupFollowsList | kernel/drivers/ext2.cpp:38-82 | in a sound directory every name that is not empty is looked up to the inode it is listed as, and fails if and only if it is not listed among the first ten or the mode test fails |
| Ext2.FoldExactly | kernel/drivers/ext2.cpp:128-185 | from any record, where the records reached along the names are sound, the disk decides every lookup and they go exactly as far as the directories lead |
| Ext2.PathExactly | kernel/drivers/ext2.cpp:128-185 | where the directories along a joined path are sound, it succeeds if and only if they lead through all its names, and then ends at the record they lead to; otherwise at the record of the last directory reached |
| Ext2.CopyName | kernel/drivers/ext2.cpp:150-154 | a new heap block holds that part of the path as a C string |
| Ext2.LookupName | kernel/drivers/ext2.cpp:150-158 | the name is copied and looked up: the record on the heap becomes the one the disk says, or stays and -1 is returned |
| Ext2.GetInodeFromDir | kernel/drivers/ext2.cpp:128-185 | on the kernel's heap, result and record are those of looking up the path's names in order up to the first failure, for every path whose lookups the disk decides |
| Ext2.ReadFile | kernel/drivers/ext2.cpp:99-107 | runs these lookups on the heap, returns 0 and, when the record they end with is the writing of r, delivers the disk's bytes from 1 MiB + block_size * r.i_block[0] modulo 2^32 on, whenever that range can be read; the rest of the heap stays |
| Ext2.ReadFileExactly | kernel/drivers/ext2.cpp:99-107 | where the directories along the path are sound, that inode is the one the path names if and only if every lookup succeeds; otherwise it is the last directory reached, the root included |
| Ext2Tree.EnteredStep | kernel/drivers/ext2.cpp:38-82 | in a directory whose block and inodes are written on the disk, a name among the first ten entries is looked up to the written record of its inode |
| Ext2Tree.NotEnteredStep | kernel/drivers/ext2.cpp:58-66 | a name that is not among them is not found, if it is not empty or there are ten entries |
| Ext2Tree.WayIsFollowed | kernel/drivers/ext2.cpp:128-185 | through every tree written on a disk the lookups follow the names to the inode they lead to, or return -1 with the last directory |
| Ext2Tree.TreeIsRead | kernel/drivers/ext2.cpp:99-107 | for every joined path into such a tree read_file's demands are met and it ends with the inode that the path leads to, or with the last directory on the way |
| Format.PrintParses | kernel/libk/printf.cpp:17-53 | printed digits have no leading zero and parse back to the number, in base 10 and 16 |
| Format.ParsePrints | kernel/libk/printf.cpp:17-53 | and printing what a numeral parses to gives the numeral |
| Format.DigitsFit | kernel/libk/printf.cpp:19-38 | an int has at most 10 digits and a uint64_t at most 16, so the digit arrays never overflow |
| Format.DecimalExactly | kernel/libk/printf.cpp:17-33 | %d reads back as its argument if and only if that is not negative |
| Format.DecimalDigits | kernel/libk/printf.cpp:19-26 | the digit loop stores the number's lower digits, lowest first |
| Format.HexDigits | kernel/libk/printf.cpp:36-45 | the digit loop stores all digits, lowest first |
| Format.DirectiveShows | kernel/libk/printf.cpp:17-64 | the text for %x is a numeral in base 16 that parses to the 64-bit argument, that for %d of a non-negative argument one in base 10, and for a negative one the character with its code plus 48 in 8 bits |
| Format.EmitFollows | kernel/libk/printf.cpp:13-73 | for every format the text is its ordinary characters with such a text for the next argument at each directive |
| Format.Console.PrintDecimal | kernel/libk/printf.cpp:17-33 | the characters added show the int: a numeral that parses to it unless it is negative |
| Format.Console.PrintHex | kernel/libk/printf.cpp:34-53 | the characters added are a numeral in base 16 that parses to the uint64_t |
| Format.Console.Vprintf | kernel/libk/printf.cpp:13-73 | the characters added follow the format, as in EmitFollows |
| Format.PrintBuffer.Vprintf | tlibc/printf.c:18-90 | the characters added to the buffer follow the format, when they fit 200 |
| Format.PrintBoth | tlibc/printf.c:18-90 | kernel and library print the same characters whenever they fit 200 |

## Left out

- Kernel.Kernel.KallocFrame: requires a zero byte in memory from the flags on; the source has no check and would fault.
- Kernel.Kernel.KfreeFrame: stands outside the mapping and heap runs, which need free frames to be zero; a freed frame is not cleared.
- Kernel.Kernel.MapPage: requires a page off the four GiB of the direct map, and enough frames; the source would take a GiB leaf for a table.
- Kernel.Kernel.GetPhysicalAddress: requires an address off the direct map, for the same reason.
- Kernel.Kernel.Kalloc: requires size + 32 not to wrap and enough frames; the search over several free items (virtual_allocator.cpp:81-84) is left out because the list is proved to be one item marked last.
- Kernel.Kernel.MemoryInit: requires memory that is zero behind the kernel image, since kalloc_frame does not clear frames.
- PageRuns.RunRefinesFlatMap: a mapping must not name a page table or a free frame.
- Virtqueue.VirtQueue.BasicOp: ends where the source starts to wait; the wait is part of the state machine.
- BlockRead.Driver.Read: the caller's buffer lies in an earlier heap block; the heap is the flat array, on which the device's stores arrive, and `BlockTransfer` says exactly when they do on the machine; device errors other than sectors beyond the disk and unknown request types are left out.
- BlockTransfer.DeliversExactly: the device is taken to find the descriptors and rings of the queue as the driver wrote them; they are set up before, by `init`.
- Ext2Dir.FindEntry: requires the entries looked at to lie inside memory.
- Ext2Dir.InodesDisjoint: requires disjoint inode tables and offsets below 2^32, which the 32-bit product needs.
- Ext2.GetInodeInDir: requires room on the heap, a search that stays inside memory, and an inode number of a known group; the source checks none of them.
- Ext2.GetInodeFromDir: requires room on the heap, and that the disk decides each lookup it makes, since the source indexes past memory or the group descriptors otherwise.
- Ext2.ReadFile: requires the same of the lookups from the root.
- Ext2.PathExactly: requires sound directories along the path only; an unsound one is searched as whatever its block holds.
- Format.PrintBuffer.Vprintf: requires the text to fit 200 characters; the source has no check.
- Boot code, traps, context switches, CSR access, TLB: the boot table is taken to map all of memory at VIRTUAL_OFFSET, and satp to change at once.
- Weak memory order: steps of driver and device interleave sequentially, which is what the barriers are for.
- The status byte's value is ignored by basic_op; the used ring is written but never read by the driver.
- The reserved word of the request header, which the source does not initialise, is whatever the heap held.
- Accessed and dirty bits and permission checks beyond R, W and X telling a leaf from a pointer.
- Alignment and freeing of heap blocks, `memset`, and the C library's malloc.
- Files that are not contiguous, directories of several blocks, entries with inode number 0, and block sizes above 2^30.
- The EXT2 constructor: block size, inodes per group and inode tables are taken as the super block and the group descriptors give them.
- Characters are taken as 8 bits; a path is a string without NUL.
- UART, logging, device probing, feature negotiation, the console device, ELF loading, processes, the VFS and system calls.
