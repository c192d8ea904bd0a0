# Verification of the IcosaOS memory subsystem, FAT32 reader and keyboard ring

IcosaOS is a 32-bit kernel. This project models four of its parts in Dafny and proves what their
code keeps, call by call and over whole runs.

* **Heaps** (`heap.c`, `user_heap.c`). `HeapChain` has the list algorithm on values: first fit, split,
  coalesce. `HeapRuns` has whole calls and whole runs: growth, the retry, release. `HeapMemory` has the
  heap as an object whose 12-byte headers live in the same byte array as the payloads and which grows
  into a real address space; `HeapPages` says what that growth does to the address space. The two C files
  contain the same list code, so there is one class; its `growth` constant says what a failed expansion
  leaves behind. The kernel heap's end stays where the failed expansion moved it, so its blocks are ordered
  but need not be adjacent, and the last page it moved past may have a frame and no translation; the user
  heap rolls back, so its blocks tile and all its pages are mapped.
* **Frames and paging** (`memory.c`, `paging.c`, `usermem.c`). `Boot` builds the bitmap from the memory
  map, `Bitmap` is the bit-packed bitmap, `Paging` relates directory and table words to a flat map and
  defines the two-level walk of the processor (section 4.3 of the Intel SDM, volume 3A), `Pager` is the
  class that writes bitmap, directory and physical memory in place. `Space` and `SpaceRuns` hold the
  functions these methods are proved against, an ownership invariant on frames, and the laws of
  allocation, rollback and release.
* **All of it together** (`kernel.c`). `Kernel` and `KernelMemory` put both heaps, the user program's page
  and its stack into one address space and one memory, on values and as objects, and prove over whole runs
  that none of them disturbs another and that user mode reaches the program's pages and no others.
  `Startup` connects this to boot: memory map, bitmap, `init_paging`, and then any run;
  `Framebuffer` says when the framebuffer is mapped by then.
* **FAT32** (`fat32.c`). `FatVolume` is the disk as a function from sector to bytes, with clusters, FAT
  entries, directory entries and names (sections 4.1 and 6 of the Microsoft FAT specification, 2005).
  `FatFormat` is that format once more in literal numbers, from the bytes of the disk alone, and proves that
  the driver reads just that.
  `FatListing` and `FatPath` state what listing, printed names and path resolution mean. `FatDriver` has
  the loops, their buffers, and the heap blocks they take and give back under any pattern of failing
  allocations.
* **Keyboard** (`keyboard.c`). `KeyRing` is the ring buffer as a protocol whose producer and consumer
  are cut at every access to the shared indices and slots. `Keyboard` has the ring as an object that
  refines the protocol, the interrupt handler, and the line editor that polls the ring while interrupts
  keep arriving between and inside its polls.

A value-level function (`Malloc`, `AllocateUserSpace`, `Listing`, `Resolve`, ...) is the specification of
the method that does the same work in place: the method's contract equates the new state with the
function, and the laws are lemmas about the function. C functions with several loops are split into one
method per loop or loop body. `hide` statements keep solver cost low; nothing is assumed.

## Where code and documentation differ

The model follows the code in each case.

* `usermem.c:45` says the user stack's bottom is 0xBFFE0000. The code computes 0xBFFFF000 - 0x4000, that
  is 0xBFFFB000, and that is the range `CreateUserStack` maps.
* `user_heap.h` declares a packed (9-byte) header, but `user_heap.c` uses its own unpacked structure of
  12 bytes.
* `memory.c:115` has a guard against frames past the end of RAM. It can never fire, because the bitmap is
  never longer than `total_pages`.

## Properties that hold under a condition only

Each comes with its exact condition and with an input for which it fails.

* An expansion covers its request exactly when the 32-bit rounding does not wrap
  (`HeapRuns.ExpansionCoversRequest`; fails in `HeapRuns.WrappedExpansionIsEmpty`).
* The kernel heap's expansion ignores `map_page`'s result. The pages it moves the heap's end past are all
  mapped exactly when the free frames cover them and their page tables; told beforehand: unless the frames
  run out on a page that opens a slot without a page table (`SpaceRuns.GrowHeapOutcome`; fails in
  `SpaceRuns.GrowHeapLosesPage`, where success is reported all the same). Over a run the kernel heap is
  mapped as a whole exactly when none of its expansions loses a page (`Kernel.KernelHeapStaysMappedIff`).
* The frames freed at boot for a memory region are wholly backed by it exactly when the region is empty or
  consists of whole, aligned pages (`Boot.FreedFramesAreWholeIff`; fails in `Boot.PartialFrameIsFreed`).
* The framebuffer is mapped as a whole after boot exactly when there are frames for its page tables and the
  loop gets to its last page (`Framebuffer.FramebufferIsMappedIff`, `Startup.FramebufferAtBootIff`; fails in
  `Framebuffer.FramebufferTailIsLost` and `Framebuffer.FramebufferTableIsMissing`).
* Listing a directory comes to an end exactly when its chain is acyclic or holds an end mark
  (`FatListing.StopsUnlessCyclic`; fails in `FatListing.SelfLinkNeverEnds`).
* Backspace undoes the key before it exactly when that key did not fill the line
  (`Keyboard.BackspaceUndoes`; fails in `Keyboard.BackspaceComesTooLate`).

## Model

| member | source | states |
|---|---|---|
| HeapChain.FirstFit | src/kernel/heap.c:69-93 | the block chosen is adequate and no earlier one is |
| HeapChain.LayoutBounds | src/kernel/heap.c:30-55 | blocks of a sound chain ascend, do not overlap, stay inside the heap, and their sizes with headers add up to at most its span, exactly when tight |
| HeapChain.TightLayoutTiles | src/kernel/user_heap.c:18-48 | the user heap's blocks start at its base, follow one another without a gap, and end at its current end |
| HeapChain.LayoutAppend | src/kernel/heap.c:44-53 | a block appended at the heap's end keeps the layout and adds its size and header to the total |
| HeapChain.TakeLayout | src/kernel/heap.c:76-87 | splitting keeps order, tiling and the total of header and payload bytes |
| HeapChain.TakeCanonical | src/kernel/heap.c:76-87 | a split leaves no two free neighbours |
| HeapChain.TakeLive | src/kernel/heap.c:73-90 | exactly one block becomes live, at the chosen address, with the requested size and at most 15 bytes more |
| HeapChain.Coalesce | src/kernel/heap.c:113-124 | the loop ends with no two consecutive free blocks and keeps the first block's address and state |
| HeapChain.CoalesceLayout | src/kernel/heap.c:116-119 | merging without an adjacency check keeps order and non-overlap, keeps tiling, and conserves the total |
| HeapChain.CoalesceLive | src/kernel/heap.c:113-124 | coalescing moves, resizes or drops no live block |
| HeapChain.CoalesceIdle | src/kernel/heap.c:113-124 | a canonical chain is a fixed point of the loop |
| HeapChain.CoalesceUndoesSplit | src/kernel/heap.c:76-85 | freeing a block just split off restores the canonical chain it came from |
| HeapRuns.ExpansionCoversRequest | src/kernel/heap.c:23-23 | the page count covers request and header if and only if the rounding does not wrap |
| HeapRuns.ExpansionIsLeast | src/kernel/heap.c:23-23 | without a wrap-around the new pages are the least number of 4096 bytes that holds the request and its 12-byte header |
| HeapRuns.WrappedExpansionIsEmpty | src/kernel/heap.c:23-23 | a request for which the rounding wraps to no page at all |
| HeapRuns.ExpandKeepsSound | src/kernel/heap.c:21-56 | growth keeps the layout; a failed one leaves a gap of whole pages in the kernel heap's range and nothing in the user heap's |
| HeapRuns.RetryTakesNewBlock | src/kernel/heap.c:95-98 | after a successful expansion the repeated first-fit search finds the new block and no other |
| HeapRuns.FirstFitIsLowest | src/kernel/heap.c:71-93 | the chosen block has the lowest address of all adequate free blocks |
| HeapRuns.MallocFailsOnlyWithoutSpace | src/kernel/heap.c:61-101 | NULL exactly for an empty request, or when nothing fits and the expansion fails |
| HeapRuns.MallocKeepsInv | src/kernel/heap.c:61-101 | an allocation keeps soundness and canonical form and adds one live block at a new address, 0 to 15 bytes larger than asked |
| HeapRuns.MallocTakesLeastRoom | src/kernel/heap.c:21-101 | an allocation that expands the heap moves its end by that least room, any other leaves it |
| HeapRuns.FirstMalloc | src/kernel/heap.c:61-90 | an empty heap hands out its first bytes twelve bytes behind its start |
| HeapRuns.FreeKeepsInv | src/kernel/heap.c:106-125 | a release keeps soundness and canonical form and removes exactly the freed block from the live ones |
| HeapRuns.FreeUndoesMalloc | src/kernel/heap.c:72-125 | allocating without growth and freeing the result gives back the very same heap |
| HeapRuns.MallocGivesFreshPointer | src/kernel/heap.c:61-101 | seen by its pointers alone, an allocation is NULL or adds one that was not live |
| HeapRuns.FreeTakesPointer | src/kernel/heap.c:106-125 | and a release takes exactly its pointer away: the contract that the FAT32 driver's allocations and frees rely on |
| HeapRuns.AllocKeepsSession | src/kernel/heap.c:61-101 | the client's pointers stay exactly the live payloads; a pointer handed out was not held before |
| HeapRuns.RunKeepsSession | src/kernel/heap.c:21-125 | over every run of allocations and legal frees, with failing expansions anywhere, the invariant holds and a live block keeps its address and size until its pointer is freed |
| HeapRuns.LivePayloadsAreDisjoint | src/kernel/heap.c:61-125 | a live payload lies inside the heap and overlaps no header and no other payload |
| HeapRuns.AllFreeIsOneBlock | src/kernel/heap.c:113-124 | with nothing live one free block is left, of the whole span less one header and the lost pages |
| HeapRuns.FreeingAllInAnyOrder | src/kernel/heap.c:106-125 | freeing all live pointers in any order is legal and ends in that one block |
| HeapMemory.PayloadWritesKeepHeaders | src/kernel/heap.c:8-12 | clients that write only inside live payloads cannot damage the list |
| HeapMemory.SpliceRepresents | src/kernel/heap.c:76-85 | replacing a stretch of the list in memory needs only that the new nodes start and link on where the old ones did |
| HeapMemory.CoalescingMerge | src/kernel/heap.c:116-120 | one merge in memory keeps the list, the rest of the work, and every live payload byte |
| HeapMemory.OtherBytesDoNotMatter | src/kernel/heap.c:14-16 | a heap whose range is not written to keeps its list and its payloads |
| HeapMemory.RetryAllocates | src/kernel/heap.c:96-98 | expansion and retry together are the one allocation, in the list, the address space, the bytes and the mapping of pages |
| HeapPages.OtherRangesKept | src/kernel/paging.c:65-110 | a range apart from the one that changed stays mapped, or untouched, as it was |
| HeapPages.GrowthMaps | src/kernel/heap.c:28-37 | for both heaps and every outcome: when growth is reported as success, that nothing outside the pages counted changes, and that these are all mapped exactly when none is lost |
| HeapPages.RangeGrown | src/kernel/user_heap.c:24-29 | the heap's whole range is mapped after growth exactly when it was before and no page is lost; the user heap's always is |
| HeapPages.EnoughFramesLoseNothing | src/kernel/heap.c:28-37 | with frames for the pages and their tables no page is lost |
| HeapMemory.Heap.Store32 | src/kernel/heap.c:40-42 | a header field is stored lowest byte first |
| HeapMemory.Heap.Expand | src/kernel/heap.c:21-56 | the expansion in memory and over the pager, with the whole new list and address space; the end moves by the least room; it touches no live payload and no byte outside the heap, and whether all pages of the heap are mapped afterwards is told exactly |
| HeapMemory.Heap.FindFit | src/kernel/heap.c:69-93 | walking the list in memory stops at the first-fit block, or at NULL if there is none |
| HeapMemory.Heap.Malloc | src/kernel/heap.c:61-101 | kmalloc over bytes and pager is the value-level allocation with the growth that the address space gives; it fails exactly when growth does, takes the least room, keeps the heap mapped exactly unless it loses a page, and changes no byte of a live payload or outside the heap |
| HeapMemory.Heap.Free | src/kernel/heap.c:106-125 | kfree over bytes refines the value-level release and changes no byte of a payload that stays live or outside the heap |
| HeapMemory.Heap.CoalesceAll | src/kernel/heap.c:113-124 | the coalescing loop over memory computes the coalesced chain |
| Bitmap.FullByte | src/kernel/memory.c:101-104 | a byte is 0xFF exactly when its eight frames are used |
| Bitmap.UsedIsBit | src/kernel/memory.c:107-110 | frame f is bit f % 8 of byte f / 8 |
| Bitmap.MarkUsed | src/kernel/memory.c:120-121 | setting a bit marks that frame and no other |
| Bitmap.MarkFree | src/kernel/memory.c:152-153 | clearing a bit frees that frame and no other |
| Bitmap.FindFree | src/kernel/memory.c:97-131 | the byte-skipping scan returns the least free frame, or none exactly when all are used; the limit guard never fires |
| Boot.AlignedRegionHitsWhatItOverlaps | src/kernel/memory.c:68-76 | stepping through an aligned region touches exactly the frames it overlaps |
| Boot.HitsIsStep | src/kernel/memory.c:68-74 | the frames freed are those that hold the first byte of an available region or one a multiple of 4096 bytes after it |
| Boot.FreedFramesAreWholeIff | src/kernel/memory.c:68-76 | the frames freed for a region all lie wholly inside it if and only if it is empty or made of whole aligned pages |
| Boot.PartialFrameIsFreed | src/kernel/memory.c:68-76 | a region that ends inside a frame: the frame is freed |
| Boot.MaxAddress | src/kernel/memory.c:26-45 | the highest end of an available region |
| Boot.FreeRegion | src/kernel/memory.c:69-75 | exactly the frames stepped onto become free |
| Boot.FreeAvailable | src/kernel/memory.c:59-81 | exactly the frames some available region steps onto become free |
| Boot.Protect | src/kernel/memory.c:83-94 | exactly the frames from 1 MiB to the bitmap's end, and frame 0, become used |
| Boot.ProtectedFrames | src/kernel/memory.c:84-91 | the frames protected are those with a byte of the kernel image or of the bitmap in them, the last partial one included |
| Boot.InitBitmap | src/kernel/memory.c:23-95 | after boot a frame is free exactly when an available region steps onto it, it is not frame 0, and no byte from 1 MiB to the end of kernel image and bitmap lies in it |
| Space.Least | src/kernel/memory.c:97-131 | the least element, as the allocation order needs it |
| Space.AllocPageKeepsInv | src/kernel/memory.c:97-131 | handing out a frame keeps single ownership; the frame is real and not frame 0 |
| Space.FreePageKeepsInv | src/kernel/memory.c:136-154 | giving back a held frame keeps single ownership |
| Space.OpenSlotKeepsInv | src/kernel/paging.c:75-100 | finding or creating a table keeps the invariant and all translations; it fails only without a free frame for a missing table |
| Space.MapPageKeepsInv | src/kernel/paging.c:65-110 | mapping keeps single ownership of frames and user pages under user slots |
| Space.ReleaseOneKeepsInv | src/kernel/usermem.c:63-85 | releasing a page keeps the invariant; its frame is real and no page table |
| Space.IdentityMapHasInv | src/kernel/paging.c:27-40 | the low identity map owns none of the frames it maps |
| Space.IdentityRangeKeepsInv | src/kernel/paging.c:45-58 | the framebuffer loop keeps the invariant, whichever of its mappings fail |
| Space.OthersKeepTheirPrivilege | src/kernel/paging.c:87-103 | granting user access to a directory slot for one page changes no other page's effective privilege |
| SpaceRuns.MissingCountsSlots | src/kernel/paging.c:77-93 | the page tables a range still needs are its slots without one |
| SpaceRuns.ClaimOneCases | src/kernel/usermem.c:17-36 | one turn maps its page onto the least free frame or leaves the state exactly as it was |
| SpaceRuns.ClaimEffect | src/kernel/usermem.c:17-36 | the loop maps a prefix of the range with user flags and moves nothing else |
| SpaceRuns.ClaimSucceedsIff | src/kernel/usermem.c:17-38 | the loop gets through if and only if the free frames cover pages and missing tables |
| SpaceRuns.ReleaseEffect | src/kernel/usermem.c:58-86 | exactly the range's translations disappear and exactly its frames come back |
| SpaceRuns.ReleaseTwice | src/kernel/usermem.c:58-86 | freeing a range a second time changes nothing |
| SpaceRuns.FreeDiffersByTables | src/kernel/paging.c:77-93 | with holders and translations unchanged, only new page tables have left the free set |
| SpaceRuns.AllocateIsAllOrNothing | src/kernel/usermem.c:9-39 | success if and only if the frames suffice; on failure every translation is as before and only new page tables are missing from the free set |
| SpaceRuns.ReleaseUndoesAllocate | src/kernel/usermem.c:9-86 | allocate then free restores all translations and gives back the mapped frames |
| SpaceRuns.GrowHeapKeepsInv | src/kernel/heap.c:28-37 | the kernel heap's page loop keeps single ownership even when it ignores a failed mapping |
| SpaceRuns.GrowHeapKeepsPages | src/kernel/heap.c:28-37 | it changes no existing translation and maps nothing beyond the pages it counts |
| SpaceRuns.GrowHeapKeepsTables | src/kernel/heap.c:28-37 | it moves no page table and takes user access from no slot |
| SpaceRuns.GrowHeapOutcome | src/kernel/heap.c:28-37 | for every outcome: when success is reported, that the pages counted are all mapped exactly when the frames cover them and their tables, the same told from the state before, and that at most the last one is not mapped |
| SpaceRuns.GrowHeapLosesPage | src/kernel/heap.c:35-35 | a state in which success is reported for a page that is not mapped |
| SpaceRuns.FramesAreConserved | src/kernel/memory.c:97-154 | free, held, reserved, table and mapped frames add up to all frames |
| SpaceRuns.StepFreesIff | src/kernel/memory.c:136-154 | a frame in use becomes free exactly by a free_page of it or a release of a range with a page that it backs |
| SpaceRuns.UsedFramesStayUsed | src/kernel/memory.c:97-154 | over every run a frame in use is not free until some step gives it back |
| SpaceRuns.FrameIsHandedOutOnce | src/kernel/memory.c:97-131 | a frame that alloc_page hands out was in no use, and over every run that follows it is not handed out again unless it was given back |
| SpaceRuns.RunKeepsInv | src/kernel/usermem.c:9-86 | over every run, out of memory anywhere, each frame has exactly one use and user pages lie under user slots |
| SpaceRuns.ReservedFramesStayReserved | src/kernel/memory.c:97-154 | a frame set apart at the start of a run is never free, handed out, a table, or behind a managed page |
| Paging.FlagBits | src/kernel/paging.c:13-16 | the attribute bits of an entry are those of its low twelve bits |
| Paging.EntryBits | src/kernel/paging.c:13-16 | present, writable and user are bits 0, 1 and 2 of an entry, and the frame is what lies from bit 12 on |
| Paging.AddressFields | src/kernel/paging.c:69-71 | an address is ten bits of directory index, ten of table index and twelve of offset |
| Paging.EntryWords | src/kernel/paging.c:99-103 | the words in directory and table behind a mapped page are the table's frame and frame * 4096 + flags |
| Paging.TableEntryWord | src/kernel/paging.c:89-90 | a new table's directory entry is present and writable, and open to user mode if the page is |
| Paging.WalkIsFlatMap | src/kernel/paging.c:69-103 | the processor's two-level walk over the words agrees with the flat map, rights included |
| Paging.MapPageSeenByHardware | src/kernel/paging.c:65-110 | a successful map_page changes the translation of its page only, a failing one changes none |
| Paging.UnmapPageSeenByHardware | src/kernel/paging.c:112-124 | unmap_page removes the translation of its page only |
| Paging.EntriesAreApart | src/kernel/paging.c:99-103 | entries of different pages are different words, because tables are different frames |
| Paging.TakeRepresents | src/kernel/memory.c:110-125 | setting the first clear bit takes the least free frame |
| Paging.EmptyTable | src/kernel/paging.c:83-92 | a zeroed frame becomes an empty table and no older table changes |
| Paging.GrantUser | src/kernel/paging.c:96-98 | adding the user bit changes neither the frame nor the other bits of a directory entry |
| Paging.WithUserWord | src/kernel/paging.c:96-98 | and nothing else of the entry |
| Paging.IdentityMapRepresents | src/kernel/paging.c:27-40 | the words written at start-up are the identity map of the low 4 MiB |
| Pager.AddressSpace.constructor | src/kernel/paging.c:22-25 | a cleared directory over the boot bitmap maps nothing and reserves what is used |
| Pager.AddressSpace.InitPaging | src/kernel/paging.c:21-62 | the state after init_paging, or no change when there is no frame for the first table |
| Pager.AddressSpace.AllocPage | src/kernel/memory.c:97-131 | the least free frame's address, NULL exactly when none is free |
| Pager.AddressSpace.FreePage | src/kernel/memory.c:136-154 | the frame becomes free; unaligned and out-of-range addresses are ignored |
| Pager.AddressSpace.MapPage | src/kernel/paging.c:65-110 | the words after map_page represent the value-level mapping, in all three branches |
| Pager.AddressSpace.UnmapPage | src/kernel/paging.c:112-124 | the words after unmap_page represent the map without that page |
| Pager.AddressSpace.AllocateUserSpace | src/kernel/usermem.c:9-39 | the in-place loop with its rollback computes the value-level allocation; an unaligned start fails without effect |
| Pager.AddressSpace.FreeUserSpace | src/kernel/usermem.c:58-86 | the in-place loop computes the value-level release |
| Pager.AddressSpace.CreateUserStack | src/kernel/usermem.c:41-56 | maps the four pages below 0xBFFFF000, with user flags, and returns that address, or 0 |
| Pager.AddressSpace.MapHeapPages | src/kernel/heap.c:28-37 | the page loop of expand_heap over the real pager |
| Framebuffer.IdentityRangeMapsIff | src/kernel/paging.c:50-57 | the framebuffer loop maps all of its pages onto themselves if and only if there are frames for the missing page tables |
| Framebuffer.FramebufferIsMappedIff | src/kernel/paging.c:45-58 | every byte of the framebuffer is reached at its own address if and only if, besides, the loop gets to the last page of an unaligned framebuffer, or that page was mapped before |
| Framebuffer.FramebufferTailIsLost | src/kernel/paging.c:50-57 | an unaligned framebuffer whose last page stays unmapped |
| Framebuffer.FramebufferTableIsMissing | src/kernel/paging.c:56-56 | a page that stays unmapped for want of a table, with the result ignored |
| Startup.StartedHasInv | src/kernel/paging.c:21-62 | boot bitmap, identity map and framebuffer mapping give a state in order, whichever framebuffer mappings fail, with no managed page mapped |
| Startup.FramebufferAtBootIff | src/kernel/paging.c:21-58 | at boot, in terms of the frames that the boot bitmap leaves free and of the alignment |
| Startup.LowMemoryIsIdentity | src/kernel/paging.c:33-40 | after boot the processor sees each of the first 1024 pages at the frame of its own number, writable and closed to user mode |
| Startup.KernelFramesStayReserved | src/kernel/memory.c:83-94 | from the boot bitmap through init_paging to any run: a frame with a byte of the kernel image or of the bitmap in it, or frame 0, is never handed out, no table, and behind no managed page |
| Startup.HeapsStayOffKernelFrames | src/kernel/kernel.c:160-164 | the same for any run of heaps and user regions |
| Startup.StartedIsBare | src/kernel/kernel.c:160-164 | after boot every allocator finds its range untouched and user mode reaches nothing |
| Startup.StartMemory | src/kernel/kernel.c:160-164 | the code from memory map to the two empty heaps ends in that state |
| Kernel.AllocEffect | src/kernel/heap.c:61-101 | one heap's allocation changes no translation outside the range it moves its end over |
| Kernel.FirstAllocation | src/kernel/heap.c:21-101 | a first allocation succeeds exactly with frames for its 4 KiB pages and a page table for every 4 MiB; the kernel heap's also one frame short, if its last page starts such a 4 MiB |
| Kernel.FirstPointers | src/kernel/heap.c:6-90 | the first kmalloc returns 0xD000000C and the first umalloc 0x5000000C, or NULL |
| Kernel.InitialHeaps | src/kernel/user_heap.c:6-15 | the heaps start empty at 0xD0000000 and 0x50000000 |
| Kernel.ProgramPages | src/kernel/usermem.c:41-56 | page 0x40000 is the program's and pages 0xBFFFB to 0xBFFFE are its stack |
| Kernel.StepKeepsInv | src/kernel/kernel.c:33-47 | every call of either heap, or on the user program's regions, leaves the others' ranges untouched or mapped as they were, and user mode confined |
| Kernel.RunKeepsInv | src/kernel/kernel.c:33-47 | over every run, out of memory anywhere: both heaps sound, user pages mapped, user mode reaches exactly the user program's pages |
| Kernel.KernelHeapStaysMappedIff | src/kernel/heap.c:28-37 | over a run the whole kernel heap stays mapped if and only if no expansion loses a page |
| Kernel.BlocksAreMapped | src/kernel/heap.c:87-90 | in a mapped heap every byte of every block lies in a mapped page |
| Kernel.UserBlocksAreInReach | src/kernel/user_heap.c:50-81 | user mode reaches every byte that umalloc gave out |
| Kernel.KernelBlocksAreOutOfReach | src/kernel/paging.c:87-103 | user mode reaches no byte of the kernel heap |
| Kernel.UserFramesArePrivate | src/kernel/usermem.c:17-36 | the frame behind a page of the user program is no table, not reserved, not free, and behind no other managed page |
| Kernel.LiveBlocksPersist | src/kernel/heap.c:61-125 | over every run of the whole system a live block of either heap keeps address and size until its own pointer is freed |
| KernelMemory.Allocators.HardwareConfinesUser | src/kernel/paging.c:87-103 | the processor's walk over the words in memory grants user access exactly to the user program's pages, whose frames are theirs alone |
| KernelMemory.Allocators.Kmalloc | src/kernel/heap.c:61-101 | kmalloc on the shared memory and pager is that step, and changes no live byte of either heap |
| KernelMemory.Allocators.Kfree | src/kernel/heap.c:106-125 | kfree likewise |
| KernelMemory.Allocators.Umalloc | src/kernel/user_heap.c:50-81 | umalloc likewise |
| KernelMemory.Allocators.Ufree | src/kernel/user_heap.c:83-99 | ufree likewise |
| KernelMemory.Allocators.MapRegion | src/kernel/kernel.c:33-47 | mapping the program's page or its stack: all of it or nothing, and neither heap notices |
| KernelMemory.Allocators.UnmapRegion | src/kernel/usermem.c:58-86 | taking it away again |
| FatVolume.NextClusterReadsItsEntry | src/kernel/fat32.c:95-114 | the link of cluster c is bytes 4c to 4c + 3 of the FAT, lowest first, without the top four bits |
| Basics.WordBytes | src/kernel/fat32.c:110-110 | a word in memory is its four bytes, lowest first |
| FatFormat.ClusterOnDisk | src/kernel/fat32.c:233-238 | byte k of cluster c is byte k % 512 of sector dataStart + (c - 2) * perCluster + k / 512, for every cluster number |
| FatFormat.DiskByteInSector | src/kernel/fat32.c:234-237 | without a wrap-around of the sector number at 32 bits, in plain numbers |
| FatFormat.NextClusterOnDisk | src/kernel/fat32.c:95-114 | the link followed is that entry of the FAT on the disk, for every cluster number |
| FatFormat.FileOnDisk | src/kernel/fat32.c:233-248 | byte k * clustersize + r of a file is byte r of cluster number k of its chain on the disk |
| FatFormat.FileLength | src/kernel/fat32.c:233-248 | a file has its full size, or as many whole clusters as its chain has |
| FatFormat.EntryFields | src/kernel/fat32.c:183-191 | end mark, use, name, size, directory bit and first cluster of an entry, byte by byte |
| FatFormat.SlotOnDisk | src/kernel/fat32.c:136-150 | entry i of a cluster is bytes 32i to 32i + 31 of it on the disk |
| FatVolume.FormatName | src/kernel/fat32.c:116-132 | a printed name has at most 12 characters |
| FatVolume.FileIsPrefixOfClusters | src/kernel/fat32.c:233-248 | with enough clusters, a file is the prefix of the concatenated clusters, also on a cyclic chain |
| FatVolume.ClustersForIsCeiling | src/kernel/fat32.c:233-248 | the bound on the loop's turns is the size divided by the cluster size, rounded up |
| FatListing.ListingStep | src/kernel/fat32.c:143-158 | one more cluster appends what that cluster lists |
| FatListing.ListingGrows | src/kernel/fat32.c:177-196 | fewer clusters give a prefix of what more clusters give |
| FatListing.ListingIsComplete | src/kernel/fat32.c:143-159 | after an end mark or the chain's end more clusters add nothing |
| FatListing.StopsUnlessCyclic | src/kernel/fat32.c:143-159 | the counting loop comes to an end if and only if the chain is acyclic or holds an end mark |
| FatListing.SelfLinkNeverEnds | src/kernel/fat32.c:143-158 | a volume with a cluster that links to itself: its listing never ends |
| FatListing.ListableIff | src/kernel/fat32.c:134-201 | a directory can be listed exactly when, besides, its array fits 32-bit arithmetic |
| FatListing.ListingIsFilterMap | src/kernel/fat32.c:143-197 | a listing is the filter-map of all slots of the chain before the first end mark, in order |
| FatFormat.ListingOnDisk | src/kernel/fat32.c:134-201 | what is listed is what the entries of the chain on the disk say, up to the first that starts with 0 |
| FatFormat.WholeClusterSearched | src/kernel/fat32.c:72-89 | what the search for a raw name finds, in terms of the entries on the disk |
| FatListing.PrintedNamesAreDistinct | src/kernel/fat32.c:116-132 | different short names print differently |
| FatFormat.PrintedName | src/kernel/fat32.c:116-132 | the base, and for a name with an extension a dot and the extension, without their padding blanks |
| FatPath.ComponentsJoin | src/kernel/fat32.c:255-269 | the components of a joined path are those of its parts |
| FatPath.SlashesDoNotMatter | src/kernel/fat32.c:255-269 | repeated, leading and trailing slashes do not change the components |
| FatPath.ResolutionIsCompositional | src/kernel/fat32.c:280-333 | resolving p/q is resolving q from the directory that p resolves to |
| FatPath.ResolutionIgnoresCaseAndSlashes | src/kernel/fat32.c:271-333 | letter case and extra slashes do not change the result |
| FatFormat.ResolveOnDisk | src/kernel/fat32.c:298-331 | a component is found as an entry on the disk, and the next turn lists the directory whose first cluster its bytes give |
| FatFormat.OneName | src/kernel/fat32.c:255-269 | a name without a slash, 0x2F, is one component |
| FatFormat.UpperCase | src/kernel/fat32.c:271-278 | the letters a to z become A to Z, all else stays |
| FatFormat.RootPath | src/kernel/fat32.c:285-292 | the path "/" is the root directory, of size 0 |
| FatPath.PrintedNameIsPlain | src/kernel/fat32.c:116-132 | a printed short name is a C string without slashes that upper-casing leaves alone |
| FatPath.LookupsAgree | src/kernel/fat32.c:72-89 | looking up a printed name and searching for the raw name select the same entry |
| FatPath.ResolvingPrintedNameFindsRawName | src/kernel/fat32.c:298-319 | in a one-cluster directory path resolution and find_in_directory_cluster agree |
| FatDriver.Driver.GetNextCluster | src/kernel/fat32.c:95-114 | the FAT entry on the disk, or the end of the chain when there is no buffer; no block stays behind |
| FatDriver.Driver.FormatFatName | src/kernel/fat32.c:116-132 | writes the printed name and a NUL inside 13 bytes |
| FatDriver.Driver.CountEntries | src/kernel/fat32.c:149-156 | counts what one cluster lists and reports an end mark |
| FatDriver.Driver.FillEntries | src/kernel/fat32.c:183-194 | writes what the entries of one cluster on the disk say behind what is there |
| FatDriver.Driver.CountPass | src/kernel/fat32.c:138-159 | counts the listing of the whole chain, or of the clusters up to the first FAT read that gets no buffer |
| FatDriver.StillCounted | src/kernel/fat32.c:177-196 | while fewer entries are written than counted, the next cluster fits the count |
| FatDriver.Driver.FillPass | src/kernel/fat32.c:174-197 | never writes past the count, and ends at the count or at the first FAT read that gets no buffer |
| FatDriver.Driver.ListDirectory | src/kernel/fat32.c:134-201 | what the directory on the disk lists, NULL exactly for an empty one, if none of this call's allocations is refused; otherwise, how many clusters are counted and written, and which allocation was refused; two new heap blocks, of 8 bytes and of 28 for each entry, or none; a bound on its allocations |
| FatDriver.Driver.CopyFile | src/kernel/fat32.c:229-248 | copies the bytes of the file's clusters on the disk, in at most one turn per cluster of its size, all of them or exactly those up to the first FAT read that gets no buffer |
| FatDriver.Driver.ReadFile | src/kernel/fat32.c:212-253 | NULL in exactly the cases the code names; otherwise the file's bytes from the disk as far as its FAT reads got a buffer, and a NUL; one new heap block of its size and one more byte, or none |
| FatDriver.Driver.SearchCluster | src/kernel/fat32.c:72-89 | the first listed entry with the wanted name before the end mark |
| FatDriver.Driver.FindInDirectoryCluster | src/kernel/fat32.c:54-93 | cluster and kind as the entry on the disk says, and nothing found when the buffer is refused; no block stays behind |
| FatDriver.Driver.GetNextPathNode | src/kernel/fat32.c:255-269 | the next component in the buffer and the rest of the path, or NULL |
| FatDriver.Driver.NormalizePathToken | src/kernel/fat32.c:271-278 | the string in upper case, in place |
| FatDriver.Driver.ResolvePath | src/kernel/fat32.c:280-333 | terminates with the specified result if none of this call's own allocations is refused, and never changes the live heap blocks |
| KeyRing.StepKeepsInv | src/kernel/keyboard.c:19-39 | every single step of producer or consumer keeps the ring consistent |
| KeyRing.NothingLostOrReordered | src/kernel/keyboard.c:19-39 | under every interleaving accepted = delivered ++ pending, with at most 255 pending |
| KeyRing.RunsFromEmpty | src/kernel/keyboard.c:14-16 | the same from the empty ring that the program starts with |
| KeyRing.DroppedOnlyWhenFull | src/kernel/keyboard.c:22-26 | a key is dropped exactly when 255 are pending |
| KeyRing.SlotBeingReadIsSafe | src/kernel/keyboard.c:36-37 | no producer step writes the slot that is being read or moves the tail |
| KeyRing.EnqueueAppends | src/kernel/keyboard.c:19-27 | uninterrupted, the handler appends to a queue bounded by 255 |
| KeyRing.DequeueRemovesFirst | src/kernel/keyboard.c:31-39 | uninterrupted, the reader takes the oldest key |
| Keyboard.Ring.EnqueueKey | src/kernel/keyboard.c:19-27 | the in-place code performs the protocol's producer steps |
| Keyboard.UpperScanCodes | src/kernel/keyboard.c:5-7 | the characters of the digit and Q rows |
| Keyboard.LowerScanCodes | src/kernel/keyboard.c:8-9 | the characters of the A and Z rows and of the space bar |
| Keyboard.SilentScanCodes | src/kernel/keyboard.c:5-10 | exactly the codes of modifier keys and those beyond the table have no character |
| Keyboard.Ring.GetChar | src/kernel/keyboard.c:31-39 | the oldest key; 0 exactly when the ring is empty |
| Keyboard.Ring.Handler | src/kernel/keyboard.c:51-65 | only presses of keys with a character are enqueued |
| Keyboard.InterruptedPollIsAtomic | src/kernel/keyboard.c:31-39 | with any number of interrupts before a read and between its accesses: while a key waits they all come first, otherwise those behind the look come after |
| Keyboard.CutsAreSchedule | src/kernel/keyboard.c:19-49 | any placement of interrupts inside and between polls comes to the same handlers in the same order between polls only |
| Keyboard.Ring.InterruptedGetChar | src/kernel/keyboard.c:31-39 | the in-place code with handlers run between its accesses performs the protocol's steps |
| Keyboard.RoomForAll | src/kernel/keyboard.c:19-27 | interrupts for which there is room drop nothing and keep the order |
| Keyboard.KeepingUp | src/kernel/keyboard.c:42-49 | with at most one key before each poll exactly the typed characters are delivered |
| Keyboard.Ring.GetCharBlocking | src/kernel/keyboard.c:42-49 | polls, with interrupts arriving between and inside the polls, until a key is there, and delivers that key |
| Keyboard.ReadLine | src/kernel/keyboard.c:68-98 | with interrupts between and inside its polls: the buffer is the fold of the keys that the ring delivered to this call, zero-filled; accepted keys stay delivered or queued; it is done exactly when these keys complete a line |
| Keyboard.LineIsPlain | src/kernel/keyboard.c:78-96 | Enter and Backspace never end up in the line, which stays within its capacity |
| Keyboard.PlainTextIsKept | src/kernel/keyboard.c:74-98 | plain text and Enter give that text, cut at the capacity |
| Keyboard.BackspaceUndoes | src/kernel/keyboard.c:84-90 | Backspace undoes the key before it if and only if that key did not fill the line |
| Keyboard.BackspaceComesTooLate | src/kernel/keyboard.c:74-90 | a key that fills the line, and a Backspace that stays in the ring |

## Left out

- Port I/O, ATA polling, PIC setup and the TLB flush: hardware effects. The disk is a function that does not change between reads, and reading a sector does not fail.
- GDT, IDT, TSS, assembly stubs, task switching, video and logging: constant tables, register plumbing and user interface.
- `init_fat32`: its geometry is a parameter; any sectors-per-cluster value from 0 to 255 is covered.
- The byte layout of Multiboot2 tags: the memory map is a sequence of tags with their regions.
- Sizes, addresses and pointers outside the callers' obligations: wrapping request sizes, growth past the heap's address range, double frees, path components longer than 12 bytes, boot maps whose frames the bitmap has no bit for, a framebuffer that wraps around the end of the address space or lies in a heap's range.
- Frames above 4 GiB: the boot phase counts and frees them, but the pager is given a bitmap of at most 2^20 frames, because its physical addresses are 32 bits wide.
- Whether an access to an unmapped heap page faults: the heap's bytes are one array, and which of its pages are mapped is stated beside it.
- The heap blocks of the FAT32 driver: the driver sees kmalloc as a pool that returns NULL or a fresh block, which is what `HeapRuns.MallocGivesFreshPointer` and `HeapRuns.FreeTakesPointer` prove of the heap; its buffers are arrays beside that pool, not bytes of the heap.
- How long `keyboard_get_char_blocking` spins: the schedule of interrupts is any finite list, with the batches before each poll and between its accesses; a call whose line is not complete at its end is still waiting.
- Words of the page directory and tables are split by division instead of by bit masks; callers pass attribute flags below 4096.
- Bytes that the code itself leaves unwritten: the array's tail after a FAT read without a buffer, and the end of a file buffer whose chain ends before the file's size.
- FatDriver.Driver.ResolvePath: it requires every directory chain of the volume to end, unless those on the path do and none of as many allocations as the walk can take is refused, because after a refused allocation the code may follow an arbitrary record.
- Pager.AddressSpace.FreePage: not called for frame 0 or for a frame that holds a page table, which the C function would free as well; nothing in the modelled code does so.
