# A verified model of the Tempest kernel's memory managers, ext2 reader and library pieces

The project models, in Dafny, the parts of the kernel that hold most of its state and pointer
structure, and proves what they keep over whole runs:

* **Heap** (`HeapBlocks`, `HeapRuns`, `HeapSplits`, `HeapLayout`, `HeapHeaders`, `KernelHeap`,
  `HeapDefrag`, `HeapDefragOrder`). The heap is an array of bytes; the 32-byte headers are encoded
  in it, and `kmalloc`, `kfree`, `kcalloc`, `krealloc` and `heap_defrag` store into it field by
  field. Each is proved against a function on the list of blocks in address order, and the theorems
  about runs are about that list.
* **Page frames and page tables** (`PageFrames`, `PageTables`, `PageAccess`, `VirtualMemory`).
  Physical memory is an array of 64-bit words; map, unmap and translate walk four levels of tables
  in it (AMD64 Architecture Programmer's Manual, Volume 2, section 5.3) and refine a partial map
  from 36-bit page numbers to physical pages.
* **Pools** (`Pigeonhole`, `MemoryPool`, `PoolLayout`, `SmartAlloc`, `SmartAllocLaws`). Array-stack
  pools over the heap and the size-class dispatch; their objects and the heap's never overlap.
* **ext2 reader** (`BlockDevice`, `Ext2Layout`, `Ext2Blocks`, `Ext2Files`, `Ext2Dirs`, `Ext2Paths`,
  `Ext2Scarce`, `Ext2Records`, `Ext2Example`). The image is an immutable byte sequence; any device
  read may fail at any time. Block buffers come from the kernel heap above. `Ext2Layout` says what
  an image means (block tree, file contents, directory entries, path walk), with the layout of "The
  Second Extended File System: Internal Layout"; the methods are proved to compute it, and to
  restore the heap on every path.
* **Paths** (`VfsPath`, `Vfs`, `VfsCwd`, `VfsLaws`), the **PCG generator** (`Lcg`, `Pcg`,
  `PcgSeeds`), the **keyboard ring** (`Keyboard`, `KeyboardLaws`), **numbers** (`Numerals`,
  `Parsing`, `NumberForms`), the **bounded formatter** (`Format`, `FormatLaws`), and `kmemset`,
  `kmemcpy` and `kstrtok` (`KString`, `Tokens`, `TokenLaws`). `Machine`, `MachineLaws` and `Wrappers`
  hold what all of them share.

Methods are proved against functions, and the functions are pinned in turn: by laws over all inputs
that do not mention them, by round trips, and by examples worked out to the byte.

## Assumptions

* The frame records and the heap are separate storage, although the code places both at
  `KERNEL_HEAP_BASE` (`sys/kern/memory/memory.c:108`, `sys/kern/memory/memory.c:380`).
* The wrap of `kmalloc`'s sum for sizes within 39 of 2^64 is modelled, and `HeapRuns.LargeEnough`
  says exactly what it costs; `kcalloc` and `krealloc` ask only that what they then clear or copy
  fits the granted block, and `pool_create` that the sizes of a pool it creates did not wrap.
* Pointers passed to `kfree` are null or point at the payload of some block; those passed to
  `krealloc` are live. The table trees share no table and use 4 KiB pages, as a root set by
  `vm_switch_pagetable` does. `vm_unmap_page` frees what it unmaps, so it is used while each mapped
  frame is neither free nor a table, and is mapped once; which calls keep that is proved. Physical
  address plus `KERNEL_BASE` is a direct look-up, and CR3 loads and TLB invalidation do nothing.
* A volume is mounted: block size 1024, 2048 or 4096, a positive number of inodes per group, and the
  group descriptors in memory. What lies behind the descriptor table or behind a block buffer may
  read as anything.
* Names in directory entries are reported with all their bytes; a C caller of the listing sees a
  name with an embedded NUL only up to it.
* Signed overflow, undefined in C, wraps in the model of `kstrtol`, and negating the least integer
  in `kvsnprintf` gives its absolute value.

## Where the code differs from what its users may expect

* `kget_file_block` returns 0 for a failed read or allocation as well as for a hole, so `ext2_read`
  delivers zeros for all but the direct blocks when only its own block buffer fits
  (`Ext2Files.Ext2Read`); that is the file exactly when the rest is zeros (`Ext2Files.OneBuffer`),
  and `Ext2Scarce.ZeroForSeven` is a heap and a file for which it is not.
* `heap_defrag` is said to move free blocks to the end of the list, and moves them forward, behind
  the first of them (`HeapDefragOrder.DefragOrder`).
* `smart_alloc` turns to neither a larger pool nor the heap when a pool is empty
  (`SmartAllocLaws.PoolOnly`).
* `ext2_open` finds files that `ext2_list` does not show (`Ext2Records.FoundNotListed`).
* `ext2_open` of "/" reads the root's inode into the caller's handle, so a failure can leave a part
  of it there (`Ext2Paths.HandleUntouched`).
* `kstrtol` marks the lowest representable numbers as out of range unless the base is a power of two
  (`Parsing.NegativeExact`, `Parsing.Refused`). Below that it goes on with the digits: in even bases
  one more digit is returned itself and two more give LONG_MAX, so minus twenty-one nines is read as
  LONG_MAX (`Parsing.PastLongMin`, `Parsing.NinesGoPositive`). `Parsing.EvenStandard` and
  `Parsing.OddStandard` say exactly when the result is what section 7.22.1.4 of C11 asks.
* `%s` passes at most 31 characters, so relative paths are resolved wrongly beyond that
  (`VfsCwd.ResolveNamesExact`).
* The page-table walk does not mask the no-execute bit (`VirtualMemory.NoExecuteMistranslates`).
* The cut of `ext2_read` fails for lengths that wrap the position (`Ext2Layout.WantedIsMin`).

## Model

| member | source | states |
|---|---|---|
| `KernelHeap.KernelHeap.constructor` | sys/kern/memory/memory.c:378-391 | heap_init writes one free block's header; the bytes spell a linked list that is exactly that block |
| `KernelHeap.KernelHeap.Kmalloc` | sys/kern/memory/memory.c:393-432 | on the heap's bytes: the returned pointer and the whole new block list are those of first fit on the list; headers, links and heap_used stay right; no live payload byte changes |
| `KernelHeap.KernelHeap.SplitBlock` | sys/kern/memory/memory.c:405-421 | the seven stores of a split give exactly the headers of the two blocks and touch no other header and no live payload |
| `KernelHeap.KernelHeap.Kfree` | sys/kern/memory/memory.c:466-495 | for null and every pointer to a block's payload: the new block list is the old one with that block free and merged both ways; live payloads keep their bytes |
| `KernelHeap.KernelHeap.AbsorbStores` | sys/kern/memory/memory.c:478-494 | the stores of a merge give the headers of the joined block and remove the swallowed one |
| `KernelHeap.KernelHeap.Kcalloc` | sys/kern/memory/memory.c:434-442 | as kmalloc on the product modulo 2^64, and that many payload bytes are zero; asks only that a granted block holds them |
| `KernelHeap.KernelHeap.Krealloc` | sys/kern/memory/memory.c:444-464 | result and list for all four cases; the object at the new address starts with every byte of the old block, all other objects keep theirs; asks only that the bytes of a block that moves fit the granted one |
| `HeapBlocks.AllocKeeps` | sys/kern/memory/memory.c:401-431 | an allocation keeps the tiling, the sizes' alignment and the absence of two free neighbours, and makes exactly one block live, at least as large as needed |
| `HeapBlocks.FreeKeeps` | sys/kern/memory/memory.c:466-495 | a free keeps them too, and exactly the named block stops being live; on a free or unknown block nothing happens |
| `HeapBlocks.Determined` | sys/kern/memory/memory.c:405-494 | eager splitting and merging are canonical: two well-formed lists with the same live blocks are the same list |
| `HeapHeaders.TakeLinked` | sys/kern/memory/memory.c:405-424 | the header stores of an allocation leave a doubly linked list of the new blocks in address order |
| `HeapHeaders.AbsorbLinked` | sys/kern/memory/memory.c:478-494 | the header stores of a merge leave a doubly linked list of the new blocks in address order |
| `HeapRuns.EveryRun` | sys/kern/memory/memory.c:378-495 | after every run of kmalloc, kcalloc, krealloc and kfree the list is well formed and used + free + headers is the heap size |
| `HeapRuns.Accounting` | sys/kern/memory/memory.c:378-391 | used payload, free payload and 32 bytes per block add up to the region a list tiles |
| `HeapRuns.RunsAgree` | sys/kern/memory/memory.c:393-495 | two runs that leave the same objects live leave the same heap |
| `HeapRuns.Drained` | sys/kern/memory/memory.c:466-495 | once every object is freed the heap is heap_init's single block |
| `HeapRuns.FreeUndoesMalloc` | sys/kern/memory/memory.c:401-495 | kfree right after kmalloc restores the block list exactly |
| `HeapRuns.ScopedBuffer` | sys/kern/memory/memory.c:401-495 | a buffer taken around any stretch that restores the heap leaves no trace |
| `HeapRuns.LiveApart` | sys/kern/memory/memory.c:393-432 | two live blocks never overlap, headers included |
| `HeapRuns.OthersStay` | sys/kern/memory/memory.c:393-495 | a request moves, resizes or reuses no live object it does not name |
| `HeapRuns.OthersSurvive` | sys/kern/memory/memory.c:393-495 | the same over every run |
| `HeapRuns.LargeEnough` | sys/kern/memory/memory.c:399-426 | a granted block is as large as asked exactly when size + 39 does not reach 2^64 |
| `HeapRuns.CopyFitsPlainly` | sys/kern/memory/memory.c:444-464 | the bytes krealloc copies fit the granted block whenever size + 39 does not reach 2^64 |
| `HeapRuns.FailsOnlyWhenFull` | sys/kern/memory/memory.c:394-432 | kmalloc returns null exactly when the size is 0 or no free block has the rounded size |
| `HeapSplits.SplitExactly` | sys/kern/memory/memory.c:399-426 | the first free block that is large enough is cut to the size looked for, with a free block behind it, exactly when at least 96 bytes would remain; otherwise it is granted whole; no other block changes |
| `HeapSplits.GrantedAtMost` | sys/kern/memory/memory.c:399-426 | a granted block exceeds what was asked for by 32 to 127 bytes |
| `HeapSplits.ReallocCases` | sys/kern/memory/memory.c:444-464 | krealloc of a live object: freed for size 0, left alone if large enough or if nothing larger is to be had, and otherwise moved to one new block with the old one freed |
| `HeapSplits.HoleIsShared` | sys/kern/memory/memory.c:393-495 | a run worked out: the hole that a freed kmalloc(1000) leaves takes two kmalloc(100), one at its start and one 168 bytes on |
| `HeapSplits.HeaderBytes` | sys/kern/memory/memory.h:89-94 | the bytes of a header hold its fields at offsets 0, 8, 16 and 24, least significant byte first |
| `HeapDefrag.HeapDefrag` | sys/kern/memory/memory.c:497-532 | heap_defrag ends with a doubly linked list of the same blocks in the order allocated prefix, first free block, other free blocks backwards, other allocated blocks; heap_used stays right and live payloads keep their bytes |
| `HeapDefrag.DefragPermutes` | sys/kern/memory/memory.c:497-532 | that order is a permutation of the blocks, sizes and flags included |
| `HeapDefragOrder.DefragOrder` | sys/kern/memory/memory.c:497-532 | two blocks change places exactly when a free block stands in front of both and the second of them is free: free blocks gather, backwards, behind the first of them, and the other blocks keep their order |
| `KString.Kmemset` | sys/lib/kstring/kmemset.c:19-62 | head bytes, words and tail bytes together are n copies of the byte, and nothing else changes, whatever the alignment |
| `KString.PatternBytes` | sys/lib/kstring/kmemset.c:34-40 | the or-and-shift pattern is the byte eight times |
| `KString.Kmemcpy` | sys/lib/kstring/kmemcpy.c:19-34 | the destination gets the source's old bytes also when the regions overlap, and nothing else changes |
| `PageFrames.FrameAllocator.constructor` | sys/kern/memory/memory.c:118-140 | exactly the frames from number 4096 on are on the free list, each once, the last frame first; frame i lies at 4096 * i and no frame is referenced |
| `PageFrames.FrameAllocator.AllocatePageFrame` | sys/kern/memory/memory.c:149-166 | takes the head of the free list, or none if it is empty; the free list stays a duplicate-free chain of exactly the frames marked free |
| `PageFrames.FrameAllocator.FreePageFrame` | sys/kern/memory/memory.c:168-185 | drops a reference, with wrap-around at 0, and puts the frame in front of the free list exactly when the last one goes; free frames are ignored |
| `PageFrames.DroppedCounts` | sys/kern/memory/memory.c:173-184 | a dropped reference frees the frame exactly when it was the last of a positive count; a count of 0 becomes 2^32 - 1; no other record changes |
| `PageFrames.FrameAllocator.GetPageFrame` | sys/kern/memory/memory.c:192-199 | the record found is the one whose physical address is that of the page the address lies in; none only if no record has it |
| `PageTables.WalksMeet` | sys/kern/memory/memory.c:331-363 | in a table tree that shares no table, two walks that reach the same table took the same indices |
| `PageTables.OneLeaf` | sys/kern/memory/memory.c:331-363 | a leaf entry belongs to the walk of one page only |
| `PageTables.AddTable` | sys/kern/memory/memory.c:221-275 | hanging a cleared frame into an empty slot keeps the tree and changes no page's translation |
| `PageTables.SetLeaf` | sys/kern/memory/memory.c:276-279 | storing a leaf entry changes the translation of exactly one page |
| `PageTables.LeafEntry` | sys/kern/memory/memory.c:276-279 | the or of address and flags is present by the lowest flag and points at the address when the flags stay below 0x1000 |
| `PageAccess.EveryEntry` | sys/kern/memory/memory.c:221-275 | the tables on the way to a page let writes, or user accesses, pass exactly when each of the three entries on the walk does |
| `PageAccess.MappedAccess` | sys/kern/memory/memory.c:276-279 | a page mapped with certain flags may be written, or used by users, exactly when the flags have bit 1, or bit 2, and all its tables let it |
| `PageAccess.BitsOfFlags` | sys/kern/memory/memory.c:276-279 | an address below 2^63 adds nothing to the attributes that the flags give a page |
| `PageAccess.LeafEntryBits` | sys/kern/memory/memory.c:276-279 | the or of address and flags has the low twelve bits of the flags, and bit 63 of either |
| `PageAccess.AddStates` | sys/kern/memory/memory.c:221-275 | hanging a present, writable, cleared table into an empty slot changes no page's attributes and no permission that is in force |
| `PageAccess.SetStates` | sys/kern/memory/memory.c:276-279 | storing a leaf entry changes the attributes of exactly one page and no table's permission |
| `VirtualMemory.IndexBits` | sys/kern/memory/memory.c:216-219 | the four shift-and-mask indices are the nine-bit digits of the page number |
| `VirtualMemory.VirtualMemory.VmMapPage` | sys/kern/memory/memory.c:210-280 | for any frame: succeeds exactly when both addresses are aligned and the free frames cover the missing tables; then exactly one page's translation changes, and that page gets the low twelve bits and bit 63 of the flags as its attributes; otherwise none, whatever tables were created; what the existing tables permit stays, and new ones permit writing; the ownership of frames is kept exactly when the frame was no table, not free and not mapped elsewhere; the records of the new tables count one reference and all others stay |
| `VirtualMemory.VirtualMemory.VmUnmapPage` | sys/kern/memory/memory.c:282-328 | succeeds exactly when the page is mapped, removes that translation and its attributes only, and drops one reference to the frame, which is freed with the last; all other records stay |
| `VirtualMemory.VirtualMemory.VmGetPhysicalAddr` | sys/kern/memory/memory.c:330-363 | the mapped physical page plus the offset in the page, 0 when unmapped |
| `VirtualMemory.VirtualMemory.MemoryMapPhysical` | sys/kern/memory/memory.c:583-597 | for any flags and any size: every page of the range, from one fixed address on, maps what its address and the flags say and gets the flags' attributes; or, on a misaligned address, nothing is mapped; or the pages in front of the first one that lacks more tables than frames are free are mapped and 0 is returned; no other page changes, and of the records only those of the new tables; ownership is kept when every page could be mapped |
| `VirtualMemory.Contiguous` | sys/kern/memory/memory.c:586-594 | with plain flags and no wrap-around the range translates contiguously |
| `VirtualMemory.PageCountIs` | sys/kern/memory/memory.c:586-587 | the pages of a range are the fewest that hold its bytes, except that the last 4095 sizes wrap to none |
| `VirtualMemory.VirtualMemory.MemoryUnmapPhysical` | sys/kern/memory/memory.c:599-606 | exactly the pages of the range stop being mapped, also when it runs over the end of the address space; all others keep translation and attributes; exactly the frames that were mapped in the range lose one reference, and those with one become free |
| `VirtualMemory.VirtualMemory.MapAndUnmap` | sys/kern/memory/memory.c:583-606 | mapping and unmapping a range restores every page's translation |
| `VirtualMemory.VirtualMemory.AllocateFrame` | sys/kern/memory/memory.c:149-166 | a frame that anyone allocates is no table, not free and mapped nowhere, so it may be mapped at any page; the tables and the ownership of frames stay as they are |
| `VirtualMemory.VirtualMemory.FreeFrame` | sys/kern/memory/memory.c:168-185 | a frame that anyone frees leaves tables and ownership right exactly unless it was the last reference to a table or to a mapped frame |
| `VirtualMemory.VirtualMemory.BorrowFrame` | sys/kern/memory/memory.c:149-328 | allocating a frame, mapping it and unmapping it again restores every translation and leaves the frame in front of the free list |
| `VirtualMemory.MapOwned` | sys/kern/memory/memory.c:210-280 | one page mapped, and tables taken from the free frames, keep the ownership rules exactly when the frame was mappable |
| `VirtualMemory.NoExecuteMistranslates` | sys/kern/memory/memory.c:276-279 | with the no-execute bit in the flags the page translates to a wrong frame: right exactly without it |
| `Lcg.Returns` | sys/lib/kunistd/krand.c:53-62 | an affine step with multiplier 1 mod 4 and odd increment returns modulo 2^k exactly after multiples of 2^k steps |
| `Lcg.FullPeriod` | sys/lib/kunistd/krand.c:53-62 | two states of the 64-bit generator coincide exactly when 2^64 divides their distance |
| `Lcg.EveryState` | sys/lib/kunistd/krand.c:53-62 | every 64-bit state is met once within a period |
| `Pcg.UnmixMix` | sys/lib/kunistd/krand.c:58-61 | for fixed top bits the xorshift is undone |
| `Pcg.MixUnmix` | sys/lib/kunistd/krand.c:58-61 | and it is onto |
| `Pcg.UnrotateRotate` | sys/lib/kunistd/krand.c:60-61 | each rotation is undone |
| `Pcg.RotateUnrotate` | sys/lib/kunistd/krand.c:60-61 | and it is onto |
| `Pcg.OneState` | sys/lib/kunistd/krand.c:58-61 | for any five top and 27 low bits exactly one state gives a given output |
| `Pcg.Equidistributed` | sys/lib/kunistd/krand.c:53-62 | over a full period every 32-bit output occurs exactly 2^32 times |
| `Pcg.SeededPeriod` | sys/lib/kunistd/krand.c:33-43 | for every seed and sequence number: period 2^64, all states visited, outputs equidistributed |
| `Pcg.IncrementOdd` | sys/lib/kunistd/krand.c:33-37 | ksrand32 makes the increment odd for every sequence number |
| `Pcg.Generator.Ksrand32` | sys/lib/kunistd/krand.c:33-43 | leaves the state and increment of the seeding steps |
| `PcgSeeds.SeedAdds` | sys/lib/kunistd/krand.c:37-41 | the seed's share of the state is the multiplier times the seed, added modulo 2^64 to what seed 0 leaves |
| `PcgSeeds.SeedsDiffer` | sys/lib/kunistd/krand.c:37-41 | two seeds leave the same state exactly when they are equal |
| `PcgSeeds.SeedFound` | sys/lib/kunistd/krand.c:37-41 | every state is what exactly one seed leaves, which is computed from the multiplier's inverse |
| `PcgSeeds.SequencesDiffer` | sys/lib/kunistd/krand.c:36-36 | two sequence numbers give one increment exactly when they agree in the lower 63 bits |
| `PcgSeeds.InitSequenceIs` | sys/lib/kunistd/krand.c:45-51 | without a seed, time stamp and sequence number differ by a constant pattern of bits |
| `PcgSeeds.SeededDemo` | sys/lib/kunistd/krand.c:33-43 | ksrand32(42, 54) leaves the state 0x39EBEB57F02D807E |
| `PcgSeeds.FirstDraw` | sys/lib/kunistd/krand.c:33-62 | and the first number drawn after it is 0x427AF94B |
| `MachineLaws.BitwiseOperations` | sys/lib/kunistd/krand.c:36-61 | each bit of the or, and of the exclusive or, is that of the two operands' bits |
| `MachineLaws.AsIntIs` | sys/fs/ext2/ext2.c:655-655 | the conversion to int gives the number from -2^31 to 2^31 - 1 with the same low 32 bits |
| `Pcg.Generator.KURand32` | sys/lib/kunistd/krand.c:53-62 | returns the output of the old state and advances it; seeds first if nothing did |
| `Pcg.Generator.Krand32` | sys/lib/kunistd/krand.c:64-73 | the same 32 bits, reread as signed |
| `Pcg.Generator.DrawMany` | sys/lib/kunistd/krand.c:33-62 | the draws after a seeding are the outputs along the orbit the period theorem is about |
| `MemoryPool.NotFull` | sys/kern/memory/memory_pool.c:105-109 | pigeonhole: while some block is not on the stack of distinct blocks, the stack is not full |
| `MemoryPool.MemoryPool.Create` | sys/kern/memory/memory_pool.c:52-63 | the stack holds the address of every block, from the first to the last, so all are distinct, aligned and in range |
| `MemoryPool.MemoryPool.PoolAlloc` | sys/kern/memory/memory_pool.c:66-77 | hands out the top of the stack, a block not handed out before, or null when empty |
| `MemoryPool.MemoryPool.PoolFree` | sys/kern/memory/memory_pool.c:79-110 | puts back exactly blocks that are handed out; null, foreign, misaligned and free pointers change nothing; the last test never rejects a block |
| `MemoryPool.FullPool` | sys/kern/memory/memory_pool.c:58-63 | a pool with a full stack has handed out nothing |
| `MemoryPool.PoolCreate` | sys/kern/memory/memory_pool.c:23-64 | null exactly when a size is 0 or one of the three allocations (the struct's 40 bytes, the chunk, 8 bytes for each block) fails, and then the heap is as before; otherwise the pool lies where these allocations are, on three new live heap blocks, with all its blocks on the stack in ascending order; all other live blocks keep their bytes; asks only that the sizes of a pool that is created did not wrap |
| `MemoryPool.ChunkHolds` | sys/kern/memory/memory_pool.c:23-64 | the blocks of a pool lie in its chunk exactly when the product of count and size stays 39 below 2^64 |
| `MemoryPool.PoolDestroy` | sys/kern/memory/memory_pool.c:112-125 | exactly the pool's three heap blocks stop being live; all others keep their bytes |
| `MemoryPool.CreateAndDestroy` | sys/kern/memory/memory_pool.c:23-125 | creating and destroying a pool restores the heap exactly |
| `SmartAlloc.ObjectsApart` | sys/kern/memory/memory_pool.c:66-110 | objects from the three pools and the heap never overlap |
| `SmartAlloc.SmartAllocGrants` | sys/kern/memory/memory_pool.c:175-186 | a granted object overlaps no other and every other object is what it was; it has 16, 64 or 256 bytes up to these sizes, and above is as large as asked unless kmalloc's sum wraps; null changes nothing |
| `SmartAlloc.SmartFreeReleases` | sys/kern/memory/memory_pool.c:188-199 | exactly the object of that size class at that address is given up |
| `SmartAlloc.SmartFreeUndoesSmartAlloc` | sys/kern/memory/memory_pool.c:175-199 | freeing what was just allocated restores pools and heap exactly |
| `SmartAlloc.CallExchanges` | sys/kern/memory/memory_pool.c:175-199 | every call, of the pools or of kmalloc, kcalloc, krealloc and kfree beside them, takes away exactly the object it gives up and adds exactly the one it grants |
| `SmartAlloc.EverySmartRun` | sys/kern/memory/memory_pool.c:175-199 | in every run that mixes smart_alloc and smart_free with direct kmalloc, kcalloc, krealloc and kfree live objects never overlap, and an object no call gives up stays |
| `SmartAlloc.SmartAllocator.InitMemoryPools` | sys/kern/memory/memory_pool.c:132-142 | on a heap without allocations all three pools come to exist, full, with 1024 blocks of 16 bytes, 512 of 64 and 128 of 256 at known addresses; the heap's block list is the nine blocks of the pools and one free one; no caller owns anything |
| `SmartAlloc.SmartAllocator.SmartAlloc` | sys/kern/memory/memory_pool.c:175-186 | the class refines the allocation step of the abstract state; every live block keeps its bytes |
| `SmartAlloc.SmartAllocator.SmartFree` | sys/kern/memory/memory_pool.c:188-199 | the class refines the release step of the abstract state; every block still live keeps its bytes |
| `SmartAllocLaws.PoolOnly` | sys/kern/memory/memory_pool.c:144-186 | up to 256 bytes smart_alloc returns null exactly when the pool of that size class is missing or empty, turns to nothing else, and gives the block that was freed last |
| `SmartAllocLaws.FirstObjects` | sys/kern/memory/memory_pool.c:132-186 | the first object of each size class after init_memory_pools, and the first one from the heap, by address |
| `Tokens.Tokenizer.Start` | sys/lib/kstring/kstrtok.c:22-55 | returns the first component of the string, keeps the others for later calls, stores one NUL only |
| `Tokens.Tokenizer.Next` | sys/lib/kstring/kstrtok.c:22-55 | the same from the resume pointer on; earlier tokens keep their text |
| `Tokens.AllTokens` | sys/lib/kstring/kstrtok.c:22-55 | calling until null yields all components in order |
| `TokenLaws.Divided` | sys/lib/kstring/kstrtok.c:22-55 | a delimiter separates: the components in front of it and those behind it are all, for any set of delimiters |
| `TokenLaws.Undivided` | sys/lib/kstring/kstrtok.c:22-55 | a string without delimiters is its only component, and the empty string has none |
| `BlockDevice.BlockDevice.ReadSectors` | sys/fs/ext2/ext2.c:29-39 | the device callback: the sectors' bytes on success, anything in their place on failure |
| `Ext2Blocks.Reader.KreadBlock` | sys/fs/ext2/ext2.c:42-47 | the block's bytes in the buffer; no other live payload changes |
| `Ext2Blocks.Reader.KgetFileBlock` | sys/fs/ext2/ext2.c:434-591 | leaf k of the file's block tree, 0 beyond the last; 0 also when a read or an allocation fails, which no direct block needs; the heap is restored on every path |
| `Ext2Layout.LeavesCount` | sys/fs/ext2/ext2.c:454-587 | a pointer of depth d has b^d leaves |
| `Ext2Layout.LeafBelow` | sys/fs/ext2/ext2.c:472-525 | leaf i*n+j lies below entry i, as its leaf j |
| `Ext2Layout.FileLeafAt` | sys/fs/ext2/ext2.c:438-529 | the direct, single, double and triple ranges partition the block numbers |
| `Ext2Blocks.ThreeDigits` | sys/fs/ext2/ext2.c:538-547 | quotients and remainders give three in-range indices that determine the block number |
| `Ext2Blocks.Reader.KreadInode` | sys/fs/ext2/ext2.c:221-270 | the inode's 128 bytes in its group's table go into the record, also across two blocks; error codes for inode 0, no memory and failed reads; a failed call leaves the record as it was, or with the inode's first part when only the second read failed |
| `Ext2Blocks.TableStraddles` | sys/fs/ext2/ext2.c:249-267 | an inode's bytes in the table are its bytes in the two blocks from the one it starts in |
| `Ext2Layout.WantedIsMin` | sys/fs/ext2/ext2.c:599-604 | the cut length is the smaller of the two exactly when pos + len does not wrap |
| `Ext2Layout.ContentsSlice` | sys/fs/ext2/ext2.c:613-652 | a stretch inside block k of the file's content is that stretch of the block, zeros for a hole |
| `Ext2Files.Ext2Read` | sys/fs/ext2/ext2.c:593-656 | fills the buffer with bytes of the file, or zeros behind its direct blocks, and touches nothing else; when no read fails they are exactly the file's up to its end or that of the block tree, or those of its direct blocks and zeros behind if only one buffer fits; moves the position by as many; returns the count, the end of the block tree, or the I/O error, in every case; restores the heap on every path |
| `Ext2Files.OneBuffer` | sys/fs/ext2/ext2.c:613-652 | with one buffer the read is exact if and only if the file's bytes behind the direct blocks are zeros |
| `Ext2Files.DirectAlwaysExact` | sys/fs/ext2/ext2.c:613-652 | whatever fails, what a read delivers out of the direct blocks is what the file holds there |
| `Ext2Scarce.ScarceHeap` | sys/fs/ext2/ext2.c:607-609 | after one allocation a heap can have room for one block buffer and not for two |
| `Ext2Scarce.ZeroForSeven` | sys/fs/ext2/ext2.c:454-476 | on that heap a read of the last byte of a certain file succeeds and delivers 0 for 7 |
| `Ext2Layout.DirectContents` | sys/fs/ext2/ext2.c:434-591 | without its indirect pointers an inode holds the same bytes in the direct blocks and zeros behind |
| `Ext2Files.ReadIsAbstract` | sys/fs/ext2/ext2.c:593-656 | an undisturbed read is the abstract read of the file's bytes |
| `Ext2Layout.ChunksCompose` | sys/fs/ext2/ext2.c:593-656 | reading in any sequence of chunks gives the bytes and the position of one read |
| `Ext2Records.Words` | sys/fs/ext2/ext2.h:85-125 | the model's 16-bit and 32-bit loads read little-endian numbers |
| `Ext2Records.LowByteFirst` | sys/fs/ext2/ext2.h:85-125 | a literal word and half word, read and encoded |
| `Ext2Records.FieldsBack` | sys/fs/ext2/ext2.h:97-116 | of an inode encoded field by field, the mode, the size with its high half, and all fifteen block pointers are read back |
| `Ext2Records.DirectoryModes` | sys/fs/ext2/ext2.c:207-207 | a mode 0x4000 + p is a directory and 0x8000 + p is none, for every p below 0x1000; exactly bit 14 decides |
| `Ext2Records.BlockPlace` | sys/fs/ext2/ext2.c:42-47 | block i lies i block sizes behind the first byte of the partition |
| `Ext2Records.InodePlace` | sys/fs/ext2/ext2.c:226-238 | inode numbers count from 1 through the groups, and inodes are one stride, by default 128 bytes, apart |
| `Ext2Records.TreeSizes` | sys/fs/ext2/ext2.c:438-529 | the three trees of a file hold b, b^2 and b^3 blocks for b = 256, 512 or 1024 |
| `Ext2Dirs.KprocessDirBlock` | sys/fs/ext2/ext2.c:272-294 | one callback for every used record up to the first that is not accepted, whatever lies behind the buffer |
| `Ext2Dirs.SearchBlock` | sys/fs/ext2/ext2.c:178-194 | on every block in which the record lengths lead the search nowhere outside, the inode of the first used record of that name, 0 if there is none |
| `Ext2Dirs.Lookup` | sys/fs/ext2/ext2.c:162-199 | the same over a directory's direct blocks; the buffer is freed on every path |
| `Ext2Layout.CleanScanned` | sys/fs/ext2/ext2.c:178-194 | in a directory whose blocks scan cleanly the search stays inside and sees exactly the entries that the listing reports |
| `Ext2Layout.ReportedRaw` | sys/fs/ext2/ext2.c:272-294 | on any block the listing reports the first of the entries that the search sees |
| `Ext2Layout.FirstNamedMeaning` | sys/fs/ext2/ext2.c:183-191 | the search fails exactly when no entry has the name, and finds the first that has |
| `Ext2Records.RecordsBack` | sys/fs/ext2/ext2.c:272-294 | a block filled with encoded records scans cleanly, and its used entries are reported, in order, with inode, name and type |
| `Ext2Records.RefusedExactly` | sys/fs/ext2/ext2.c:275-287 | which records stop the listing |
| `Ext2Records.FoundNotListed` | sys/fs/ext2/ext2.c:178-194 | a used record that the listing refuses is found by the search, if its name lies in the block |
| `Ext2Records.TwelveBlocks` | sys/fs/ext2/ext2.c:162-199 | listing and search go through all twelve direct blocks of a directory in order |
| `Ext2Dirs.KlistDirEntries` | sys/fs/ext2/ext2.c:296-320 | the callbacks are the entries of the direct blocks in order, or, when a read fails, of the blocks in front of the one that could not be read; error codes for non-directories, no memory and failed reads |
| `Ext2Paths.KWalk` | sys/fs/ext2/ext2.c:149-218 | the fold of the name search over the path's components, with its error codes, for every directory on the way that the search does not leave; the heap is restored on every path |
| `Ext2Paths.GoOn` | sys/fs/ext2/ext2.c:162-216 | one component takes the walk one step |
| `Ext2Paths.Ext2Open` | sys/fs/ext2/ext2.c:135-219 | a handle at the start of what the path leads to, or the error; what a failed call leaves in the handle; the heap is restored on every path |
| `Ext2Paths.HandleUntouched` | sys/fs/ext2/ext2.c:143-148 | a failed open leaves the handle's inode alone if and only if the path is not the root, the root's inode lies in one block, its first block was not read, or the handle held those bytes already |
| `Ext2Paths.RootCanStraddle` | sys/fs/ext2/ext2.c:249-262 | volumes whose root inode straddles two blocks can be mounted |
| `Ext2Paths.Ext2List` | sys/fs/ext2/ext2.c:322-399 | lists exactly the entries of the inode ext2_open yields if its directory bit is set; the empty path is the root; after a failed read or allocation the callbacks are the first of these and the code says so |
| `Ext2Example.Openings` | sys/fs/ext2/ext2.c:135-219 | on an image given byte by byte: '/etc/passwd' opens as the 128 bytes of its inode, a name behind a regular file is invalid (-5), and a missing one is not found (-4) |
| `Ext2Example.Listings` | sys/fs/ext2/ext2.c:322-399 | on the same image '/' and the empty path list the root's two entries, '/etc' its one, and a regular file is refused |
| `Ext2Example.RootAndLongPaths` | sys/fs/ext2/ext2.c:143-155 | '/' needs no walk, longer paths than 255 characters are invalid (-5), and failed reads and allocations give -1 on all others |
| `Vfs.NormalizePath` | sys/fs/vfs/vfs.c:31-93 | the buffer algorithm gives the join of the component stack, up to the first name that would fill the buffer, which it never leaves; relative and empty paths as in the code |
| `Vfs.NormalizedWhole` | sys/fs/vfs/vfs.c:31-93 | for absolute paths of up to 255 characters no name is dropped: the result is the normal form |
| `Vfs.Pop` | sys/fs/vfs/vfs.c:67-78 | '..' takes the buffer back to the path of the popped stack |
| `Vfs.Push` | sys/fs/vfs/vfs.c:80-85 | a name takes the buffer to the path of the pushed stack, exactly when it fits |
| `Vfs.Kstrncpy` | sys/lib/kstring/kstrncpy.c:19-34 | the source cut or filled with NULs to n characters |
| `VfsLaws.ClipIs` | sys/lib/kstring/kstrncpy.c:19-34 | a shorter text is followed by NULs; of a longer one the first n characters are kept without a NUL |
| `VfsPath.NamesOfJoin` | sys/fs/vfs/vfs.c:31-93 | splitting undoes joining |
| `VfsPath.NormalIdempotent` | sys/fs/vfs/vfs.c:31-93 | normalising twice is normalising once |
| `VfsPath.NormalShorter` | sys/fs/vfs/vfs.c:82-83 | a normal form is never longer than the absolute path it comes from |
| `VfsPath.NormalIsNormal` | sys/fs/vfs/vfs.c:31-93 | normalising gives a path in normal form |
| `VfsLaws.Down` | sys/fs/vfs/vfs.c:80-85 | a proper name behind a path is appended to its normal form, behind one slash |
| `VfsLaws.Stay` | sys/fs/vfs/vfs.c:65-66 | a dot behind a path changes nothing |
| `VfsLaws.DownAndUp` | sys/fs/vfs/vfs.c:67-78 | a proper name and two dots behind a path change nothing: '..' takes back exactly one name |
| `VfsLaws.UpFromRoot` | sys/fs/vfs/vfs.c:67-78 | two dots at the root stay at the root |
| `VfsLaws.MoreSlashes` | sys/fs/vfs/vfs.c:50-55 | more slashes, inside a path or behind it, change nothing |
| `VfsLaws.FirstOverflow` | sys/fs/vfs/vfs.c:80-85 | of a path that does not fit, the names up to the first one that would make 256 characters or more are taken, and none behind it |
| `VfsCwd.WorkingDirectory.Getcwd` | sys/fs/vfs/vfs.c:26-29 | a copy of the current directory, cut or filled with NULs to the size |
| `VfsCwd.WorkingDirectory.Resolve` | sys/fs/vfs/vfs.c:95-110 | the normal form of the path seen from the current directory, with the 31-character cut of relative parts |
| `VfsCwd.WorkingDirectory.Chdir` | sys/fs/vfs/vfs.c:112-126 | the current directory becomes the resolved path exactly on success, and stays in normal form; failed reads and allocations give -1 |
| `VfsLaws.ChdirCodes` | sys/fs/vfs/vfs.c:117-122 | 0 for a directory, -1 for any other file, and the code of ext2_open when that fails |
| `VfsCwd.CwdAlwaysNormal` | sys/fs/vfs/vfs.c:112-126 | it is in normal form after every sequence of calls |
| `VfsCwd.ResolveExact` | sys/fs/vfs/vfs.c:102-108 | relative resolution is exact when neither side exceeds 31 characters |
| `VfsCwd.ResolveNamesExact` | sys/fs/vfs/vfs.c:102-108 | for every path of proper names it is exact if and only if neither side does |
| `VfsLaws.Elsewhere` | sys/fs/vfs/vfs.c:31-110 | the empty path resolves to the current directory, and an absolute one does not depend on it; the empty path normalises to the root, and a relative one is not changed |
| `VfsLaws.ThereAndBack` | sys/fs/vfs/vfs.c:95-126 | resolving a name and then two dots leads back to the current directory, while the names fit 31 characters |
| `Keyboard.CapsInvertsShift` | sys/drivers/keyboard/keyboard.c:53-60 | letters are capitals exactly when one of shift and caps lock is on; caps lock changes no other key |
| `KeyboardLaws.Layout` | sys/drivers/keyboard/keyboard.c:27-51 | the two tables are the four rows of a US keyboard, and a few keys that are the same in both |
| `KeyboardLaws.ShiftAfter` | sys/drivers/keyboard/keyboard.c:72-79 | after any scancodes shift is what the last press or release of either shift key made it |
| `KeyboardLaws.CapsAfter` | sys/drivers/keyboard/keyboard.c:66-70 | and caps lock is turned over by an odd number of presses |
| `KeyboardLaws.Press` | sys/drivers/keyboard/keyboard.c:81-93 | a character key appends what it bears under the present shift and caps lock, while there is room |
| `KeyboardLaws.Typed` | sys/drivers/keyboard/keyboard.c:62-95 | two rows of scancodes worked out to the characters they type |
| `Keyboard.EveryInterleaving` | sys/drivers/keyboard/keyboard.c:62-114 | under every interleaving of interrupts with getchar's steps the returned characters are a prefix of the accepted ones |
| `Keyboard.StepKeeps` | sys/drivers/keyboard/keyboard.c:62-114 | every step keeps: accepted is returned followed by what the ring holds |
| `Keyboard.DroppedOnlyWhenFull` | sys/drivers/keyboard/keyboard.c:81-93 | a key's character is dropped only when 255 are waiting |
| `Keyboard.DrainedWhenEmpty` | sys/drivers/keyboard/keyboard.c:104-106 | head meets tail exactly when everything accepted has been returned |
| `Keyboard.Driver.KHandler` | sys/drivers/keyboard/keyboard.c:62-95 | the handler refines the interrupt step |
| `Keyboard.Driver.Getchar` | sys/drivers/keyboard/keyboard.c:101-114 | waits, through any interrupts, just until a character is there; returns the oldest waiting one and removes just that |
| `Numerals.Kutoa` | sys/lib/kstdlib/kutoa.c:20-50 | writes the numeral, or as many of its last digits as fit, and nothing else |
| `Numerals.ValueOfDigits` | sys/lib/kstdlib/kutoa.c:37-41 | the digits have the number as their value |
| `Numerals.ReverseInPlace` | sys/lib/kstdlib/kutoa.c:43-48 | the in-place swaps reverse the stretch |
| `Parsing.Katoi` | sys/lib/kstdlib/katoi.c:22-63 | the decimal value cut to int, with kerrno telling a cut and a missing number |
| `Parsing.Kstrtol` | sys/lib/kstdlib/kstrtol.c:22-109 | sign, base mark and digits give the value and the end pointer; exact saturation without a minus sign; with one, exact down to the limit, and beyond it the value that the digits behind the limit lead to |
| `NumberForms.PlainForms` | sys/lib/kstdlib/kstrtol.c:43-54 | in base 0, kstrtol reads a decimal numeral, and an octal one behind a '0', to its end, for every non-negative long |
| `NumberForms.HexForm` | sys/lib/kstdlib/kstrtol.c:43-60 | in base 0 and base 16 it reads a hexadecimal numeral of either case behind '0x' or '0X' |
| `NumberForms.MarkAlone` | sys/lib/kstdlib/kstrtol.c:43-54 | '0x' without a digit is taken whole and counts as 0 |
| `NumberForms.SpaceInFront` | sys/lib/kstdlib/kstrtol.c:31-33 | each of the six white-space characters in front changes only where the digits begin, in katoi too |
| `NumberForms.SignInFront` | sys/lib/kstdlib/kstrtol.c:35-41 | a sign in front of a number changes only whether it is negative, in katoi too |
| `NumberForms.DigitCharacters` | sys/lib/kstdlib/kstrtol.c:71-82 | exactly the ten figures and the letters of both cases are digits, with values 0 to 35 |
| `NumberForms.OutOfRange` | sys/lib/kstdlib/kstrtol.c:84-106 | katoi's error codes are 22 and 34; beyond 2147483647 and -2147483648 it gives these, and beyond 9223372036854775807 kstrtol gives that and the range mark |
| `Parsing.PositiveExact` | sys/lib/kstdlib/kstrtol.c:95-103 | without a minus sign the result is the value cut at LONG_MAX, out of range exactly when cut |
| `Parsing.NegativeExact` | sys/lib/kstdlib/kstrtol.c:62-94 | with a minus sign the result is exact and unmarked exactly down to LONG_MIN + 2 * |LONG_MIN % base| |
| `Parsing.Refused` | sys/lib/kstdlib/kstrtol.c:62-69 | which representable numbers are refused: in base ten the sixteen lowest |
| `Parsing.PastLongMin` | sys/lib/kstdlib/kstrtol.c:76-106 | beyond the limit with a minus sign: LONG_MIN, then in even bases the next digit and LONG_MAX after two, in odd bases the digits above LONG_MIN until one does not pass |
| `Parsing.EvenStandard` | sys/lib/kstdlib/kstrtol.c:62-106 | in even bases the result with a minus sign is what C11 asks if and only if the value is within the limit, or is LONG_MIN or below and only its last digit passes the limit |
| `Parsing.OddStandard` | sys/lib/kstdlib/kstrtol.c:62-106 | in odd bases if and only if it is within the limit, or is LONG_MIN or below and the digits behind the limit all pass and add up to a multiple of 2^64 |
| `Parsing.NinesGoPositive` | sys/lib/kstdlib/kstrtol.c:86-103 | minus twenty-one nines is read as LONG_MAX |
| `Parsing.PrintAndParse` | sys/lib/kstdlib/kstrtol.c:22-109 | kstrtol reads back what kutoa wrote, to the end, for bases 2 to 16 and all non-negative longs |
| `Format.Kvsnprintf` | sys/lib/kstdio/kprint/kprint.c:71-200 | the first size - 1 characters of the unbounded rendering, a NUL, nothing behind, and the count |
| `Format.Fill` | sys/lib/kstdio/kprint/kprint.c:99-172 | each conversion in the 32-byte scratch buffer, which it never leaves |
| `FormatLaws.HexRendering` | sys/lib/kstdio/kprint/kprint.c:160-169 | '%x' and '%X' print the low 32 bits with lower-case or upper-case digits, which kstrtol reads back in base 16 |
| `FormatLaws.UnsignedRendering` | sys/lib/kstdio/kprint/kprint.c:145-159 | '%u' prints the low 32 bits and '%llu' all 64, which kstrtol's digits read back in base 10 |
| `FormatLaws.LongRendering` | sys/lib/kstdio/kprint/kprint.c:116-129 | '%lld' prints all 64 bits as a signed number |
| `FormatLaws.CharacterRendering` | sys/lib/kstdio/kprint/kprint.c:112-178 | '%c' prints one byte, '%%' a percent sign, and any other directive itself |
| `FormatLaws.TextRendering` | sys/lib/kstdio/kprint/kprint.c:105-111 | '%s' prints a string, cut to 31 characters |
| `FormatLaws.WidthRendering` | sys/lib/kstdio/kprint/kprint.c:83-101 | '%4c' and '%-12c' worked out: the figures are the width and the minus puts the blanks behind |
| `FormatLaws.PaddedField` | sys/lib/kstdio/kprint/kprint.c:182-195 | a field is as wide as asked for, or as its text, which stands at one end with blanks on the other side only |
| `FormatLaws.TextInFront` | sys/lib/kstdio/kprint/kprint.c:75-79 | text without percent signs is printed as it stands, in front of what follows |
| `Format.PrintInt` | sys/lib/kstdio/kprint/kprint.c:114-144 | katoi gives back every int that "%d" printed |

## Left out

- Port I/O, ATA, serial, ACPI, timers, RTC, CPUID, interrupt and boot assembly: hardware without visible semantics; the disk is a byte sequence and the scancode a parameter.
- Video, fonts, framebuffer, shell and panic screens, and `kprintf` and the other direct-to-screen printers: user interface.
- `sys/lib/kmath`: floating-point series, where rounding is the point.
- Multiboot parsing and the first half of `kmemory_init`: the model starts from a chosen page count.
- `ext2_mount` and `ext2_list_dir`: superblock parsing is the mounted-volume assumption, and the latter repeats the listing of the root.
- `kitoa`, which writes no NUL except for zero, and the small string functions that are not helpers here.
- Null arguments that only lead to an early return (`buf`, `file`, `cb`, a null pool in `pool_destroy`): the parameters are non-null, except where the null case does something.
- KernelHeap.KernelHeap.Kfree: does not cover stale pointers whose header was overwritten, nor any call after `heap_defrag`, because the list is then not in address order and neighbours in the list need not be neighbours in memory.
- MemoryPool.MemoryPool.Create: the pool struct and its free list are Dafny objects beside the heap; that their heap blocks are live and disjoint is modelled, their bytes are not.
- Ext2Files.Ext2Read: the destination lies outside the kernel heap, as the stack buffer of its only caller does (`sys/shell/shell.c:407`); a read into a block that was itself allocated is not modelled.
- Ext2Dirs.SearchBlock: states no result for blocks whose record lengths or names lead outside the buffer, because the code then reads what lies behind it.
- Ext2Dirs.Lookup: the same, for directories with such a block.
- Ext2Paths.KWalk: the same, for the directories on the way.
- Ext2Paths.Ext2Open: the same; then only the heap, the codes after a failure and what a failed call leaves in the handle are stated.
- Ext2Paths.Ext2List: the same; then only the heap and the codes after a failure are stated. After a failed read elsewhere the callbacks are said to be the first of the entries; up to which block is stated for `Ext2Dirs.KlistDirEntries`.
- Vfs.NormalizePath: names in absolute paths are limited to 255 characters, because the code copies each to a buffer of 256; that is the caller's duty there.
- VfsCwd.ResolveExact: the converse is stated for paths of proper names with single slashes (`VfsCwd.ResolveNamesExact`); with dots or repeated slashes a path can lose characters in the cut and still resolve alike, as when a later `..` removes them.
- Format.Kvsnprintf: formats with a dangling percent sign, with an argument missing or of the wrong kind, or with a width beyond int are excluded, since the code reads beyond its inputs there.
- Keyboard.Driver.Getchar: the interrupts during the wait are a parameter; that one ever comes, and that none is lost between the check and the halt, which are not atomic, is not stated.
