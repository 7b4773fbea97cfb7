# rv6, modelled and proved in Dafny

rv6 is a small RISC-V kernel. This project models its memory system, its device-tree reader, its
allocators, its VirtIO queue, its ELF loader, its archive reader and its symbol table, and proves what
each of them promises. `dafny verify dfyconfig.toml` checks everything.

How the pieces are modelled:

- Physical memory is a map from frame number to 512 page-table entries, defined for every frame number
  an entry can hold (`Paging`). An entry is a frame number and a set of flags. `Walk` is the
  translation loop. A ghost `Tree` maps the upper page-number digits of an address space to the frame of
  the table they lead to; `Wf` says that each table has one parent and one level, that level-0 entries
  are leaves or empty, and that superpage frames are aligned.
- `Mapping`, `Ranges`, `Update` and `Copy` compute what `map`, `map_range`, `update_mapping` and
  `copy_kernel_mappings` do to any memory, and prove what that means on a well-formed tree. `Walker` holds
  the objects and loops, which equal those functions.
- `Runs` takes any list of calls, on any number of address spaces that share one memory and one frame
  allocator. It runs them with those functions, and `Runs.AddressSpaces` runs the walkers themselves.
- `Boot`, `EarlyMap`, `IoMap` and `Dump` build on the walker, as do `Image`, `Loader`, `ElfLoad` and
  `Exec` (loading a program).
- Sv39 and Sv48 are both covered, except in `EarlyMap`, which follows the early mapper of Sv39.
- The build is one with overflow checks, where integer overflow panics.
- `Fdt` reads tokens from a structure block and property names from the strings block. A slice is its
  start position, since every slice runs to the end of the block. `FdtTree` and `FdtBlob` hold
  navigation, `FdtRoundTrip` and `FdtEncode` the layout of a tree in bytes and its round trip.
- `Elf`, `Cpio`, `Ksyms`, `Bitmap`, `Bump` and `Virtq` follow one source component each.
- A panic of the source is a result of its own where the model can reach it: a property name that cannot
  be looked up, a path with a multi-byte first character, a physical sum past the last frame in the dump,
  frames or early tables that run out, a segment at an address `VirtAddr::new` refuses, ELF offsets whose
  sum overflows. The panics that a `requires` excludes are listed under "Left out" or are those of address
  arithmetic, which the stated bounds rule out.

Where the code and its comments disagree, the code is modelled:

- `map` follows a valid entry without checking whether it is a leaf, so it maps the page exactly when no
  larger leaf lies above it (`MapsIffNoLargerLeaf`; `OkUnderLargerLeaf` is an input where it reports Ok
  and maps nothing).
- An entry keeps only so many bits of a frame number, so a mapped page leads to the address asked for
  exactly when they are enough (`MapsWhereAsked`; `FrameCut` is an input where they are not).
- `update_mapping` with none of R, W and X turns the leaves it updates into pointers without an error. It
  keeps the leaves, with the new flags, and the tree well formed exactly when the flags hold R, W or X
  (`StaysLeafIff`, `UpdatesIff`; `PermissionsLost` is an input where the page is unmapped).
- `iomap` reports the page that holds an unaligned base, not the base (`MappingExact`, `IomapUnaligned`).
- `max_segments` and the segment buffer are compared with the index among all program headers. An image is
  refused exactly when the last loadable header lies beyond them (`TooManyIff`). The cap counts loadable
  headers exactly when those come first (`CapCountsIff`; `CapMiscounts` is an input where it does not).
- `find_by_path` drops the first byte of a path whatever it is (`FirstByteIgnored`), so a path is followed
  as written exactly when it begins with a slash (`FollowedIff`). It panics exactly when the first
  character is longer than a byte (`LongFirstIff`).
- `resolve_symbol` never returns the last symbol, and the name it returns includes its terminator
  (`ResolveIn`, `Resolve`).
- `avail.idx` stops counting submits once one-descriptor chains fill the whole queue (`IndexCounts`;
  `OneSlot` is such a run).

## Model

| member | source | states |
|---|---|---|
| Arith.PowerOfTwoIs | kernel/src/mm/allocator/bitmap.rs:60 | the powers of two are the shifts of one |
| Arith.ClearLow | kernel/src/mm/addr/virt.rs:128-137 | clearing low bits, as alignment masks do, rounds down to a multiple |
| Addr.TryNewCanonical | kernel/src/arch/riscv/addr.rs:140-154 | which addresses are accepted, that the result is canonical and keeps its translated bits, and that a canonical address is itself |
| Addr.TruncatedKeeps | kernel/src/arch/riscv/addr.rs:187-197 | truncation gives a canonical address with the same translated bits |
| Addr.VpnFields | kernel/src/arch/riscv/addr.rs:199-227 | the page-number digits are the 9-bit fields of the address above the 12-bit offset |
| Addr.VirtAddOk | kernel/src/mm/addr/virt.rs:104-110 | stepping through the pages of a canonical range never panics and lands on the digits of the sum |
| Addr.PagesMetOk | kernel/src/mm/addr/virt.rs:128-143 | rounding a range out to pages stays canonical and covers exactly the pages it meets |
| Addr.OrLowAdds | kernel/src/arch/riscv/mmu.rs:711-727 | oring the low page-number digits into an aligned superpage frame number is adding the offset in the page |
| Addr.MaskBits | kernel/src/arch/riscv/mmu.rs:272-277 | set_ppn stores exactly the 26 (Sv39) or 44 (Sv48) low bits of a frame number |
| Paging.SetLeafWalk | kernel/src/arch/riscv/mmu.rs:435-447 | writing a leaf makes exactly the addresses below that entry lead to it |
| Paging.AddTableWalk | kernel/src/arch/riscv/mmu.rs:410-427 | linking a cleared table changes no walk |
| Paging.Untouched | kernel/src/arch/riscv/mmu.rs:693-735 | an edit that keeps off a tree's frames keeps the tree well formed and all its translations |
| Mapping.AllocIff | kernel/src/mm/allocator/bump.rs:117-136 | the allocator hands out the next count frames, and refuses exactly when fewer bytes than 4096 times count are left |
| Mapping.DescendGrows | kernel/src/arch/riscv/mmu.rs:406-433 | the descent only adds fresh tables on the way, keeps the tree well formed and changes no walk, whether it succeeds or runs out of frames |
| Mapping.MapRefines | kernel/src/arch/riscv/mmu.rs:392-448 | with no larger leaf above the page, Ok redirects exactly the page, every error changes no walk, the tree stays well formed and grows by the frames taken; AlreadyMapped exactly if the entry is taken, AllocationFailed only if no frame is left |
| Mapping.MapsIffNoLargerLeaf | kernel/src/arch/riscv/mmu.rs:406-447 | a successful map maps the page if and only if no larger leaf lies above it |
| Mapping.OkUnderLargerLeaf | kernel/src/arch/riscv/mmu.rs:420-432 | an input below a 1 GiB leaf on which map reports Ok and the page leads where it did |
| Ranges.MapTranslates | kernel/src/arch/riscv/mmu.rs:392-448 | after a successful map virt_to_phys is paddr plus the offset on the page and the old translation everywhere else, for every page size |
| Ranges.FailedMapTranslates | kernel/src/arch/riscv/mmu.rs:406-447 | a failed map leaves every translation unchanged even when tables were added |
| Ranges.RangeTranslates | kernel/src/arch/riscv/mmu.rs:456-480 | after a range is mapped, addresses in it translate to their page's frame plus offset and all others as before |
| Ranges.RangeLinear | kernel/src/arch/riscv/mmu.rs:456-480 | a mapped range is linear |
| Ranges.MapPagesRefines | kernel/src/arch/riscv/mmu.rs:456-480 | the loop redirects exactly the first k pages, all of them on Ok, adds only tables on their way, and stops at page k exactly because its entry is taken or because no frame is left |
| Ranges.FailsForFrames | kernel/src/arch/riscv/mmu.rs:456-480 | a range with no entry taken fails only for want of a frame |
| Ranges.MapsWhereAsked | kernel/src/arch/riscv/mmu.rs:272-277 | a mapped page leads to the address asked for if and only if its frame number fits an entry |
| Ranges.FrameCut | kernel/src/arch/riscv/mmu.rs:272-277 | an input on which map reports Ok and the page does not lead to the address asked for |
| Walker.BumpFrameAllocator.Alloc | kernel/src/mm/allocator/bump.rs:117-136 | hands out the next count frames, or nothing, changing nothing, exactly when fewer bytes than 4096 times count are left |
| Walker.PageTableWalker.Follow | kernel/src/arch/riscv/mmu.rs:406-433 | one turn of the descent loop |
| Walker.PageTableWalker.Map | kernel/src/arch/riscv/mmu.rs:392-448 | the loop over words in memory computes the specified state and result, for every memory |
| Walker.PageTableWalker.MapInTree | kernel/src/arch/riscv/mmu.rs:392-448 | on a well-formed tree the loop has the refinement effect |
| Walker.PageTableWalker.MapRange | kernel/src/arch/riscv/mmu.rs:456-480 | the loop computes the specified state and result, for every memory |
| Walker.PageTableWalker.MapRangeInTree | kernel/src/arch/riscv/mmu.rs:456-480 | on a well-formed tree it redirects the pages in order, stops at the first failure with its cause, and keeps the tree well formed |
| Walker.PageTableWalker.IdentityMapRange | kernel/src/arch/riscv/mmu.rs:488-516 | the loop computes the specified state and result for every memory and every range up to the end of the address space |
| Walker.PageTableWalker.IdentityMapInTree | kernel/src/arch/riscv/mmu.rs:488-516 | on a well-formed tree, after Ok every address of the rounded range translates to itself and all others as before, and a failure has its cause |
| Walker.PageTableWalker.GetPte | kernel/src/arch/riscv/mmu.rs:562-609 | the loop finds the specified entry |
| Walker.PageTableWalker.UpdateMapping | kernel/src/arch/riscv/mmu.rs:525-552 | the loop computes the specified memory and result for every memory and all flags |
| Walker.PageTableWalker.UpdateInTree | kernel/src/arch/riscv/mmu.rs:525-552 | on a well-formed tree, with some permission, it rewrites the leaves around the pages of the rounded range and keeps the tree well formed; Ok if and only if every page is mapped |
| Walker.PageTableWalker.Translate | kernel/src/arch/riscv/mmu.rs:693-735 | the loop computes the translation |
| Walker.PageTableWalker.CopyKernelMappings | kernel/src/arch/riscv/mmu.rs:619-634 | the recursive copy computes the specified state and result, corrupted tables included, for every memory |
| Walker.PageTableWalker.CopyInTree | kernel/src/arch/riscv/mmu.rs:619-689 | into a cleared root it fails only for want of a frame; on Ok the user tree is a deep copy of the non-user part of the kernel tree; always both trees stay well formed and share no table, and no kernel walk changes |
| Walker.PageTableWalker.CopyAt | kernel/src/arch/riscv/mmu.rs:648-686 | one entry of the recursive copy: skipped, copied as a leaf, descended into, or reported as corrupted at level 0 |
| Walker.NewRoot | kernel/src/arch/riscv/mm/elf.rs:36-43 | a cleared root table in a frame that was free, and nothing exactly when no frame is left |
| Update.FindPteIff | kernel/src/arch/riscv/mmu.rs:562-609 | on every memory get_pte_ptr fails exactly if an entry on the way is not valid, and otherwise finds the leaf or, without one, the entry of level 0 |
| Update.FindPteIsWalk | kernel/src/arch/riscv/mmu.rs:562-609 | on a well-formed tree get_pte_ptr finds an entry exactly when virt_to_phys translates, namely the same leaf |
| Update.UpdatePagesRefines | kernel/src/arch/riscv/mmu.rs:525-552 | on a well-formed tree the loop rewrites exactly the leaves around the first k pages and stops at k exactly because that page is not mapped |
| Update.UpdateKeepsTranslation | kernel/src/arch/riscv/mmu.rs:525-552 | update_mapping moves no address |
| Update.UpdateSetsFlags | kernel/src/arch/riscv/mmu.rs:260-264 | a leaf that holds a page of the range loses R, W, X, U and G and gets the new flags; any other keeps its own |
| Update.StaysLeafIff | kernel/src/arch/riscv/mmu.rs:525-552 | for every page the loop updates, its leaf is still at its level afterwards if and only if the new flags hold R, W or X, and then has them; otherwise its entry is a pointer and only a smaller leaf can map the page |
| Update.UpdatesIff | kernel/src/arch/riscv/mmu.rs:525-552 | on a range whose first page is mapped the loop rewrites exactly the leaves of its pages, and keeps the tree well formed, if and only if the new flags hold R, W or X |
| Update.PermissionsLost | kernel/src/arch/riscv/mmu.rs:525-552 | an input on which it reports Ok and unmaps the page |
| Update.UpdateCounts | kernel/src/arch/riscv/mmu.rs:525-552 | for every memory the loop reports Ok if and only if it did all its pages |
| Update.LoopDemotes | kernel/src/arch/riscv/mmu.rs:260-264 | without R, W and X the loop, on any memory, changes entries only into pointers to the same frame |
| Copy.CopyLeaf | kernel/src/arch/riscv/mmu.rs:655-668 | copying one leaf extends the copy by exactly its page |
| Copy.KernelWalkIs | kernel/src/arch/riscv/mmu.rs:648-686 | on every memory the walk that stops at USER entries is the walk, unless an entry on the way is USER |
| Copy.CopyEnds | kernel/src/arch/riscv/mmu.rs:619-634 | a finished copy gives every address the leaf its walk in the kernel tree finds, or nothing if an entry on that way is USER |
| Copy.CopyTranslates | kernel/src/arch/riscv/mmu.rs:693-735 | after a copy every address translates as for the kernel, or not at all if an entry on its way is USER |
| Copy.CopyRefines | kernel/src/arch/riscv/mmu.rs:619-689 | the recursive copy into a cleared root succeeds unless frames run out, and then is such a copy |
| Copy.CopiedFrom | kernel/src/arch/riscv/mmu.rs:641-689 | only the kernel's own tables matter to the copy |
| Copy.CorruptIff | kernel/src/arch/riscv/mmu.rs:648-686 | on every memory the copy of a level-0 entry reports a corrupted table exactly if it is a pointer without USER; entries that are USER or not valid are skipped |
| Runs.ExecKeeps | kernel/src/arch/riscv/mmu.rs:392-689 | one call keeps all address spaces well formed and apart, and acts on the leaf of each page of each of them as its one-page meaning says, on all its pages if and only if it reports Ok |
| Runs.ElsewhereKeeps | kernel/src/arch/riscv/mmu.rs:619-689 | edits of a separate tree change nothing in this one and keep them separate |
| Runs.OthersKept | kernel/src/arch/riscv/mmu.rs:392-552 | an edit of one address space keeps all others, with all their walks |
| Runs.RunRefines | kernel/src/arch/riscv/mmu.rs:392-689 | in every run of calls on all address spaces, executed by the code, all spaces stay well formed and apart, each page of each leads where the calls, applied in order to where it led at first, say, and a call acted on all its pages if and only if it reported Ok |
| Runs.RunTranslates | kernel/src/arch/riscv/mmu.rs:693-735 | after every run every address of every address space translates as the calls, applied in order, say, where a call acted on all its pages if and only if it reported Ok |
| Runs.Isolated | kernel/src/arch/riscv/mm/elf.rs:30-61 | a run that names an address space nowhere moves none of its addresses |
| Runs.WroteIff | kernel/src/arch/riscv/mmu.rs:392-516 | a call that reported Ok mapped every page it covers, a failed map none, and no call any other page |
| Runs.LastWriterWins | kernel/src/arch/riscv/mmu.rs:406-447 | after every run an address translates by the last call that mapped its page in that space, also if that was one of the pages a range call mapped before it failed; updates and calls on other spaces do not matter |
| Runs.LastOkWins | kernel/src/arch/riscv/mmu.rs:392-516 | after every run an address translates by the last call that covers its page in that space, if that call reported Ok |
| Runs.IdentityArgs | kernel/src/arch/riscv/mmu.rs:488-516 | which identity mappings a run takes: any range, aligned or not, whose last page can be named |
| Runs.CallLeads | kernel/src/arch/riscv/mmu.rs:456-516 | a mapping call covers exactly the addresses of its region, in whole pages of 4 KiB to 512 GiB, and leads each as far behind its first physical address as it lies behind its first virtual one |
| Runs.LastOkLeads | kernel/src/arch/riscv/mmu.rs:392-516 | after every run an address that a call reported Ok for leads to the physical address that call asked for, unless a later call on the space reaches it |
| Runs.Unmoved | kernel/src/arch/riscv/mmu.rs:392-689 | an address whose page no call mapped translates as before the run |
| Runs.Unreached | kernel/src/arch/riscv/mmu.rs:392-689 | an address that no call on its space reaches translates as before the run |
| Runs.AddressSpaces.Make | kernel/src/arch/riscv/mm/elf.rs:30-61 | a new root and the copy compute the specified state |
| Runs.AddressSpaces.Execute | kernel/src/arch/riscv/mmu.rs:392-689 | the walkers, driven through any list of calls, compute the run, keep all spaces well formed and lead each page where the calls say |
| Boot.DirectMap | kernel/src/arch/riscv/mm/mod.rs:253-255 | phys_to_virt is inverted by the kernel map for every address of memory, for a 2 MiB aligned base |
| Boot.KernelMapIs | kernel/src/arch/riscv/mm/mod.rs:164-214 | the image, memory and heap lie at their fixed addresses, in whole pages, and every other canonical address is unmapped |
| Boot.SetupLate | kernel/src/arch/riscv/mm/mod.rs:152-214 | the mapping sequence leaves exactly the kernel image, memory and heap mapped, each in one piece at its fixed address, by leaves the kernel alone may read, write and run, and every other address unmapped; every frame handed out is a table or heap; if they come from memory, phys_to_virt reaches every table through the new mapping; it panics only when the frames run out |
| Boot.IoRegionVacant | kernel/src/arch/riscv/mm/mod.rs:44-46 | the I/O region is unmapped after boot |
| Boot.TablesInMemory | kernel/src/arch/riscv/mm/mod.rs:253-255 | phys_to_virt leads to every table of the kernel tree when the frame allocator hands out memory |
| Boot.SetupIo | kernel/src/arch/riscv/mm/mod.rs:81-83 | after boot the I/O mapper over its whole region, at its fixed addresses, starts in a valid state |
| EarlyMap.EarlyMapper.NextTable | kernel/src/arch/riscv/mm/init.rs:174-187 | hands out a cleared table until none is left |
| EarlyMap.EarlyMapper.Create | kernel/src/arch/riscv/mm/init.rs:131-154 | one 2 MiB page is redirected and one table added only for a new top-level index |
| EarlyMap.EarlyMapper.MapRange | kernel/src/arch/riscv/mm/init.rs:88-109 | the early loop has the effect of map_range with 2 MiB pages on walks, adds one table per new top-level index touched, and panics exactly when these are more than the tables left |
| EarlyMap.AgreeReady | kernel/src/arch/riscv/mm/init.rs:88-109 | a tree that agrees with an early tree has every 2 MiB entry free and no larger leaf |
| EarlyMap.RealTables | kernel/src/arch/riscv/mmu.rs:456-480 | map_range with 2 MiB pages adds one table per new top-level index as well |
| EarlyMap.AgreeAfterRange | kernel/src/arch/riscv/mm/init.rs:88-109 | the same range mapped on both sides keeps them in agreement |
| EarlyMap.Drive | kernel/src/arch/riscv/mm/init.rs:88-109 | the early mapper and map_range, driven through the same calls, agree on every walk at the end; each used one table per new top-level index; the early one stops only when these are more than its tables, the other only without frames |
| EarlyMap.AgreeTranslates | kernel/src/arch/riscv/mmu.rs:693-735 | trees that agree translate every address alike |
| IoMap.IoMapper.Iomap | kernel/src/arch/riscv/mm/mmio.rs:33-67 | every mapping so far owns its block, is linear, and can be read and written by the kernel alone and not run, in every run; a request is refused exactly when the region has no room for its pages, and changes nothing; it panics only when no frame is left |
| IoMap.MappingsApart | kernel/src/arch/riscv/mm/mmio.rs:33-67 | two mappings never share a virtual address |
| IoMap.MappingExact | kernel/src/arch/riscv/mm/mmio.rs:35-66 | all requested bytes are mapped; the reported address leads to the base if and only if the base is page aligned, and then every offset does |
| IoMap.IomapUnaligned | kernel/src/arch/riscv/mm/mmio.rs:33-67 | every unaligned request that is granted gets an address that does not lead to its base |
| Bump.BumpAllocator.Alloc | kernel/src/mm/allocator/bump.rs:59-75 | the highest aligned block below everything live, or null exactly when none fits |
| Bump.BumpAllocator.Dealloc | kernel/src/mm/allocator/bump.rs:77-84 | space is reused only once nothing is live, so live blocks stay disjoint in every run |
| Bump.Highest | kernel/src/mm/allocator/bump.rs:62-70 | rounding down gives the highest aligned base |
| Dump.Console.Leaf | kernel/src/arch/riscv/mmu.rs:800-819 | a leaf is coalesced into the last chunk or starts a new one, which shows exactly that much more; it panics exactly when the next virtual page follows a chunk that ends with the last frame |
| Dump.ChunkEnd | kernel/src/arch/riscv/mmu.rs:796-806 | in pages of the address space the virtual sums never panic and compare as page numbers do |
| Dump.Console.Table | kernel/src/arch/riscv/mmu.rs:783-834 | the printed chunks and the returned one expand to exactly the leaves below the table, in order, unless it panics, with the exact condition |
| Dump.Console.Root | kernel/src/arch/riscv/mmu.rs:764-778 | the whole dump expands to all leaves in order; it panics if and only if a page in the last frame is followed by the next virtual page |
| Dump.Sv39NeverPanics | kernel/src/arch/riscv/mmu.rs:803-806 | with Sv39 that cannot be |
| Dump.DumpIsWalk | kernel/src/arch/riscv/mmu.rs:783-834 | a page is listed with a frame and flags if and only if its walk finds them |
| Dump.LeavesBetween | kernel/src/arch/riscv/mmu.rs:783-834 | the list is strictly ordered by page |
| Virtq.Virtqueue.constructor | kernel/src/drivers/virtio/virtq.rs:60-92 | the free descriptors are chained in order |
| Virtq.Virtqueue.NextLink | kernel/src/drivers/virtio/virtq.rs:107-113 | following links over the free block |
| Virtq.Virtqueue.FindParent | kernel/src/drivers/virtio/virtq.rs:116-120 | the search always finds a descriptor: the last of the first chain, or the last of all |
| Virtq.Virtqueue.Prepare | kernel/src/drivers/virtio/virtq.rs:126-149 | fills in exactly the chain, with NEXT on all but the last and WRITE as asked, and both closing asserts hold |
| Virtq.Virtqueue.Submit | kernel/src/drivers/virtio/virtq.rs:98-160 | in every run of submits the chains are exactly those submitted, laid out one after the other, and the ring lists their heads in order |
| Virtq.ParentIs | kernel/src/drivers/virtio/virtq.rs:116-120 | the free descriptors start at first_free, and which descriptor links to it first |
| Virtq.SubmitKeeps | kernel/src/drivers/virtio/virtq.rs:98-149 | relinking and filling in keep the invariant and every earlier chain |
| Virtq.DeviceReads | kernel/src/drivers/virtio/virtq.rs:126-155 | following the ring and the NEXT flags the device reads every submitted chain whole: each address, each length modulo 2^32 and each direction |
| Virtq.ChainsApart | kernel/src/drivers/virtio/virtq.rs:98-160 | submitted chains share no descriptor |
| Virtq.IndexCounts | kernel/src/drivers/virtio/virtq.rs:151-156 | avail.idx counts submits if and only if there are fewer chains than slots, which two descriptors per chain guarantee |
| Virtq.OneSlot | kernel/src/drivers/virtio/virtq.rs:151-156 | one submit on a queue of one slot leaves avail.idx at 0 |
| Virtq.BlkDev.Transfer | kernel/src/drivers/virtio/blkdev.rs:136-159 | the device reads 16 bytes at the request, a data buffer unless it flushes, at its address, with its length modulo 2^32 and writable exactly for In and GetId, and one writable status byte behind the header; it reads every earlier request as before |
| Bitmap.InitPlacesTable | kernel/src/mm/allocator/bitmap.rs:67-76 | the page count never underflows, the descriptor table ends before the first managed page, and the pages are aligned and fill the area |
| Bitmap.InitIff | kernel/src/mm/allocator/bitmap.rs:59-76 | set-up fails exactly for a page size that is no power of two and for an unaligned end; otherwise whole pages start at the first multiple behind one descriptor byte per page and fill the area |
| Bitmap.MarksDetermineBlocks | kernel/src/mm/allocator/bitmap.rs:145-165 | the marks alone determine the set of live blocks |
| Bitmap.BlocksDetermineMarks | kernel/src/mm/allocator/bitmap.rs:98-165 | the live blocks determine all marks, so alloc and free of a block restore them |
| Bitmap.BitmapAllocator.constructor | kernel/src/mm/allocator/bitmap.rs:59-94 | manages exactly those pages, and all start free |
| Bitmap.BitmapAllocator.FirstFit | kernel/src/mm/allocator/bitmap.rs:101-125 | skipping ahead to the blocking page misses no run that fits |
| Bitmap.BitmapAllocator.Alloc | kernel/src/mm/allocator/bitmap.rs:98-143 | the lowest run of count free pages becomes a block, and None exactly when there is none |
| Bitmap.BitmapAllocator.Free | kernel/src/mm/allocator/bitmap.rs:145-165 | releases exactly the block at that address, and the sanity check never fires |
| Fdt.GetStringIff | crates/fdt/src/lib.rs:113-119 | on every blob a name is found exactly if it lies there, zero-terminated and UTF-8, and is missing exactly if no zero byte follows |
| Fdt.ParsePanicsIff | crates/fdt/src/lib.rs:293-345 | on every blob parsing a node panics if and only if a name it looks up cannot be read, and otherwise succeeds exactly where the bytes are a node, and consumes them |
| Fdt.ParseProperty | crates/fdt/src/lib.rs:412-442 | a property's span is the bytes consumed; the lookup of its name can panic |
| Fdt.ParseNode | crates/fdt/src/lib.rs:293-345 | a node's span is the bytes consumed, its children lie within it, and it records the offsets given |
| FdtTree.FindIsFirst | crates/fdt/src/lib.rs:272-287 | find returns the first match in pre-order |
| FdtTree.PreorderSorted | crates/fdt/src/lib.rs:321 | offsets grow strictly in document order and a span holds everything below the node |
| FdtTree.ParentOfChild | crates/fdt/src/lib.rs:259-262 | parent() of a child is the node whose children were iterated |
| FdtTree.HasParent | crates/fdt/src/lib.rs:255-257 | every node but the root is a child of some node |
| FdtTree.DescendClimbs | crates/fdt/src/lib.rs:70-91 | climbing back from a node reached by names meets the same names and ends where it began |
| FdtTree.DescendIff | crates/fdt/src/lib.rs:81-90 | following names finds a node exactly if each is the first child of its name of the one before, and nothing exactly if at some node no child has the next name |
| FdtBlob.DocumentQuiet | crates/fdt/src/lib.rs:362-382 | once the root is parsed no iteration over properties or children anywhere in the document panics |
| FdtBlob.SpanAllIs | crates/fdt/src/lib.rs:462-464 | the span skipped while parsing is the sum of the spans iteration reports |
| FdtBlob.ReaderFaithful | crates/fdt/src/lib.rs:470-476 | on every blob iteration keeps offsets equal to positions |
| FdtBlob.DocumentOrder | crates/fdt/src/lib.rs:321 | on every blob offsets grow strictly in document order |
| FdtBlob.FindNodeIsFirst | crates/fdt/src/lib.rs:106-111 | on every blob find is the first match in document order, or the failure or panic of the root |
| FdtBlob.ParentSearches | crates/fdt/src/lib.rs:259-262 | on every blob parent() is the first node of the document at the recorded offset, nothing without one or if the root fails, and panics if the root does |
| FdtBlob.ParentIsOrigin | crates/fdt/src/lib.rs:259-262 | on every blob parent() of a node reached by iterating children is the node it came from, without a panic |
| FdtBlob.ParentExists | crates/fdt/src/lib.rs:259-262 | exactly the root has no parent, and every parent has the node among its children |
| FdtBlob.SplitJoins | crates/fdt/src/lib.rs:82 | path components hold no slash and join to the path |
| FdtBlob.Nodes.Next | crates/fdt/src/lib.rs:470-476 | the iterator yields the children in order and nothing else, and panics where parsing does |
| FdtBlob.Nodes.Span | crates/fdt/src/lib.rs:462-464 | the sum the parser uses, panics included |
| FdtBlob.Properties.Next | crates/fdt/src/lib.rs:378-382 | the iterator yields the properties in order, with their names, and nothing else, and panics where the lookup of a name does |
| FdtBlob.Properties.Span | crates/fdt/src/lib.rs:370-372 | the sum the parser uses, panics included |
| FdtBlob.FindProperty | crates/fdt/src/lib.rs:246-253 | the loop finds the first property of that name, or panics at a name before it |
| FdtBlob.CalledIsFirst | crates/fdt/src/lib.rs:246-253 | without a panic it is the first of that name in the list and fails exactly if there is none |
| FdtBlob.FindChild | crates/fdt/src/lib.rs:83 | the first child of that name; on a parsed node it does not panic |
| FdtBlob.FindByPath | crates/fdt/src/lib.rs:70-91 | finds the node that a chain of first children named by the components leads to, or nothing at the first component that no child has; the root for the empty path and the slash; it fails exactly without a root and panics exactly if the root does or the first character is longer than a byte |
| FdtBlob.FirstByteIgnored | crates/fdt/src/lib.rs:82 | a path leads where it would with any other first byte |
| FdtBlob.FollowedIff | crates/fdt/src/lib.rs:82 | a path is followed as written if and only if it begins with a slash |
| FdtBlob.LongFirstIff | crates/fdt/src/lib.rs:82 | cutting after the first byte is inside a character if and only if that byte is not ASCII |
| FdtBlob.PathClimbs | crates/fdt/src/lib.rs:70-91 | parent() from the node found meets the path's components backwards and then the root |
| FdtRoundTrip.PropRoundTrip | crates/fdt/src/lib.rs:412-442 | a property laid out after NOP words is parsed back, with its name offset, data and span |
| FdtRoundTrip.HeadRoundTrip | crates/fdt/src/lib.rs:301-314 | a node's begin token, name and padding are parsed back |
| FdtRoundTrip.LayoutRoundTrip | crates/fdt/src/lib.rs:293-345 | any layout of a tree whose names the strings block holds is parsed back to it, property names included, whatever the padding and whatever follows |
| FdtRoundTrip.ParsedIff | crates/fdt/src/lib.rs:293-345 | on every blob a node is parsed at a position if and only if the bytes there are the layout of one, with its names in the strings block, and it is that node |
| FdtEncode.RoundTrip | crates/fdt/src/lib.rs:293-345 | parsing an encoded tree with NOP words between any tokens, in a blob whose strings block holds its property names, does not panic, consumes exactly its bytes, reports them as span, and shows the same node names, property names and data, and children in order |
| FdtEncode.RootRoundTrip | crates/fdt/src/lib.rs:60-68 | a structure block that starts with an encoded tree has exactly that tree at its root |
| FdtEncode.RootIff | crates/fdt/src/lib.rs:60-68 | root_node succeeds if and only if the structure block starts with the layout of a node |
| Bytes.Utf8Iff | crates/cpio/src/lib.rs:147-150 | byte strings accepted as UTF-8 are exactly the encodings of sequences of scalar values |
| Cpio.StepAt | crates/cpio/src/lib.rs:89-186 | every entry moves the offset on by at least a header and leaves it a multiple of 4 |
| Cpio.NewcIter.ReadExact | crates/cpio/src/lib.rs:47-55 | the bytes asked for, or an error that moves nothing |
| Cpio.NewcIter.Next | crates/cpio/src/lib.rs:89-186 | one step with its offset, errors included; after the trailer nothing, for ever |
| Cpio.FindFile | crates/cpio/src/lib.rs:190-198 | terminates on every archive with the payload of the first entry of that name, the error met before one, or nothing at the trailer, after stepping over entries none of which has the name |
| Cpio.HexValueIff | crates/cpio/src/lib.rs:63-67 | a character is read as a digit exactly if it is that digit in lower or upper case, by table |
| Cpio.ParseHexIff | crates/cpio/src/lib.rs:63-67 | a field is read as a value exactly if it writes it in digits of either case, perhaps after a plus sign, and refused exactly if it writes none |
| Cpio.FieldRoundTrip | crates/cpio/src/lib.rs:63-67 | every spelling of digits, with a free choice of case for each, is read back as its value |
| Cpio.StepRoundTrip | crates/cpio/src/lib.rs:89-186 | a stored entry, under any spelling of its header, is read back and the offset stops right behind it |
| Cpio.StepHolds | crates/cpio/src/lib.rs:89-186 | whatever entry a step yields is stored there, under a spelled header |
| Cpio.StepFails | crates/cpio/src/lib.rs:89-186 | exactly when a step reports a wrong magic, a field that is no number, and a name without terminator or not UTF-8; any other failure is the end of the archive |
| Cpio.ArchiveRoundTrip | crates/cpio/src/lib.rs:89-186 | an archive without a TRAILER!!! entry is read back as exactly its entries in order and ends cleanly, whatever follows |
| Ksyms.SortByAddr | tools/ksymsgen/src/main.rs:12 | sorted by address, a permutation |
| Ksyms.Generate | tools/ksymsgen/src/main.rs:12-33 | the tables hold the sorted symbols: offsets, cumulative markers, terminated names |
| Ksyms.Lookup | kernel/src/ksyms.rs:42-57 | the first neighbours that enclose the address, or none do |
| Ksyms.ResolveIn | kernel/src/ksyms.rs:14-38 | the terminated name and offset of the owner of pc in the tables, None exactly without one, reading only the first n markers |
| Ksyms.Resolve | kernel/src/ksyms.rs:14-38 | on tables generated from any symbol list, the terminated name of and distance to the nearest symbol not above pc, None exactly when no symbol is at or below pc or none is above it |
| Ksyms.OwnerIsNearest | kernel/src/ksyms.rs:42-57 | the owner is the highest symbol not above pc, the last among equals, and exists exactly when some symbol is not above pc and some symbol is |
| Elf.LeRoundTrip | crates/elf/src/lib.rs:266-287 | every value that fits has a little-endian spelling that is read back as it |
| Elf.PhdrRoundTrip | crates/elf/src/lib.rs:226-249 | a program header is read back field by field |
| Elf.ElfRoundTrip | crates/elf/src/lib.rs:65-164 | a file that holds a header and program headers where it says is read back as them |
| Elf.HeaderIff | crates/elf/src/lib.rs:65-130 | a header is accepted as its fields if and only if the file begins with a spelling of them and holds the table it names |
| Elf.HeaderErrors | crates/elf/src/lib.rs:65-130 | each error is reported exactly if the things before it are right and that one is wrong |
| Elf.PhdrIff | crates/elf/src/lib.rs:226-264 | a program header is read as its fields if and only if the 56 bytes at its place spell them |
| Elf.HeadersReadable | crates/elf/src/lib.rs:65-164 | once the header is accepted every program header can be read |
| Elf.ProgramHeaderIter.Next | crates/elf/src/lib.rs:252-264 | the headers in order, then nothing |
| Elf.BuildLoadPlan | kernel/src/proc/elf/mod.rs:142-213 | the outcome, refusals and panics of addresses and offset sums included, with the entry point of the file, and which slots the loadable headers fill |
| Elf.RefusalIff | kernel/src/proc/elf/mod.rs:158-196 | a loadable header is accepted, or refused with each error, exactly under its conditions |
| Elf.PlanIff | kernel/src/proc/elf/mod.rs:142-213 | there is a plan if and only if every program header passes, the headers fit the buffer and the entry point is an address, and then it is that address |
| Elf.FirstDecides | kernel/src/proc/elf/mod.rs:156-206 | the first program header that does not pass decides the error |
| Elf.PlanMeans | kernel/src/proc/elf/mod.rs:158-206 | a plan means that every loadable header passed every check and filled its slot |
| Elf.TooManyIff | kernel/src/proc/elf/mod.rs:156-166 | a file with nothing else wrong is refused for its number of segments if and only if its last loadable header lies beyond the buffer or the cap |
| Elf.CapCountsIff | kernel/src/proc/elf/mod.rs:139-166 | the cap counts loadable headers, for every value of it, if and only if they come first in the table |
| Elf.CapMiscounts | kernel/src/proc/elf/mod.rs:163-166 | every file with a loadable header behind another has one segment, can be planned under a cap of two, and is refused under a cap of one |
| Image.ProtectRedirects | kernel/src/arch/riscv/mm/elf.rs:127-150 | protecting freshly mapped pages leaves them mapped with exactly the new flags and touches no other leaf |
| Image.KernelUnmoved | kernel/src/arch/riscv/mm/elf.rs:30-61 | whatever keeps the user tree changes no kernel translation |
| Loader.AddrSpace.MapAnonymous | kernel/src/arch/riscv/mm/elf.rs:84-125 | the pages lead to consecutive frames that were free and now hold data, nothing else moves; a failure has its cause |
| Loader.AddrSpace.ProtectRange | kernel/src/arch/riscv/mm/elf.rs:127-150 | protecting pages just mapped cannot fail: they keep their frames and get the new permissions |
| Loader.AddrSpace.CopyToUser | kernel/src/arch/riscv/mm/elf.rs:152-170 | stores the bytes where the user translation leads, never in a page table |
| Loader.AddrSpace.ZeroUser | kernel/src/arch/riscv/mm/elf.rs:172-190 | stores zeros where the user translation leads, never in a page table |
| Loader.AddrSpace.LoadSegment | kernel/src/proc/elf/mod.rs:227-281 | a loaded segment's pages lead to fresh frames with its permissions, which hold its file bytes and then zeros; no other address or byte changes; it fails only for want of frames or if a page was mapped with other flags |
| ElfLoad.LoadSegments | kernel/src/proc/elf/mod.rs:216-289 | on success all segments are loaded, none is W+X unless allowed, all other addresses walk as before; each failure has its cause: a W+X segment, missing frames, a page mapped before with other flags; always the kernel's translations stay |
| ElfLoad.LoadedStays | kernel/src/proc/elf/mod.rs:227-281 | loading a segment disturbs no segment loaded before |
| ElfLoad.ReadsBack | kernel/src/proc/elf/mod.rs:256-268 | a loaded segment reads back its file bytes, then zeros |
| ElfLoad.FinalPermissions | kernel/src/proc/elf/mod.rs:270-280 | each of its pages has exactly VALID, USER, ACCESS and its permissions |
| ElfLoad.InSegmentIff | kernel/src/proc/elf/mod.rs:236-245 | a page belongs to a segment if and only if it holds an address from its start, rounded down to a page, to its end, rounded up |
| Exec.NewUserAddrSpace | kernel/src/arch/riscv/mm/elf.rs:30-61 | a new space is a copy of the kernel's mappings in a tree of its own, unless frames run out, and the kernel's translations stay |
| Exec.LoadElfInto | kernel/src/proc/elf/mod.rs:216-289 | on success the entry point is the file's, every loadable header's memory range reads back its bytes of the file and then zeros, on pages with exactly R, W and X as bits 2, 1 and 0 of its flags and W^X unless waived, and pages of no header lead where they led; otherwise the plan was refused as specified or loading failed for its cause |
| Exec.ImageReadsBack | kernel/src/proc/elf/mod.rs:142-289 | a loaded segment of a header reads back the bytes of the file the header names, then zeros, with its permissions |
| Exec.NoPageWx | kernel/src/proc/elf/mod.rs:228-234 | with W^X enforced no page of a loaded image is writable and executable |
| Exec.OthersAreNothing | kernel/src/proc/elf/mod.rs:158-163 | the slot of a header that is not loadable touches no address |

## Left out

- The bit layout of a page-table word: an entry is a frame number and a set of flags; the frame number is masked as `set_ppn` does.
- CSR access, address-space switching, `sfence.vma`, `fence.i`, SBI calls and trap entry: hardware effects. Writes through a user address space go through its translation.
- Page-table bytes and data bytes are two views of memory; every store of the loader is shown to hit a frame that is neither a table nor free.
- Loader.AddrSpace.LoadSegment: assumes that a segment stays in its half of the address space, where the source panics otherwise, and has some permission if it has pages, since a segment with none is unmapped by the final protection.
- ElfLoad.LoadSegments: assumes that segments share no page and lie below no larger leaf; a page mapped twice with the same flags would silently move.
- Walker.BumpFrameAllocator.Alloc: a count whose size in bytes overflows 64 bits, a panic in the source, is None here.
- Walker.PageTableWalker.IdentityMapRange: assumes a range that ends by the end of the address space; the source panics otherwise.
- Walker.PageTableWalker.MapRange: assumes pages that do not run past the end of the address space; the source panics otherwise.
- Walker.PageTableWalker.IdentityMapInTree: assumes in addition that the frame numbers fit an entry (see `MapsWhereAsked`) and that no larger leaf lies above the pages (see `MapsIffNoLargerLeaf`).
- Walker.PageTableWalker.UpdateMapping: assumes a range that stays in its half of the address space; the source panics otherwise.
- Walker.PageTableWalker.UpdateInTree: assumes some permission, without which the leaf becomes a pointer (see `StaysLeafIff`, `UpdatesIff`).
- Runs.RunRefines: assumes that where two calls map the same page the later one does not map smaller pages, and that nothing larger is mapped there at first, since such a call reports Ok and maps nothing (see `MapsIffNoLargerLeaf`); calls have in-range arguments and some permission.
- Runs.AddressSpaces.Make: a frame missing for the new root, a panic in the source, is that call's failure.
- Mapping.MapRefines: assumes an aligned superpage frame and at least one of R, W and X, as the hardware does.
- Boot.SetupLate: assumes a 2 MiB aligned memory base and a kernel and a memory that fit their regions; reading them from the device tree is not part of it.
- EarlyMap.EarlyMapper.MapRange: assumes 2 MiB aligned addresses, which the source asserts, and pages within the address space and the frame numbers an entry holds.
- IoMap.IoMapper.Iomap: assumes a non-empty request for physical memory that entries can name.
- Dump.Console.Root: dumps a well-formed tree; the source asserts that level 0 holds no pointer.
- Exec.LoadElfInto: makes the assumptions of `LoadSegment` and `LoadSegments` about the segments of a plan.
- Elf.ElfRoundTrip: assumes a file shorter than 2^64 bytes, as every slice is.
- Virtq.Virtqueue.Submit: takes 1 to `free_count` buffers; more make the source's counter underflow, none would publish a stale chain.
- The byte layout of the virtqueue and its used ring, which the driver never reads.
- Bitmap.BitmapAllocator.Free: takes a live frame, which is the only kind of `Frame` a caller can hold after `alloc` of at least one page; a request for no pages returns a frame that must not be freed.
- `Header::from_bytes`, `reserved_memory_map`, `find_compatible` and the property value decoders of the device tree: field reads.
- The line filter, demangling and assembler quoting of the symbol generator; names are byte strings.
- Ksyms.SortByAddr: the order among equal addresses is this model's; `ResolveIn` and `Resolve` hold for every sorted order.
- Overflow of 64-bit offsets in the cpio reader: the model's sum is past the end of the file, which is what its checked sums report as well.
- The user stack of a new process, the file system crate, the UART, interrupt and console drivers, locks.
