# LighthOS, verified

A Dafny model of the parts of LighthOS (an x86_64 kernel with a small user space) in
which linked or table-indexed state has to agree with something simple, and proofs that
it does.

- **FAT16/32** (`Fat*.dfy`): sectors, mirrored allocation tables, cluster chains, file
  contents, directories, and the driver's create, write, read and unlink. `FileSystem.Ok`
  is the whole-volume invariant. `FatStore.Store` is what a volume holds, a map from
  directory and name to bytes; `FileSystem.Run` refines it over every run.
- **Paging** (`Pmm`, `Vmm`, `VmmFree`, `Fork`, `UserImage`, `Elf`): the frame bitmap, the
  four-level tables as a refinement of a map from places to frames, freeing, fork and the
  ELF loader as clients of that map. `Machine.Inv` says that every frame in use has
  exactly one owner or belongs to the kernel; `Fork.Run` says when frames get lost.
- **Allocators** (`Blocks`, `Heap`, `Malloc`): the kernel heap and the user allocator over
  one theory of blocks that tile a region; `Blocks.Live` is the map of live allocations.
- **Processes** (`Tasks`, `Processes`, `Pipe`): the run queue, the process table with
  descriptors and signals, and pipes, as step systems. Kernel code is interleaved only
  where it yields, so each action between yields is one step.
- **Paths** (`Paths`): canonicalisation in a fixed buffer as a stack fold, with chdir and
  chroot.
- **Dynamic linker** (`Ldso`): closure of needed libraries, regions, resolution,
  relocation.
- **Line editor** (`LineEdit`): buffer, cursor, history and a one-row terminal.

`Arith` writes products of run-time sizes as repeated addition and quotients as repeated
subtraction, so that proofs stay linear; `Seqs` and `Octets` hold shared notions.

## Reading the model

State that the system updates in place is a class; its methods are proved against
specification functions on sequences and maps, and the laws are lemmas about those
functions. Ghost parameters name the chain, path or index that a proof follows; they do
not influence the result.

Assumptions, each taken from how the code is used:

- Sector reads and writes succeed; the boot sector is consistent
  (`FatMount.MountedValid` says exactly when). Names are in 8.3 form: flush and unlink
  compare only those eleven bytes.
- Offsets and counts are 64-bit words, of which the driver uses 32 bits for positions:
  `FatIo.ReadExact` and `FatIo.Write` say exactly when the result is what was asked for.
- The flush and unlink walks match volume labels, which lookup skips. `Create` therefore
  asks that no label carries the name; `FatSlots.LookupMeetsMatch` is the exact condition.
- User pages are mapped to frames fresh from the bitmap. A user half therefore never
  holds a huge page, so the early exits for huge pages do not arise. The loader and mmap
  look whether a page is mapped first; the stack setup of spawn and exec does not, so a
  program that reaches the stack loses frames (`Elf.LoadWithStack`). Running out of frames for a table, or getting
  one above the direct map, is a kernel panic and ends a run.
- The loader's files are smaller than 2 GiB.
- Only the allocator itself moves the break, and the arena stays below 4 GiB; how far the
  kernel lets it move is a field of the arena.
- Frame 0 is reserved at boot, so an address of 0 always means failure.
- Process numbers do not wrap. A caller of `task_alloc` is not itself dead, and tasks
  have names, since an unnamed ready slot counts as free.
- Whether the heap has a stack for a new task, whether an address space could be made and
  whether the user stack is mapped are parameters of the process operations.
- A shared library's image spans less than 2^63 bytes; names of needed libraries have no
  slash and fit their buffer.

Where code and comments disagree the code is followed: the header size of the user
allocator is 24 bytes, not 12.

## Model

| member | source | states |
|---|---|---|
| FatLayout.EntryPlace | src/fs/fat.c:139-145 | every in-range table entry lies inside its table copy and inside one sector |
| FatLayout.EntryLbaInjective | src/fs/fat.c:161-169 | different table copies never share a sector |
| FatLayout.WordRoundTrip | src/fs/fat.c:148-156 | little-endian bytes written for a table word decode to that word |
| FatLayout.MergedParts | src/fs/fat.c:170-181 | a merged table word has the new value in its low part and the old reserved bits in its high part |
| FatLayout.DecodePatched | src/fs/fat.c:170-181 | patching an entry stores the new low 28 (16) bits and keeps the reserved bits of that copy |
| FatLayout.PutEntryTable | src/fs/fat.c:161-185 | one entry write changes exactly one entry of exactly one table copy |
| FatTable.ChainDistinct | src/fs/fat.c:139-159 | a chain that ends never visits a cluster twice: terminated chains are acyclic |
| FatTable.ChainLength | src/fs/fat.c:233-246 | a chain has at most one link per cluster of the volume |
| FatTable.ChainUnique | src/fs/fat.c:139-159 | a chain is determined by its first cluster |
| FatTable.ChainIsReach | src/fs/fat.c:217-225 | the clusters of a chain are exactly those reachable from its head |
| FatTable.ClosedPathIsReach | src/fs/fat.c:217-225 | a walk that ends or runs into itself has visited exactly the reachable clusters |
| FatVolume.Volume.NextCluster | src/fs/fat.c:139-159 | the successor read from sectors is the successor in the abstract table; 0 at end marks, bad links and bad clusters |
| FatVolume.Volume.SetCluster | src/fs/fat.c:161-185 | all table copies get the entry, reserved bits stay, no other sector or entry changes |
| FatVolume.Volume.AllocCluster | src/fs/fat.c:187-215 | the lowest free cluster becomes an end mark in every copy and is zeroed; 0 exactly when no cluster is free, with the disk unchanged |
| FatVolume.Volume.FreeChain | src/fs/fat.c:217-225 | on any table, cyclic ones included, it ends and zeroes exactly the clusters reachable from the start, in every copy |
| FatVolume.ClusterPlace | src/fs/fat.c:227-229 | the sectors of an in-range cluster lie in the data area, on the disk |
| FatVolume.ClustersDisjoint | src/fs/fat.c:227-229 | different clusters occupy different sectors |
| FatFile.WriteInCluster | src/fs/fat.c:542-555 | read-modify-write of partial sectors overwrites exactly the requested bytes of one cluster |
| FatFile.ReadInCluster | src/fs/fat.c:497-509 | sector-wise reading returns exactly the requested bytes of one cluster |
| FatFile.NextOrGrow | src/fs/fat.c:236-243 | a missing successor is allocated, linked and reads as zeros; earlier bytes stay |
| FatFile.WalkChain | src/fs/fat.c:233-246 | the n-th cluster of a chain, growing the chain with zeroed clusters when asked to; nothing else changes |
| FatIo.ReadData | src/fs/fat.c:491-513 | the cluster loop returns the chain's bytes from the position on, as many as asked for or up to the end of the chain |
| FatIo.Read | src/fs/fat.c:478-513 | for every 64-bit offset and count, the bytes that the driver's mix of 32- and 64-bit arithmetic selects from the file and the zero slack of its chain |
| FatIo.ReadExact | src/fs/fat.c:478-482 | those are the file's bytes in the range asked for if and only if the 32-bit position is past the end, or the offset is below 2^32 and the range ends below 2^64 or the file fills its chain |
| FatIo.ReadWraps | src/fs/fat.c:478-482 | at offset 2^32 of a non-empty file, where nothing is due, the whole chain comes out |
| FatIo.WriteData | src/fs/fat.c:536-566 | the write loop puts the data over the chain's bytes, growing it; it stops short only when the volume is full |
| FatIo.SeekForWrite | src/fs/fat.c:522-534 | positioning for a write gives the file a first cluster and zero-filled growth up to the offset |
| FatIo.Write | src/fs/fat.c:518-585 | for every offset the data goes over the chain at the 32-bit position, any gap zero; the file is the old one with [offset, offset+r) replaced if and only if that range ends below 2^32; a short count only on a full volume, and a failed write changes nothing |
| FatIo.WriteWraps | src/fs/fat.c:531-536 | at offset 2^32 the data replaces the start of the file |
| FatDir.ScanRegion | src/fs/fat.c:299-338 | scanning sectors stops at the first slot whose callback says so, and says where it is |
| FatDir.WalkDir | src/fs/fat.c:299-338 | the walk over a fixed root or a cluster chain equals a walk over the directory's slots |
| FatDir.PutSlotBytes | src/fs/fat.c:403-416 | patching a slot in its sector changes that slot of that directory and nothing else |
| FatSlots.MatchFinds | src/fs/fat.c:593-608 | in a well-formed directory the update walk finds a name exactly when a slot in use carries it |
| FatSlots.LookupFinds | src/fs/fat.c:365-393 | in a well-formed directory lookup finds exactly the entry with the name |
| FatSlots.LookupMeetsMatch | src/fs/fat.c:365-393 | lookup and the update walk stop at the same slot if and only if no label with the name comes before every other slot of that name and before the end mark |
| FatSlots.LabelShadows | src/fs/fat.c:593-608 | for every name, a label in front of a file makes the two walks differ |
| FatSlots.RemovedOk | src/fs/fat.c:691-706 | deleting an entry keeps the tree: references, single ownership and well-formed directories |
| FatSlots.PlacedOk | src/fs/fat.c:403-416 | filling a free slot keeps the tree when the name and the chain are new |
| FatSlots.UpdatedOk | src/fs/fat.c:593-608 | changing size and first cluster of an entry keeps the tree |
| FatSlots.PatchedFields | src/fs/fat.c:593-608 | the flushed slot has the new size and first cluster and its old name and attributes |
| FatFs.Reassembled | src/fs/fat.c:518-717 | after a step that leaves other chains and directories alone, checking what it touched restores the whole-volume invariant |
| FatFs.ExtendedKeeps | src/fs/fat.c:233-246 | growing one chain leaves every disjoint chain's links and bytes alone |
| FatOps.UnlinkOk | src/fs/fat.c:691-717 | freeing a chain and deleting its slot keeps the volume well formed and every other file's bytes |
| FatOps.WriteOk | src/fs/fat.c:518-620 | growing a file's chain and flushing its slot keeps the volume well formed and every other file's bytes |
| FatOps.FilesKept | src/fs/fat.c:518-717 | files whose chains a step leaves alone keep their bytes |
| FatCreate.FilledVol | src/fs/fat.c:403-416 | a new record in a free slot keeps the volume well formed |
| FatCreate.GrowDirVol | src/fs/fat.c:664-678 | adding a zeroed cluster to a directory keeps the volume well formed |
| FatCreate.NewDirVol | src/fs/fat.c:637-661 | a fresh directory cluster with its dot records keeps the volume well formed |
| FatCreate.LeakedVol | src/fs/fat.c:637-639 | a cluster left allocated by a failed create harms nothing |
| FatDriver.FileSystem.Unlink | src/fs/fat.c:691-717 | 0 exactly when the name is in use; then exactly the entries of its chain become free, the record is deleted and all other files keep their bytes; otherwise the disk is unchanged; the store loses the name, with what a directory of that name held, and nothing else |
| FatDriver.FileSystem.FindDir | src/fs/fat.c:453-476 | found only for the entry with that name, with its size, kind and first cluster; not found only when nothing but a volume label has the name |
| FatDriver.FileSystem.WriteFile | src/fs/fat.c:518-620 | lookup, write and flush: the store changes in the bytes of that one name, spliced at the 32-bit position, which is what was asked for if and only if the range ends below 2^32; no entry comes or goes; short or failed only on a full volume or without such a file, and a failed write leaves the store as it was |
| FatDriver.FileSystem.ReadFile | src/fs/fat.c:478-513 | succeeds exactly when the store has a file of the name and changes nothing; the bytes are those in the range under the exact condition of FatIo.ReadExact |
| FatDriver.FileSystem.Create | src/fs/fat.c:622-682 | an existing name is refused with the disk unchanged; success adds exactly one name to the store, an empty file or a directory that no name led to before, with its two dot records; failure only for a full volume or a fixed root without a free slot |
| FatDriver.FileSystem.AddInNewCluster | src/fs/fat.c:664-678 | a full directory grows by one cluster that holds the new record |
| FatDriver.NewDirCluster | src/fs/fat.c:637-661 | a new directory's cluster holds exactly the records of itself and of its parent, then end marks; 0 only on a full volume |
| FatDriver.FlushDirent | src/fs/fat.c:610-620 | the directory entry on disk gets the node's size and first cluster |
| FatDriver.FileSystem.Resolve | src/fs/fat.c:453-476 | walking names from the root ends at the directory the store says, and fails exactly when the store has none |
| FatDriver.FileSystem.Run | src/fs/fat.c:518-717 | every run of create, write and unlink requests is a run of the store in which each step does what its result says, and a create or write fails or stops short only for the name, a full volume or a packed root; all chains stay acyclic, disjoint and allocated, all table copies agree, and directories match the disk |
| FatDriver.FileSystem.Serve | src/fs/fat.c:453-717 | one request on the directory at its path refines the step of the store, the reason of a failure included |
| FatStore.WrittenStore | src/fs/fat.c:518-620 | disk, tree and chains changed under one file: the store differs in the bytes of that file and in nothing else |
| FatStore.CreatedStore | src/fs/fat.c:622-682 | one entry more on disk: the store has that name more, empty, and nothing else |
| FatStore.RemovedStore | src/fs/fat.c:691-717 | one entry less on disk: the store has lost that name, with what a directory of that name held, and nothing else |
| FatStore.FreshInStore | src/fs/fat.c:637-661 | a cluster that heads no directory is named by nothing in the store |
| FatMount.Mount | src/fs/fat.c:741-794 | a boot sector is refused exactly for the listed faults; otherwise the geometry, with 32-bit sums, has as many clusters as fit |
| FatMount.MountedValid | src/fs/fat.c:766-777 | the mounted geometry is consistent if and only if four conditions hold that mounting does not check |
| FatMount.FormattedFat16 | src/fs/fat.c:766-782 | a FAT16 volume with a zeroed root and agreeing tables satisfies the invariant that runs start from |
| FatMount.FormattedFat32 | src/fs/fat.c:766-782 | the same for FAT32 with a root of one zeroed cluster |
| FatNames.FromDot | src/fs/fat.c:114-133 | the in-place conversion gives the eleven-byte form: upper case, padded, cut at eight and three |
| FatNames.UserRoundTrip | src/fs/fat.c:98-133 | every lower-case 8.3 name comes back from its entry form unchanged |
| FatNames.EntryRoundTrip | src/fs/fat.c:98-133 | every canonical entry name comes back from the form shown to the user |
| FatNames.EntryNameProper | src/fs/fat.c:114-133 | a converted name never looks like an end mark or a dot record, and like a deleted slot only if it starts with byte E5 |
| Pmm.SetBit | src/mm/pmm.c:29-31 | setting a bit changes that bit of the word only |
| Pmm.ClearBit | src/mm/pmm.c:33-35 | clearing a bit changes that bit of the word only |
| Pmm.CountUpdate | src/mm/pmm.c:171-193 | changing one flag changes the number of taken frames by one |
| Pmm.LowestClear | src/mm/pmm.c:174-180 | the inner scan finds the lowest clear bit of a word that is not all ones |
| Pmm.FrameAllocator.constructor | src/mm/pmm.c:81-84 | all frames start out taken and counted |
| Pmm.FrameAllocator.Alloc | src/mm/pmm.c:171-185 | the lowest free frame becomes taken; 0 exactly when all are taken; the count stays the number of set bits |
| Pmm.FrameAllocator.Free | src/mm/pmm.c:187-193 | a frame in memory becomes free whether or not it was, any other address is ignored, and the count stays right |
| Pmm.FrameAllocator.ReserveRange | src/mm/pmm.c:160-169 | exactly the frames that the byte range touches become taken |
| Pmm.FrameAllocator.FreeCount | src/mm/pmm.c:195-195 | the reported number is the number of clear bits below the total |
| Vmm.Machine.constructor | src/mm/vmm.c:135-174 | after boot every taken frame is the kernel's and no user address space exists |
| Vmm.Machine.AllocTable | src/mm/vmm.c:62-71 | a zeroed frame that nothing else holds; a halt exactly when every frame of the direct map is taken |
| Vmm.Machine.StepCreate | src/mm/vmm.c:80-97 | one level of the walk adds at most one table and changes no page of any address space |
| Vmm.Machine.WalkCreate | src/mm/vmm.c:76-110 | new tables only on the way to the page, in this address space; no page anywhere changes; a halt only when no frame is left for a table |
| Vmm.Machine.WalkLookup | src/mm/vmm.c:113-126 | the walk reaches a leaf table exactly when all tables on the path exist |
| Vmm.Machine.MapIn | src/mm/vmm.c:183-199 | the page maps to the frame with the given flags, mapped before or not; every other page of every address space keeps its frame, flags and bytes; the frame of an overwritten page stays in use without an owner |
| Vmm.PageReplaced | src/mm/vmm.c:191-194 | another frame below a leaf entry keeps the tables and all other pages |
| Vmm.Machine.GetPhysical | src/mm/vmm.c:210-214 | the frame of a mapped page, 0 exactly for unmapped ones |
| Vmm.Machine.SetFlags | src/mm/vmm.c:216-227 | changes the flags of that one page; -1 and no change when it is not mapped |
| Vmm.Machine.NewPml4 | src/mm/vmm.c:241-254 | an empty user half, the kernel's upper half, one frame taken; 0 and nothing taken only when every frame is taken |
| Vmm.ChildAdded | src/mm/vmm.c:76-110 | hanging a page below an empty entry adds one place and keeps the tree of tables |
| Vmm.FlagsChanged | src/mm/vmm.c:216-227 | changing flags of a present entry keeps every place and every other page |
| VmmFree.BelowStep | src/mm/vmm.c:256-282 | the places below a table through one more index are that child and what is below it, disjoint from the earlier ones |
| VmmFree.FreeBelow | src/mm/vmm.c:256-282 | the nested loops free exactly the frames below a table, each of which was in use: once each |
| VmmFree.FreeUserSubtree | src/mm/vmm.c:256-282 | exactly the data and table frames of the user half are given back and every other address space is as before |
| VmmFree.FreePml4 | src/mm/vmm.c:292-296 | also gives back the PML4 itself; the kernel's tables and null are left alone |
| VmmFree.UnmapUserSpace | src/mm/vmm.c:298-304 | empties the user half and keeps the address space usable |
| VmmFree.AccountedLess | src/mm/vmm.c:256-282 | when a set of places is given up with its frames, every other frame still has exactly one owner |
| Fork.CopyPage | src/kernel/process.c:510-521 | one page gets a fresh frame with the same bytes and low flags in the child |
| Fork.CopyBelow | src/kernel/process.c:498-527 | the nested loops copy exactly the pages below a table |
| Fork.DuplicateUserSpace | src/kernel/process.c:498-527 | on success the child has the parent's pages, low flags and bytes in frames of its own; the parent and all others are as before |
| Fork.ForkSpace | src/kernel/process.c:552-558 | success gives a duplicate; running out of frames gives every frame back, with the same bitmap, places and pages as before, and happens only if fewer frames were free than the parent's address space holds |
| Fork.CountPlaces | src/mm/vmm.c:241-304 | the number of taken frames is the number of kernel frames plus one per table and page of every address space |
| Fork.WritesPrivate | src/kernel/process.c:498-527 | a write to any mapped page is seen in no other page of any address space |
| Fork.Run | src/mm/vmm.c:183-304 | over every run of create, map, protect, unmap, free and fork each frame in use is the kernel's, lost, or exactly one node of one address space; frames are lost one per request that maps a mapped page, so none is if and only if no request does; every step does what it says; only a lack of table frames ends a run |
| Fork.OverwriteLoses | src/kernel/process.c:344-350 | mapping a fresh page over a mapped one leaves its frame in use and in no place |
| UserImage.PathUnique | src/mm/vmm.c:53-56 | different page numbers have different table indices |
| UserImage.MapRange | src/kernel/elf.c:104-117 | exactly the missing pages of a range are mapped, zeroed; other address spaces do not change; out of memory only when every frame is taken |
| UserImage.MapStack | src/kernel/process.c:344-350 | the four stack pages are zero afterwards and all other pages as before; no frame is lost if and only if no page of the image lay there |
| UserImage.WriteInto | src/kernel/elf.c:49-61 | the page loop writes the bytes up to the first unmapped page and nothing else |
| UserImage.ZeroInto | src/kernel/elf.c:63-74 | the page loop clears the range up to the first unmapped page and nothing else |
| Elf.HeadersInside | src/kernel/elf.c:42-45 | an accepted header table lies inside the file: the wrap test suffices |
| Elf.SegmentInside | src/kernel/elf.c:88-102 | the 64-bit wrap tests accept a segment if and only if its file part is in the file and its memory in user space, on the integers |
| Elf.LoadSegment | src/kernel/elf.c:83-126 | one segment: pages mapped, file bytes, then zeros |
| Elf.LoadAt | src/kernel/elf.c:76-129 | on success the image is exactly the expected one, also on shared pages; rejected exactly for malformed files; out of memory only when every frame is taken |
| Elf.LoadWithStack | src/kernel/process.c:310-350 | loading a file and setting up its stack keeps every frame owned if and only if no segment touches a stack page |
| Elf.LowStackReaches | src/kernel/elf.c:88-102 | a file that the loader accepts and whose one segment lies in the stack |
| Elf.SegmentImage | src/kernel/elf.c:119-125 | with disjoint segments each has its file bytes and its zeros |
| Elf.Elsewhere | src/kernel/elf.c:104-125 | where no segment lies memory is as before, and zero on new pages |
| Elf.Fresh | src/kernel/elf.c:104-117 | pages that no segment touches hold nothing |
| Blocks.LiveDisjoint | src/mm/heap.c:32-54 | two live payloads never overlap, with a header between them |
| Blocks.FreedLive | src/mm/heap.c:56-73 | releasing and merging forgets exactly one allocation and loses no byte |
| Heap.AllocatedOk | src/mm/heap.c:32-54 | first fit with splitting adds exactly one allocation of at least the size and keeps the heap merged and aligned |
| Heap.FreedShape | src/mm/heap.c:56-73 | two-sided merging leaves no two free neighbours |
| Heap.AllFreeIsOne | src/mm/heap.c:56-73 | with nothing live the heap is the single initial block |
| Heap.Conservation | src/mm/heap.c:75-87 | used bytes, free bytes and one header per free block make up the region |
| Heap.RoundedUp | src/mm/heap.c:34-34 | rounding to 16 keeps a request if and only if it is at most 2^64-16; above that it becomes zero |
| Heap.KernelHeap.constructor | src/mm/heap.c:23-30 | one free block spanning the size from the rounded start; inside the given region if and only if the start was aligned |
| Heap.KernelHeap.Kmalloc | src/mm/heap.c:32-54 | a 16-aligned payload that no live one overlaps, or null exactly when nothing fits; the links refine the block sequence |
| Heap.KernelHeap.Kfree | src/mm/heap.c:56-73 | removes exactly that allocation and merges on both sides |
| Heap.KernelHeap.GetUsed | src/mm/heap.c:75-80 | the used total, which with the free bytes and free headers is the region |
| Heap.KernelHeap.GetFree | src/mm/heap.c:82-87 | the free total, which with the used bytes and free headers is the region |
| Heap.Run | src/mm/heap.c:32-73 | after any run the heap tiles its region, and once nothing is live it is the initial block |
| Malloc.TiledReplace | user/libc/malloc.c:96-110 | rewriting the tags of some blocks and the back tag behind them keeps all other tags right |
| Malloc.ListedRemove | user/libc/malloc.c:46-58 | unlinking one entry keeps the rest of the free list, in order |
| Malloc.PayloadApart | user/libc/malloc.c:40-110 | no header overlaps a live payload |
| Malloc.RoundingExact | user/libc/malloc.c:114-114 | growing makes room for a request if and only if its rounding does not wrap at 32 bits |
| Malloc.Arena.FreelistInsert | user/libc/malloc.c:40-44 | the block heads the list and is marked free |
| Malloc.Arena.FreelistRemove | user/libc/malloc.c:46-58 | the block leaves the list and is marked used; the others keep their order |
| Malloc.Arena.Absorb | user/libc/malloc.c:142-147 | two neighbours become one block and the next back tag follows |
| Malloc.Arena.MaybeSplit | user/libc/malloc.c:96-110 | the tail becomes a free block with right tags on both sides, or nothing changes |
| Malloc.Arena.LastBlockSize | user/libc/malloc.c:81-88 | the walk over the arena ends at the last block |
| Malloc.Arena.Grow | user/libc/malloc.c:62-94 | one page-rounded free block at the end, tagged with its predecessor's size, heads the list; fails exactly when the break cannot move so far, changing nothing |
| Malloc.Arena.Scan | user/libc/malloc.c:116-126 | the first block of the free list that is large enough is taken and trimmed; 0 exactly when none is, with no change |
| Malloc.Arena.MallocFor | user/libc/malloc.c:112-133 | the recursion ends after one growth (termination), with one new allocation: the first fit, else in the new block; fails exactly when nothing fits and the arena cannot grow |
| Malloc.Arena.Malloc | user/libc/malloc.c:112-133 | an 8-aligned payload of at least the size, disjoint from all others, first fit; no byte of a live payload changes; 0 exactly when nothing fits and the arena cannot grow |
| Malloc.Arena.Free | user/libc/malloc.c:135-162 | forgets exactly that allocation, merges with both free neighbours, ignores a second free, and keeps the bytes of all payloads |
| Malloc.Arena.Realloc | user/libc/malloc.c:171-183 | keeps the contents, at the old place if it is large enough and else at a new one; on failure the old allocation stays, and failure is exactly that malloc would fail |
| Malloc.CopyBytes | user/libc/malloc.c:180-180 | copies between ranges that do not overlap and touches nothing else |
| Malloc.Run | user/libc/malloc.c:112-183 | over every run tags tile the arena, back tags match and the free list is exactly the free blocks; and every allocation keeps the bytes stored in it until its release, through moves and the calls on all others |
| Pipe.RingPush | src/kernel/pipe.c:73-76 | storing at the write position appends to the ring's contents |
| Pipe.RingPop | src/kernel/pipe.c:48-51 | reading at the read position takes the first byte of the ring's contents |
| Pipe.PipeSystem.Dequeue | src/kernel/pipe.c:47-53 | the loop takes out the first n bytes in order |
| Pipe.PipeSystem.Enqueue | src/kernel/pipe.c:69-78 | the loop appends the bytes in order |
| Pipe.PipeSystem.ResumeRead | src/kernel/pipe.c:34-54 | waits exactly while the ring is empty and a writer is left; else takes the oldest bytes, as many as asked for and there; reports the end only when no writer is left and all bytes put in have come out |
| Pipe.PipeSystem.ResumeWrite | src/kernel/pipe.c:56-83 | each round appends the next part of the call's data, as much as fits; a short count only when no reader is left |
| Pipe.Run | src/kernel/pipe.c:34-83 | first in, first out under every interleaving: bytes out are a prefix of bytes in, and each call moved exactly what it reports |
| Tasks.RotatedCycle | src/kernel/task.c:185-211 | the same cycle seen from another task |
| Tasks.InsertedCycle | src/kernel/task.c:145-148 | inserting after the current task keeps one cycle |
| Tasks.RemovedCycle | src/kernel/task.c:54-62 | unlinking a task keeps one cycle of the others |
| Tasks.Scheduler.FindPrevious | src/kernel/task.c:54-59 | walking from a listed task finds its predecessor |
| Tasks.Scheduler.ListRemove | src/kernel/task.c:54-62 | exactly that task leaves the cycle and nobody moves further from the front |
| Tasks.Scheduler.Alloc | src/kernel/task.c:64-105 | the first unused slot, else the first dead task's, which leaves the list; none exactly when there is neither or no stack; no other task changes |
| Tasks.Scheduler.InsertReady | src/kernel/task.c:145-148 | the new task is next; all others move back by at most one place |
| Tasks.Scheduler.Pick | src/kernel/task.c:191-196 | the search stops at the first runnable task, bounded by idle |
| Tasks.Scheduler.Schedule | src/kernel/task.c:185-225 | only runnable tasks are picked, so the panic is unreachable; the cycle is rotated and only two states change |
| Tasks.Watch | src/kernel/task.c:145-225 | a task that stays ready is picked as soon as there were as many switches as its distance on the list plus the creations meanwhile |
| Processes.HeldPipe | src/kernel/pipe.c:16-32 | a descriptor of a live process never names a freed pipe |
| Processes.Dropped | src/kernel/process.c:718-726 | closing an end keeps the counts covering, and exact, and frees a pipe only when nobody names it |
| Processes.Added | src/kernel/process.c:758-779 | duplicating an end keeps the counts covering, and exact |
| Processes.Died | src/kernel/process.c:861-875 | a death leaves counts that cover the living and that are exact if and only if they were and the process held no pipe end any more |
| Processes.DiedExact | src/kernel/process.c:861-875 | exact counts survive a death if and only if the process held no pipe end any more, so killing a holder breaks them |
| Processes.Kernel.Current | src/kernel/process.c:100-107 | the one live process of the running task, or none |
| Processes.Kernel.DropFd | src/kernel/process.c:718-726 | the descriptor is closed and its reference returned, freeing the pipe at zero |
| Processes.Kernel.MakePipe | src/kernel/process.c:737-756 | the two lowest free descriptors name the new pipe, counted once each; fails exactly without them or without memory, changing nothing |
| Processes.Kernel.Dup2 | src/kernel/process.c:758-779 | the new descriptor becomes the old one, its former pipe end is returned and the copy counted; fails exactly for bad descriptors, changing nothing |
| Processes.Kernel.Close | src/kernel/process.c:728-735 | an open file or pipe end is closed and returned, a console stays; fails exactly for descriptors that are not open |
| Processes.Kernel.ProcessAlloc | src/kernel/process.c:115-141 | waited-for slots are cleared and the first free one gets a number never used before; all others are untouched; none exactly when every slot is taken |
| Processes.Kernel.Fork | src/kernel/process.c:529-578 | succeeds exactly with a slot, a task, a stack and memory; the child has the parent's descriptors, counted again, its group and a task of its own, ready to run; on failure the living are as before, and the ends counted for the half-made child stay counted |
| Processes.Kernel.Spawn | src/kernel/process.c:308-395 | succeeds exactly with a slot, a task, a stack and an image; a new process with consoles and a ready task of its own; on failure the living are as before |
| Processes.Kernel.Exit | src/kernel/process.c:453-492 | the process is dead with its code and its pipe ends returned, so exact counts stay exact; dead children and, without a live parent, itself count as waited for; nobody else changes |
| Processes.Kernel.Fault | src/kernel/isr.c:95-108 | the current process is dead with 128 plus the signal, its descriptors not returned |
| Processes.Kernel.WaitRound | src/kernel/process.c:416-451 | a dead process gives its code and is marked, an unreported stop is reported once, a live one is waited for; no such process exactly when none has the number |
| Processes.Kernel.SignalOne | src/kernel/process.c:861-890 | kill, stop, continue or queue and wake: exactly this process and its task change, and only SIG_CONT makes a stopped task runnable |
| Processes.Kernel.SignalGroup | src/kernel/process.c:55-82 | exactly the live processes of the group and their tasks get the signal |
| Processes.Kernel.Kill | src/kernel/process.c:861-890 | one process or a group gets the signal; refused exactly for bad signals and unknown processes, changing nothing |
| Processes.Kernel.TickAlarms | src/kernel/process.c:900-914 | every alarm counts down; exactly those that reach zero are queued and their blocked tasks woken |
| Processes.Kernel.Pause | src/kernel/syscall.c:581-595 | the current process is blocked and another, runnable task runs; nothing else changes |
| Processes.Kernel.SetHandler | src/kernel/process.c:851-859 | sets one handler of the current process and returns the old one; refused exactly for bad signals, for the two that cannot be caught and without a current process |
| Processes.Kernel.SetAlarm | src/kernel/process.c:892-898 | the alarm of the current process is set and the old one returned in whole seconds, rounded up |
| Processes.Kernel.SetGroup | src/kernel/process.c:87-93 | the named process joins the group, its own for 0; fails exactly when there is no such process |
| Processes.Kernel.Deliver | src/kernel/process.c:943-988 | acts on the lowest pending signal: default death, ignore, or a saved frame and a call of the handler; never while a handler runs, so a saved frame is not overwritten; counts stay exact unless a process that holds a pipe end dies of it |
| Processes.Kernel.Sigreturn | src/kernel/process.c:916-921 | the frame saved at delivery comes back and the handler has ended; otherwise nothing changes |
| Processes.Kernel.Schedule | src/kernel/task.c:185-225 | a runnable task is picked, only the two tasks of the switch change state, and live processes keep their tasks |
| Processes.Step | src/kernel/process.c:55-141 | any kernel action: dead tasks come back only in the slot that a fork or spawn recycles, stopped tasks that are not running only by SIG_CONT or death, dead unreaped processes keep slot and code, and every pipe's counts equal its live descriptors afterwards if and only if they did before and the action leaks no end |
| Processes.Run | src/kernel/process.c:416-988 | over all runs: distinct numbers, live processes with undead tasks of their own, counts covering live descriptors; the counts of all pipes equal the live descriptors at the end if and only if they did at the start and no event leaked an end: a fork that failed after copying, or a death of a holder other than by exit |
| Processes.ExactAlong | src/kernel/process.c:529-875 | along any trace, all counts equal the live descriptors at the end if and only if they did at the start and no step leaked: no later step repairs a leak |
| Processes.RunThenReturn | src/kernel/process.c:916-988 | from the delivery of a caught signal through any run, other processes returning from handlers of their own included: the return restores the interrupted frame, unless the process itself has already returned |
| Processes.HandlerAlong | src/kernel/process.c:916-988 | along any trace a process in a handler keeps the saved frame until it returns itself |
| Paths.CompsConcat | src/kernel/process.c:146-193 | joining two paths with a slash joins their components |
| Paths.CompsText | src/kernel/process.c:146-193 | a canonical path has exactly the components of its stack |
| Paths.WalkBack | src/kernel/process.c:177-183 | walking back in the buffer drops exactly the last component and stays at the root |
| Paths.CanonInto | src/kernel/process.c:146-193 | the buffer algorithm equals the stack fold with its size limit, failure included |
| Paths.Idempotent | src/kernel/process.c:146-193 | canonicalising a canonical path changes nothing, from any directory |
| Paths.LocalClean | src/kernel/process.c:146-193 | a canonical path has no empty, dot or dot-dot component |
| Paths.ChdirComposes | src/kernel/syscall.c:313-349 | resolving q after chdir(p) equals resolving p/q before it, whenever all fit |
| Paths.ChdirResolves | src/kernel/syscall.c:313-349 | the same for resolution under a root: q after chdir(p) is p/q before it, whenever all fit |
| Paths.Resolve | src/kernel/process.c:195-214 | the root in front of the canonical path, cut to the buffer; none exactly when canonicalisation fails |
| Paths.Contained | src/kernel/process.c:195-214 | a resolved path has the root's components first, even when it was cut; the names of the canonical path and nothing else follow if and only if it was not cut or leads to the root |
| Paths.CutName | src/kernel/process.c:195-214 | the cut can leave a dot-dot component: a last name that starts with two dots, cut after them |
| Paths.Chdir | src/kernel/syscall.c:313-349 | succeeds exactly for a directory whose path has the root in front; the stored directory is what follows the root, which is the canonical path whenever nothing was cut; the root never changes |
| Paths.Chroot | src/kernel/syscall.c:361-379 | succeeds exactly for a directory; the new root has the components of the old one first, and those of the resolved path after them whenever nothing was cut |
| Paths.Run | src/kernel/process.c:537-539 | over every run of chdir, chroot and fork steps no root leaves the one all started under, cut paths included |
| Paths.StaysInside | src/kernel/process.c:195-214 | every path of such a process has that root's components first, and plain names below unless it was cut |
| Ldso.LibPathName | user/ldso/ld_main.c:376-382 | the base name of the built path is the dependency name |
| Ldso.ClosedHolds | user/ldso/ld_main.c:369-391 | a set closed under dependencies holds everything reachable |
| Ldso.ResolutionStable | user/ldso/ld_main.c:281-289 | objects added later never change how a name already resolves |
| Ldso.Linker.AlreadyLoaded | user/ldso/ld_main.c:359-367 | true exactly when a loaded library has that base name |
| Ldso.Linker.LoadSo | user/ldso/ld_main.c:192-259 | a region of its own in the reserved range, after all earlier ones; fails exactly when the file is missing or broken, does not fit or cannot be mapped |
| Ldso.Linker.LoadNeeded | user/ldso/ld_main.c:369-391 | ends on cyclic graphs; loads only what is reachable, with all it needs, once each and at disjoint regions; fails only when something reachable cannot be loaded |
| Ldso.Linker.LoadProgram | user/ldso/ld_main.c:502-503 | on success the loaded libraries are exactly the reachable ones; failure only when a reachable one cannot be loaded |
| Ldso.Lookup | user/ldso/ld_main.c:265-279 | the address of the first defined object or function symbol of the name, 0 if there is none |
| Ldso.Linker.Resolve | user/ldso/ld_main.c:281-289 | the first definition in the order program, library 0, library 1 and so on |
| Ldso.Linker.ApplyRela | user/ldso/ld_main.c:291-357 | memory is that after all relocations of the object in order; fails exactly when a slot or copy names something undefined |
| Ldso.Linker.RelocateAll | user/ldso/ld_main.c:505-512 | all libraries, then the program: every slot that no later relocation touches holds the first definition of its name; fails exactly when a name is undefined |
| Ldso.DoneHeld | user/ldso/ld_main.c:310-317 | after any list of relocations every settled slot holds the first definition of its name |
| Ldso.AllSettled | user/ldso/ld_main.c:291-357 | when relocations stay inside their own image and none touches an earlier slot there, no relocation of any object touches a slot of another: all slots are settled |
| Ldso.Linker.Link | user/ldso/ld_main.c:502-512 | load and relocate: on success exactly the reachable libraries are loaded and every slot of every object holds the first definition of its name; fails only when something reachable cannot be loaded or a name is undefined |
| Ldso.SlotsAgree | user/ldso/ld_main.c:310-317 | two slots for one name hold the same address |
| Ldso.Linker.Dlopen | user/ldso/ld_main.c:427-453 | a loaded base name is returned unchanged; a new one is loaded with what it needs and relocated; every name that resolved before resolves the same, and a program whose slots all hold their first definitions still has them, the new libraries included |
| Ldso.OpenedLinked | user/ldso/ld_main.c:446-450 | relocating new libraries fills their slots and leaves the slots of all others as they were |
| LineEdit.WordLeft | user/shell.c:551-557 | the last word start before the cursor, or the start |
| LineEdit.WordRight | user/shell.c:558-563 | the next word start, or the end |
| LineEdit.UpThenDown | user/shell.c:735-757 | n steps up into the history and n down again bring the live line back, for every n the history allows |
| LineEdit.TypeThenErase | user/shell.c:656-666 | a typed character rubbed out leaves the line as it was |
| LineEdit.History.Push | user/shell.c:504-514 | the 32 most recent lines, newest first; empty lines and repeats of the last one are not kept |
| LineEdit.History.Get | user/shell.c:517-521 | the i-th most recent line, none outside the range |
| LineEdit.Editor.RepaintAt | user/shell.c:528-542 | after the redraw the row shows prompt, new text and blanks with the cursor at its place |
| LineEdit.Editor.WalkHistory | user/shell.c:735-757 | the line shown is the entry or the saved live line |
| LineEdit.Editor.Key | user/shell.c:633-778 | each key changes text and cursor as the reference function says and the terminal mirrors it |
| LineEdit.Session | user/shell.c:633-778 | after any keys the line is the fold of the reference function over them, and the terminal shows exactly it, within the buffer |

## Left out

- Drivers, boot code, interrupt tables, TLB and CR3 instructions, FXSAVE state and kernel stacks: no specification to prove against.
- FAT long names, readdir and stat; names reached only through long-name records.
- I/O errors from the block device, and failing kernel allocations inside the FAT driver.
- Timestamps and access times of directory entries.
- `vmm_unmap_in`, `pmm_region_iter` and the VGA frame alias: easy next to the rest, or, for the alias, mapping device frames that the bitmap does not own.
- Frame addresses are frame numbers; the truncation of an address to 32 bits of frame number is not modelled.
- The kernel's own mappings (the upper half of a PML4) are carried along and not interpreted.
- Registers apart from those that signal delivery changes, and the user stack word it pushes.
- CPU-time accounting, waitpid's folding of child times, foreground groups and process names.
- `exec` beyond emptying the address space, loading an image and mapping the stack; the arguments on the user stack.
- Mount lookup, procfs, ramfs, environment variables, strace.
- Tab completion, tokenising and variable expansion in the shell; the Enter key.
- `calloc` and the arena's pages beyond the break.
- Symbol versions, hash tables and the bytes moved by copy relocations and 32-bit displacements: these writes only invalidate the words they overlap. Relocations are taken not to overwrite symbol tables.
- FatDriver.FileSystem.Create: asks that no volume label in the directory has the name, because lookup would miss it.
- Tasks.Scheduler.FindPrevious: leaves out the walk's early return for a task that is on no list, which does not arise.
- Paths.ChdirComposes: is about calls that succeed; when one of the three paths exceeds its buffer that call fails instead.
- Ldso.Linker.Dlopen: is for paths that fit the stored path of an object.
- Processes.Kernel.Deliver: takes as given whether the user stack has a page for the pushed word.
- FatDriver.FileSystem.WriteFile: leaves out writes that run past 2^32 from their 32-bit position on a volume of 4 GiB or more; FatIo.Write covers them, but the size then wraps and the bytes behind it need not be zero, so that the volume invariant can fail.
- FatDriver.FileSystem.Run: leaves out those writes, and requests whose name a volume label carries, as its single operations do.
- Elf.LoadWithStack: as Elf.LoadAt; the interpreter that a program may name is not loaded.
- Malloc.Run: requests whose rounding wraps are skipped, as in Malloc.Arena.Grow.
- Pmm.FrameAllocator.Alloc: asks that frame 0 is reserved, as it is from boot on; otherwise its address would read as failure.
- Elf.LoadAt: files of 2 GiB and more are left out.
- Heap.KernelHeap.constructor: asks for a region that holds one header; the kernel passes a fixed one.
- Malloc.Arena.Grow: leaves out sizes whose rounding to pages wraps at 32 bits.
- Malloc.Arena.MallocFor: as Malloc.Arena.Grow.
- Malloc.Arena.Malloc: as Malloc.Arena.Grow.
- Malloc.Arena.Realloc: as Malloc.Arena.Grow.
- Tasks.Scheduler.ListRemove: is for a task on the list, as at every call.
- Processes.Kernel.Spawn: asks that the caller's own task is not dead.
- Paths.ChdirResolves: as Paths.ChdirComposes, and for a path that the root leaves room for.
- Ldso.LibPathName: is for names without a slash that fit the path buffer.
- Ldso.Linker.LoadNeeded: asks the same of the names that libraries need.
- Ldso.Linker.LoadProgram: asks the same of the names that the program needs.
- Ldso.Linker.ApplyRela: copied bytes and 32-bit displacements only invalidate the words they overlap.
- Ldso.Linker.RelocateAll: speaks of slots that no later relocation touches; Ldso.Linker.Link shows when these are all.
- Ldso.DoneHeld: as Ldso.Linker.RelocateAll.
- Ldso.AllSettled: asks what Ldso.Linker.Link asks.
- Ldso.Linker.Link: asks that relocations stay inside their own image without touching an earlier slot, and that the program lies outside the libraries' range, as linkers lay them out.
