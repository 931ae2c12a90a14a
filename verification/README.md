# retux: a verified model of memory, tasks, files and process images

This project models the parts of the retux kernel where many small stores have to agree with one simple
meaning, and proves that they do:

- **Frames and address spaces.** `FrameBitmap` is the first-fit frame bitmap. `PageTables` has the
  hardware walk over four levels of tables and, beside it, a tree of positions: every frame that a
  space or the kernel owns sits at exactly one position. `AddressSpaces` edits the tables in place
  (on-demand tables, widening, splitting, create, clone, destroy) and every edit is proved against the
  tree; the value-level steps are in `PageTableSteps`, `SpaceSteps`, `MappingSteps`, `Subtrees` and
  `CloneSteps`, what each operation costs in frames in `FramePrices`, the bit masks in `EntryWords` and
  the pages of addresses in `PageAddresses`. `PageRanges` and `ProcessMemory` are brk, mmap, munmap
  and mprotect; `UserImages` and `ForkAndExec` are image staging, fork and execve with its rollback;
  `Isolation`, `SpaceLifetimes` and `SpaceRuns` hold the statements about user stores and whole runs;
  `HeapPages` is the growth of the kernel heap over page tables and bitmap, with the frames it takes
  counted in `HeapFrames`. `BootTables` has the tables of start-up, and `KernelStart` the way from
  there to processes.
- **The heap.** `HeapLayout` describes boundary-tagged blocks in a flat memory of eight-byte words and
  the free list threaded through them; `KernelHeap` is the allocator over that memory.
- **Tasks.** `TaskRing` is the scheduler's ring as a value; `Scheduler` is the linked ring with the
  registers it keeps in step. `SyscallProtocol` is a machine whose steps are timer ticks, preemption,
  system call entry and exit, blocking, exit, fork, execve and spawning, over GS base, KernelGSBase,
  the saved user stack pointer, the kernel stack, RSP0, FS base and CR3; `ProtocolRuns` states what
  holds in every run, `TaskRecords` what a run remembers about a task. `StepEffects` says what each step does to every task, `TaskFates` and `FateRuns`
  which ended tasks can still be freed, `LoadedSpaces` when a destroyed address space is the loaded one,
  and `ProtocolScenes` has runs from start-up in which each happens. `SyscallStub` is the entry and exit
  stub register by register.
- **Files.** `BlockTrees` is the ext2 block tree, by digits and as it is written; `FileBlocks` is
  finding and reading blocks through it, `FileDirectories` its readdir,
  `DirectoryStreams` and `DirectoryEntries` the paging of directory streams and getdents64. `PathNames`,
  `TarTree`, `TarMeaning`, `TarLookup`, `TarArchive` and `TarRoundTrip` are the archive file system,
  from header bytes to the data found under a path.
- **Process images.** `ElfImage` loads segments page by page; `UserBytes` and `InitialStack` build the
  argc, argv, envp and auxiliary vector block and read it back. `ProgramImages` composes them with
  `ForkAndExec` over real page tables, from the bytes of a file to the memory of the new program, with
  `WordBytes` between the words of a page and its bytes.

`Machine`, `Options`, `Bytes` and `Numerals` are shared vocabulary. A word of memory is kept decoded, as the fields
of a page table entry; `phys_to_virt` is the identity. Running out of frames or of heap, which halts the
machine, is a result (`ok` false, or a `Halt`), and the contracts of the single operations say exactly when it
comes; what else a method promises is promised for the runs that go on.

## Findings

Some properties that one would expect hold only under a condition. The model keeps the code as it is, has
an input for which each fails, and proves for all inputs when it holds.

| expected | fails | holds exactly when |
|---|---|---|
| reaping a task never destroys the page tables in use | `ReleasedWhileLoaded`: a program without a parent ends while no other program exists; the kernel tasks that run next leave CR3 alone, schedule() destroys the tables, and CR3 goes on naming free frames | `ReapReleases`, `ReapReleasesLoaded`: some task with a space of its own has come to the front since the end; wait4 and execve always respect it (`CollectKeepsLoaded`, `ExecKeepsLoaded`) |
| every ended task can be freed | `ZombieOverwritten`: two unparented tasks end back to back; `ChildOutlives`: a parent exits before its child | `NeverFreed`, `EndedForGood`: its parent has not ended; without a parent, no other unparented task has ended before the next call of schedule() frees it |
| splitting a 2 MiB entry keeps permissions | `SplitDropsNx`: tables with a no-execute or user large entry | `SplitRights`; the start-up tables have no such entry, so every split of the kernel keeps all permissions (`SplitKeepsRights`) |
| a memory range frees or reserves its own frames | `TopRangeFreesAll`: a base in the last page of the address space rounds up to 0 | `FreesExact`, `TakesExact` |
| kmalloc returns what was asked for | `LargestRequest`: the request of 2^64 - 1 bytes looks for a block of at most eight words | `Kmalloc`, `PayloadFits`, `RetryRoom` |
| a read stays inside the file | `ClampWraps`: offset and count wrap around 64 bits | `ClampExact` |
| triple-indirect blocks are reachable | 8 KiB blocks, where the 32-bit cube is 0 | `CubeFits` |

After execve fails with E2BIG the break and mmap fields are those of the discarded image (`Execve`).

Where code and comments disagree the model follows the code: the comment beside the E2BIG check speaks
of a 32 KiB stack, the check itself compares with the 512 KiB that are mapped.

## Model

| member | source | states |
|---|---|---|
| `FrameBitmap.FreesExact` | src/mem/pmm.cpp:47-60 | for all 64-bit bases and lengths: the range helper frees exactly the frames that lie whole inside the range, if and only if the range fits (no end wraps, or the wrap reaches no frame) |
| `FrameBitmap.TopRangeFreesAll` | src/mem/pmm.cpp:47-60 | a concrete empty range for which the helper frees every frame |
| `FrameBitmap.TakesExact` | src/mem/pmm.cpp:65-77 | the same for reserving exactly the frames that the range reaches into |
| `FrameBitmap.Pmm.MarkRangeFree` | src/mem/pmm.cpp:47-60 | the loop frees exactly the frames between the two ends as machine words compute them; for a range that fits, exactly the frames lying whole inside it |
| `FrameBitmap.Pmm.MarkRangeUsed` | src/mem/pmm.cpp:65-77 | the same for the frames that stop being free; for a range that fits, exactly those it reaches into |
| `FrameBitmap.Pmm.Init` | src/mem/pmm.cpp:89-132 | for all 64-bit ranges the bitmap is what the helpers make of them; when the ranges fit, a frame is free if and only if some available region contains it whole and neither the kernel, the first MiB, the boot information nor a module touches it; no frame of the first MiB is free, the total counts the frames that the memory map makes available and the used ones those taken from them |
| `FrameBitmap.Pmm.AllocFrame` | src/mem/pmm.cpp:134-145 | the lowest free frame, never frame 0, never a reserved or live one; failure only when nothing is free; counters stay exact |
| `FrameBitmap.Pmm.FreeFrame` | src/mem/pmm.cpp:147-152 | clears exactly the bit of the frame, whoever owns it, and counts down as a machine word does; a free or impossible frame changes nothing; the allocator stays valid for frames of its pool |
| `FrameBitmap.Rounding` | src/mem/pmm.cpp:47-69 | the page-rounding expressions mean containment and overlap of whole frames, for every address |
| `EntryWords.StoredWord` | src/mem/vmm.cpp:136 | storing an address and flags in one 64-bit word keeps both readable |
| `EntryWords.WidenedWord` | src/mem/vmm.cpp:76 | OR-ing the asked user and writable bits into an entry disturbs neither its address nor any other bit |
| `EntryWords.PieceFields` | src/mem/vmm.cpp:87-98 | piece i of a split 2 MiB entry addresses the i-th 4 KiB, keeps the low flag bits but the size bit, and loses bits 63:52 |
| `EntryWords.DecodeInjective` | src/mem/vmm.cpp:46-50 | the decoded entry loses no bit: two words with the same fields are the same word |
| `EntryWords.DecodeBits` | src/mem/vmm.cpp:46-50 | the decoded entry has the bits where the processor looks for them: present 0, writable 1, user 2, size 7, no execute 63, frame 51:12 |
| `EntryWords.DecodeStored` | src/mem/vmm.cpp:136 | the word that map_into stores decodes to the frame of the address with the flags of the flag word |
| `EntryWords.DecodeWidened` | src/mem/vmm.cpp:76 | the word that ensure_table stores decodes to the entry with the asked bits set, as Widened says field by field |
| `EntryWords.DecodeCloned` | src/mem/vmm.cpp:312-320 | the word that clone_leaf stores decodes to the fresh frame with the four flags that CloneFlags keeps |
| `EntryWords.DecodePiece` | src/mem/vmm.cpp:87-98 | the word of piece i decodes to the frame and the flags that Piece2M and Carried compute |
| `EntryWords.PhysmapSlotIndex` | src/mem/vmm.cpp:32 | every address of the physmap has PML4 index 384 |
| `EntryWords.RebuiltAddress` | src/mem/vmm.cpp:327 | the address rebuilt from four indices has exactly these indices |
| `EntryWords.IndicesDetermine` | src/mem/vmm.cpp:117-121 | equal indices, offset and upper bits mean equal addresses |
| `EntryWords.HeapSlotIndex` | src/mem/vmm.cpp:29-32 | every address of the 4 GiB heap has PML4 index 256 |
| `EntryWords.WindowIndices` | src/mem/vmm.cpp:43-44 | the address test of the private window is the test for directory indices 1 to 7 |
| `PageAddresses.PageOfAddress` | src/mem/vmm.cpp:117-121 | for every 64-bit address the four indices that the shifts cut out are those of the page number, the address divided by 4096 |
| `PageAddresses.SamePage` | src/mem/vmm.cpp:115-121 | two addresses have the same page exactly when their bits 47:12 are equal |
| `PageAddresses.EveryPage` | src/mem/vmm.cpp:327 | every page has the address that clone_pt rebuilds from its indices, and it is the first of the page |
| `PageAddresses.PrivateAddresses` | src/mem/vmm.cpp:31-44 | a page is private exactly when its addresses are: in slot 0 those from 2 MiB to 16 MiB, elsewhere those outside the slots of heap and physmap |
| `PageAddresses.HeapAddress` | src/mem/heap.cpp:152-168 | the addresses of the 4 GiB heap run through the pages of the heap slot in order |
| `PageAddresses.PhysmapAddress` | src/mem/vmm.hpp:22-27 | the physmap address of a physical address lies on the page of slot 384 that has the indices of its frame number |
| `BootTables.BootInv` | src/boot/boot.asm:119-193 | the tables that start-up fills satisfy the invariant from which all of the above starts |
| `BootTables.BootRam` | src/boot/boot.asm:119-193 | for any seven distinct frames inside memory such tables exist |
| `BootTables.BootWalk` | src/boot/boot.asm:119-193 | they map the first four gigabytes to themselves, and once more from slot 384 on, and nothing else in these slots |
| `KernelStart.RemapKernel` | src/mem/vmm.cpp:232-250 | the first four gigabytes stay mapped to themselves, each page of the image with the permissions of the last section that has it, the other pages with the frame and, unless their 2 MiB entry was split, the flags they had; it stops only when no frame is left |
| `PageTables.TrackedIsPrivate` | src/mem/vmm.cpp:34-44 | the pages a space owns are exactly the window [2 MiB, 16 MiB) and the slots other than 0, heap and physmap |
| `PageTables.WalkIsTreeWalk` | src/mem/vmm.cpp:203-230 | the four-level hardware walk finds exactly what the ownership tree says, for every page of every owner |
| `PageTableSteps.AddTable` | src/mem/vmm.cpp:70-74 | linking a zeroed table keeps the invariant and every translation of everybody |
| `PageTableSteps.WidenEntry` | src/mem/vmm.cpp:75-77 | widening an intermediate entry keeps the invariant and every translation |
| `PageTableSteps.MapLeaf` | src/mem/vmm.cpp:136 | storing a leaf changes the translation of that one page, for all owners |
| `PageTableSteps.ClearLeaf` | src/mem/vmm.cpp:190 | clearing a leaf removes that one translation and no other |
| `SpaceSteps.SplitEntry` | src/mem/vmm.cpp:84-107 | replacing a 2 MiB entry by its 512 pieces keeps every translation of everybody |
| `SpaceSteps.SplitRights` | src/mem/vmm.cpp:84-107 | for any tables and any walk that ends at the split entry: the effective permission of the page is the same before and after if and only if user code could not reach it through all three entries, and bit 63 of the large entry is clear or an entry above forbids execution too |
| `SpaceSteps.SplitKeepsRights` | src/mem/vmm.cpp:84-107 | so every split the kernel makes keeps the effective permission of every page of every owner: the large entries are those of start-up, without user bit and bit 63 |
| `SpaceSteps.SplitDropsNx` | src/mem/vmm.cpp:90 | four concrete tables, which start-up does not build, on which a page becomes executable by the split |
| `SpaceSteps.EffectiveIsLeaf` | src/mem/vmm.cpp:66-68 | for private pages every level above grants what the leaf grants, so the leaf alone decides the effective permission |
| `AddressSpaces.Mmu.EnsureTable` | src/mem/vmm.cpp:69-80 | absent or present, the entry leads to the right table afterwards and no translation of anybody has changed; a frame is taken exactly for a missing table, and the call fails exactly when there is none |
| `AddressSpaces.Mmu.SplitHugePage` | src/mem/vmm.cpp:84-107 | as SplitEntry and SplitKeepsRights, for the loop that writes the pieces and the entry, at the price of one frame |
| `AddressSpaces.Mmu.MapInto` | src/mem/vmm.cpp:114-137 | page to (frame, flags) is an update of one point of the abstract map; all other pages keep translation and contents, whatever tables were added, widened or split; it takes exactly as many frames as tables are missing on the way and fails exactly when there are fewer |
| `AddressSpaces.Mmu.Map` | src/mem/vmm.cpp:164-167 | the same through the active PML4, including heap pages reached from any space |
| `AddressSpaces.Mmu.Unmap` | src/mem/vmm.cpp:169-194 | one page disappears from the map, its frame is handed to the caller, nothing else changes |
| `AddressSpaces.Mmu.Protect` | src/mem/vmm.cpp:196-201 | only the flags of one mapped page change; an unmapped page stays unmapped |
| `AddressSpaces.Mmu.VirtToPhys` | src/mem/vmm.cpp:203-230 | the address the walk gives; 0 exactly when the page is not mapped or the address is that of the first byte of memory |
| `PageAddresses.SmallAddress` | src/mem/vmm.cpp:229 | on 64-bit words: the masked entry plus the masked address is the frame and the offset of VirtToPhys |
| `PageAddresses.LargeAddress` | src/mem/vmm.cpp:221-225 | the same inside a 2 MiB page: the sum names the 4 KiB piece that the walk finds |
| `PageAddresses.HugeAddress` | src/mem/vmm.cpp:215-218 | the same inside a 1 GiB page |
| `SpaceRuns.Unmapped0` | src/mem/vmm.cpp:203-230 | for private pages of the active space 0 means exactly that the page is not mapped |
| `AddressSpaces.Mmu.CreateAddressSpace` | src/mem/vmm.cpp:258-308 | the new space maps no private page, translates the heap slot, the physmap slot and the low 4 GiB outside the window as the kernel does and nothing else, and everybody else is untouched; it succeeds exactly when there are frames for the PML4, the PDPT and one directory for each of the first four that the kernel has |
| `AddressSpaces.Mmu.CloneLeaf` | src/mem/vmm.cpp:312-320 | one more private page has its copy, and the pages before and after it in the sweep are as they were |
| `AddressSpaces.Mmu.CloneAddressSpace` | src/mem/vmm.cpp:332-369 | every private page of the source has its own frame with equal contents and permissions in the destination, unmapped pages stay unmapped, and nothing that is not the destination has changed; it succeeds exactly when there are as many frames as the source has private pages, plus the tables that the destination lacks for them |
| `KernelStart.SixFrames` | src/mem/vmm.cpp:258-308 | as long as the first four gigabytes are mapped to themselves, a new space takes six frames |
| `FramePrices.NewPrice` | src/task/fork.cpp:45-85 | what is built in a new space costs the same whichever frame is its PML4, so the prices of fork and execve can be told before the call |
| `AddressSpaces.Mmu.FreeTable` | src/mem/vmm.cpp:146-159 | the recursion frees exactly the frames below a table, each once, and the table |
| `AddressSpaces.Mmu.DestroySlot0` | src/mem/vmm.cpp:373-392 | of slot 0 exactly the owned window and its tables are freed, shared frames are not |
| `AddressSpaces.Mmu.DestroyAddressSpace` | src/mem/vmm.cpp:394-408 | exactly the frames of the space are released, each once, whether or not CR3 names it; memory and every other owner are untouched |
| `ForkAndExec.DropSpace` | src/mem/vmm.cpp:394-408 | the same as a step of that space alone; its PML4 is a free frame afterwards, also when CR3 still names it |
| `Isolation.WriteIsolated` | src/mem/vmm.cpp:332-369 | a user store is visible through its own page and word only, in every space |
| `Isolation.CloneReadsEqual` | src/mem/vmm.cpp:332-369 | after a clone both spaces read the same words with the same effective permissions |
| `Isolation.FramesApart` | src/mem/vmm.cpp:312-320 | two private pages of any spaces never share a frame |
| `Isolation.RightsKept` | src/mem/vmm.cpp:66-137 | editing one page leaves translation and effective permission of every other private page of every space |
| `PageRanges.MapRun` | src/cpu/syscall.cpp:114-118 | the loop of brk and mmap maps fresh zeroed pages, keeps every other page of every owner and its contents, and leaves no allocated frame without a place; it succeeds exactly when there is a frame for every page and every missing table |
| `PageRanges.UnmapRun` | src/cpu/syscall.cpp:120-124 | the loop of brk and munmap unmaps the run and gives its frames back |
| `ProcessMemory.Process.SysBrk` | src/cpu/syscall.cpp:105-129 | the break moves exactly when the request lies between its start and 16 MiB; grown pages are zeroed, shrunk pages freed, all else kept; the new pages are writable and not executable for user code through all levels of the tables; it runs out of frames exactly when the new pages and their tables are more than are free |
| `ProcessMemory.Process.SysMmap` | src/cpu/syscall.cpp:139-159 | only anonymous nonempty requests succeed, at the bump pointer, with zeroed pages; through all levels of the tables user code may write them exactly if PROT_WRITE is asked for and run them exactly if PROT_EXEC is; it runs out of frames exactly when the pages and their tables are more than are free |
| `ProcessMemory.Process.SysMunmap` | src/cpu/syscall.cpp:161-170 | the touched pages are unmapped and freed, nothing else changes; it never runs out of frames |
| `ProcessMemory.Process.SysMprotect` | src/cpu/syscall.cpp:172-180 | mapped pages keep frame and contents, and user code may write and run them exactly as PROT_WRITE and PROT_EXEC say; unmapped ones stay unmapped; it never runs out of frames |
| `SpaceLifetimes.Conservation` | src/mem/vmm.cpp:258-408 | whatever a group of owners does, no other frame is allocated or freed |
| `SpaceLifetimes.RunIsStep` | src/mem/vmm.cpp:258-408 | any run of operations on a group of owners keeps all pages and positions of the others |
| `SpaceLifetimes.ExactTeardown` | src/mem/vmm.cpp:258-408 | any run that starts and ends with nothing owned by its group leaves the set of allocated frames as it was |
| `SpaceLifetimes.CreateIsStep` | src/mem/vmm.cpp:258-308 | creating a space works on that space only |
| `SpaceLifetimes.CloneIsStep` | src/mem/vmm.cpp:332-369 | cloning works on the destination only |
| `SpaceLifetimes.DestroyIsStep` | src/mem/vmm.cpp:394-408 | destroying works on that space only and leaves it with nothing |
| `SpaceLifetimes.WriteIsStep` | src/mem/vmm.cpp:258-408 | a user store works on its own space only |
| `SpaceRuns.KernelHalfShared` | src/mem/vmm.cpp:270-280 | in the heap and physmap slots every live space translates as the kernel does, at all times |
| `SpaceRuns.GrowHeapPage` | src/mem/heap.cpp:158-167 | a heap page mapped while any space is active translates identically in every live space, no space is worked on, and the frames taken are the page and its missing tables |
| `HeapFrames.GrowthNext` | src/mem/heap.cpp:152-177 | one page more costs its own frame and the tables that begin with it |
| `HeapPages.NextCost` | src/mem/vmm.cpp:114-137 | when the heap slot holds exactly the first e pages, the tables missing for the next one are exactly those that begin with it |
| `HeapPages.GrowHeapPages` | src/mem/heap.cpp:152-168 | over page tables and bitmap: the loop runs out of frames exactly when fewer are free than the pages and their tables take; otherwise the heap is longer by these pages, the old ones are unchanged and every live space has all of them |
| `SpaceRuns.FamilyLifetime` | src/mem/vmm.cpp:258-408 | a process and its descendants map, unmap, protect, write, fork and end in any order, the ended ones possibly while their own space is the loaded one; when all have ended the bitmap is exactly as before and no page of anybody else has changed; it stops early only when no frame is free |
| `SpaceRuns.Perform` | src/mem/vmm.cpp:258-408 | each single action keeps the family invariant |
| `KernelStart.HeapAndProcesses` | src/mem/heap.cpp:217-224 | the heap gets its first 256 pages and a process family lives and ends: afterwards exactly the frames of these pages and their tables are missing, and nothing but the kernel has changed |
| `KernelStart.StartUp` | src/boot/boot.asm:119-193 | from the tables of start-up over the remapped kernel and the first heap pages to processes: every precondition on the way is met, and only the lack of frames stops it |
| `UserImages.CopyWordsToUser` | src/task/user.cpp:143-154 | copying page by page through translations equals one flat copy |
| `UserImages.LoadPlan` | src/task/elf.cpp:80-97 | all pages of all pieces hold their contents with their flags, and no other private page is mapped |
| `ForkAndExec.Fork` | src/task/fork.cpp:45-85 | the child is a private copy of the parent and nothing else changed; when the child cannot be set up the bitmap is back to what it was; the frames suffice exactly when there is one for every private page of the parent, every table above these and the tables of a new space |
| `ForkAndExec.ForkTask` | src/task/fork.cpp:45-85 | the child task has the copy, the break and the mmap pointer of its parent, and in neither task anything is mapped beyond them |
| `ForkAndExec.Execve` | src/task/user.cpp:319-397 | on a negative result the old space is active with all its pages and contents and every staged frame is back; on success exactly the old space has been released and the new one holds image, stack and start block, the stack writable and not executable; the E2BIG path leaves the break and mmap fields of the discarded image; the frames suffice exactly when there is one for every page of image and stack, every table above these and the tables of a new space |
| `WordBytes.WordRoundTrip` | src/mem/vmm.cpp:46-50 | eight bytes stored as one word read back as those bytes, for all bytes |
| `ProgramImages.PlanFits` | src/task/elf.cpp:66-100 | the segments of a file, placed in the window without a shared page, are a plan that the loader can map |
| `ProgramImages.ExecveFile` | src/task/user.cpp:319-397 | from the bytes of the file to the running program: ENOENT exactly for a file the loader refuses, E2BIG exactly for a block that is too large, both with the old space, its contents and all frames as before (E2BIG leaves the break and mmap fields of the discarded image); the frames of the old space are released exactly on success, the machine stops exactly when there are too few for the new one; then every page of every segment reads, through the new page tables, as the file says, writable and executable for user code exactly as its segment says, and a reader at the new stack pointer finds argc, argv, envp and the auxiliary vector. For a file written from a list of program headers the segments are those of its PT_LOAD headers, in order, byte by byte at their addresses; the program starts at its entry point, and a search of the vector by type number yields entry, number and size of its program headers, the address at which they are in memory, and sixteen random bytes |
| `ProgramImages.SegmentReads` | src/task/elf.cpp:66-97 | in the new space every address of a segment reads the file's byte, or zero behind the file part |
| `HeapLayout.ExactTiling` | src/mem/heap.cpp:107-148 | every word of the heap lies in exactly one block |
| `HeapLayout.PayloadsApart` | src/mem/heap.cpp:46-63 | a payload lies inside the heap and meets no word of another block, payload, header or footer |
| `HeapLayout.UnlinkStep` | src/mem/heap.cpp:99-105 | taking the i-th block off the list keeps the whole invariant with that block as a hole |
| `HeapLayout.MergeStep` | src/mem/heap.cpp:118-145 | a hole that swallows its neighbour keeps the whole invariant |
| `HeapLayout.LinkStep` | src/mem/heap.cpp:92-96 | putting a hole on the list keeps the whole invariant |
| `HeapLayout.DivideStep` | src/mem/heap.cpp:195-203 | cutting a hole in two keeps the whole invariant |
| `HeapLayout.AppendStep` | src/mem/heap.cpp:170-176 | the new space behind the old end becomes a hole of the tiling |
| `HeapLayout.PrevIs` | src/mem/heap.cpp:66-76 | the footer below a block leads to the one block that ends there |
| `KernelHeap.Heap.Remove` | src/mem/heap.cpp:113-119 | the search finds the block on the list and takes exactly it off |
| `KernelHeap.Heap.Coalesce` | src/mem/heap.cpp:107-148 | the hole and its free neighbours become one listed block, no two free neighbours remain, and no allocated block loses a word |
| `KernelHeap.Heap.GrowHeap` | src/mem/heap.cpp:152-177 | halts exactly when the range is exhausted or fewer frames are free than the pages and their tables take; otherwise a block at least as large as the new pages heads the list |
| `KernelHeap.Heap.AllocateBlock` | src/mem/heap.cpp:181-215 | the first listed block that is large enough, cut exactly when the rest makes a block; NIL exactly when none is large enough |
| `KernelHeap.Heap.Kmalloc` | src/mem/heap.cpp:226-246 | a block that nobody holds, of the size looked for, with every live payload unchanged; its payload holds a request of at least one byte exactly when that is at most 2^64 - 40; says when the machine halts instead |
| `KernelHeap.Heap.Kfree` | src/mem/heap.cpp:248-256 | exactly this block stops being allocated, the others keep every word, and freeing it again at once changes nothing |
| `KernelHeap.Heap.Put` | src/mem/heap.cpp:46-58 | a store to a payload touches no tag, no link and no other block |
| `KernelHeap.PayloadFits` | src/mem/heap.cpp:182-185 | the payload is at least the request exactly for requests up to 2^64 - 40; with less than eight bytes to spare unless it is the smallest block; beyond that the size wraps to the smallest block |
| `KernelHeap.LargestRequest` | src/mem/heap.cpp:182-185 | the largest 64-bit request looks for a block of at most eight words |
| `KernelHeap.RetryRoom` | src/mem/heap.cpp:232-238 | the retry after growing has room exactly for requests outside [2^64 - 4127, 2^64 - 40]; the heap grows by what the request needs, four pages at least |
| `KernelHeap.Traffic` | src/mem/heap.cpp:226-256 | any run of allocations, frees and stores by a client that frees what it got leaves the allocated set as it was and never changes a word of anybody else's block |
| `TaskRing.PickIsReady` | src/task/sched.cpp:91-104 | a dead task always finds a Ready one behind it, so the fallback to idle is never needed |
| `TaskRing.ScheduledOrdered` | src/task/sched.cpp:91-136 | schedule() keeps exactly one running task, in front, idle alive and on the ring, the zombie dead and unparented, and freed numbers off the ring |
| `TaskRing.SpawnedOrdered` | src/task/sched.cpp:194-202 | the same for a new task spliced in behind the running one |
| `TaskRing.EndedOrdered` | src/task/sched.cpp:226-236 | the same for the stores of exit_current, up to its switch |
| `TaskRing.FreedOrdered` | src/task/sched.cpp:264-268 | the same for unlinking and freeing a dead task, which was not freed before |
| `TaskRing.ScheduledNearer` | src/task/sched.cpp:74-136 | each call of schedule() brings a Ready task at least one place nearer to the front |
| `Scheduler.Scheduler.NextReadyAfterCurrent` | src/task/sched.cpp:74-81 | the walk along the links finds the first Ready task of the abstract ring, if any |
| `Scheduler.Scheduler.FindTask` | src/task/sched.cpp:241-248 | the walk finds the task with this number anywhere on the ring, if any |
| `Scheduler.Scheduler.UnlinkAndFree` | src/task/sched.cpp:45-59 | the linked ring stays one cycle without exactly this task, and its address space, if it has one, is destroyed |
| `Scheduler.Scheduler.ReapZombie` | src/task/sched.cpp:61-72 | the linked ring becomes the reaped abstract ring; the space destroyed is that of the task in the zombie slot, if it is not the running one, and CR3 is left alone |
| `Scheduler.Scheduler.Schedule` | src/task/sched.cpp:91-136 | the linked ring becomes the scheduled abstract ring and FS base, kernel stack, RSP0 and CR3 follow the task in front |
| `Scheduler.Scheduler.Spawn` | src/task/sched.cpp:194-202 | the linked ring becomes the abstract ring with the new task behind the current one |
| `Scheduler.Scheduler.SpawnChild` | src/task/fork.cpp:65-83 | as Spawn, with the parent link and the TLS base of the parent |
| `Scheduler.Scheduler.ExitCurrent` | src/task/sched.cpp:226-239 | the linked ring becomes that of the ended task, and another task is current |
| `Scheduler.Scheduler.SysExit` | src/cpu/syscall.cpp:61-72 | as ExitCurrent, with the exit code stored in the task that ends |
| `Scheduler.Scheduler.FindChild` | src/task/sched.cpp:250-253 | a child is accepted exactly when it is on the ring and its parent is the caller |
| `Scheduler.Scheduler.Collect` | src/task/sched.cpp:262-269 | the dead child leaves the ring, is freed for the first time, its space is destroyed, and its status and number are returned |
| `Scheduler.Scheduler.MaybeReschedule` | src/task/sched.cpp:221-224 | nothing without a request, schedule() with one |
| `SyscallProtocol.SwitchInv` | src/task/sched.cpp:91-136 | a switch with the per-CPU block behind swapgs re-establishes the whole invariant for whatever task comes to the front |
| `SyscallProtocol.StepInv` | src/cpu/syscall_entry.asm:21-77 | every step of every kind keeps the invariant: one running task, its registers loaded, the swapgs discipline, saved stack pointers, watched children on the ring |
| `SyscallProtocol.RunInv` | src/cpu/syscall_entry.asm:21-77 | the invariant holds at every moment of every run from start-up, whatever the interleaving |
| `SyscallProtocol.YieldInv` | src/task/sched.cpp:208-212 | the same for a blocking yield |
| `SyscallProtocol.ExitInv` | src/cpu/syscall.cpp:61-72 | the same for sys_exit with its swapgs; what becomes of the exit code is in `TaskRecords.ExitCode` |
| `SyscallProtocol.FinishInv` | src/task/sched.cpp:255-269 | the same for the end of a blocking call, including the collection of a child |
| `SyscallProtocol.ExecInv` | src/task/user.cpp:390-397 | the same for a successful execve with its swapgs |
| `SyscallProtocol.CollectInv` | src/task/sched.cpp:262-269 | only the parent waits for its child, so collecting it leaves no waiter behind |
| `ProtocolRuns.SysretMatches` | src/cpu/syscall_entry.asm:72-77 | each SYSRET of a task reloads the stack pointer of its SYSCALL, whatever other tasks did in between |
| `ProtocolRuns.ChildStack` | src/task/fork.cpp:56-65 | a forked child enters ring 3 with the stack pointer its parent had at the system call, whatever runs in between |
| `ProtocolRuns.Ring3Entry` | src/task/sched.cpp:112-132 | whatever enters the kernel from ring 3 lands on the running task's own stack and finds the per-CPU block |
| `ProtocolRuns.SysretStep` | src/cpu/syscall_entry.asm:72-77 | the exit stub finds the per-CPU block in front and leaves it behind swapgs |
| `ProtocolRuns.ChildStays` | src/task/sched.cpp:250-262 | a task that waits for a child has it on the ring for the whole wait |
| `ProtocolRuns.OneRunning` | src/task/sched.cpp:107-109 | exactly the task in front is running |
| `ProtocolRuns.EndIsFinal` | src/task/sched.cpp:226-239 | an ended task is never in front again: exit_current never comes back |
| `ProtocolRuns.FreeStep` | src/task/sched.cpp:54-72 | a step frees at most one task, dead, not running and not freed before |
| `ProtocolRuns.NoneFreedOnRing` | src/task/sched.cpp:45-72 | no freed task is on the ring |
| `ProtocolRuns.BoundedWaitingRuns` | src/task/sched.cpp:74-136 | a task at distance d runs within d calls of schedule() and one more for every task created meanwhile |
| `TaskRecords.ExitCode` | src/cpu/syscall.cpp:61-72 | along a run: the code that a task hands to sys_exit is in its record at every later moment at which it is on the ring |
| `TaskRecords.ExitStatus` | src/task/sched.cpp:262-266 | along a run: the wait4 that collects a child sees the low byte of the code it exited with, times 256 |
| `TaskRecords.ChildWaited` | src/task/sched.cpp:250-269 | along a run: wait4 comes back only when the child it was called for has ended, and then this child is freed and off the ring |
| `TaskRecords.FirstCall` | src/task/user.cpp:390-397 | along a run: the first system call after execve, or after the start of a program, is made on the stack pointer that was handed to it |
| `TaskRecords.ChildStarts` | src/task/fork.cpp:65-83 | along a run: when a forked child comes to the front for the first time, the processor has the TLS base of its parent at the fork, the child's kernel stack and its page tables |
| `TaskRecords.TimeSlice` | src/task/sched.cpp:104-219 | along a run: after a call of schedule() preemption is asked for exactly from the twentieth tick on |
| `StepEffects.StepEffect` | src/task/sched.cpp:45-269 | what each step does to every task, to the zombie slot, to the freed tasks and to the destroyed spaces: one task may be freed (the one in the slot by schedule(), the awaited child by wait4), the running one may change, one may be new, all others stay as they are; sys_exit leaves its code, execve its space, arch_prctl its TLS base, and a forked task has its parent's |
| `TaskFates.LostStep` | src/task/sched.cpp:226-236 | the tasks that a step loses, exactly: the end of the running task loses the unparented one in the zombie slot if it is unparented too, its own dead children, and itself if its parent has ended |
| `TaskFates.LostForever` | src/task/sched.cpp:45-269 | a lost task is not freed by any sequence of steps whatever |
| `FateRuns.Drive` | src/task/sched.cpp:74-136 | whatever the others are doing, steps that end and create nobody bring any live task to the front, in the phase it was in |
| `FateRuns.ToCall` | src/task/sched.cpp:250-269 | a live task that may make system calls gets into one, whatever it waits for |
| `FateRuns.NeverFreed` | src/task/sched.cpp:45-269 | an ended task on the ring is never freed in any continuation if and only if it is lost |
| `FateRuns.OrphanFate` | src/task/sched.cpp:61-72 | along a run: an unparented task that has ended is freed, or it is lost exactly when another unparented one has ended since |
| `FateRuns.EndedForGood` | src/task/sched.cpp:226-269 | along a run: an ended, unfreed task is never freed in any continuation if and only if its parent has ended, or, when it has none, another unparented task has ended since |
| `FateRuns.OverIsEnded` | src/task/sched.cpp:226-239 | a task is dead or freed exactly if it ended in an earlier step |
| `FateRuns.RunOn` | src/task/sched.cpp:45-269 | every continuation is the rest of a run from start-up |
| `ProtocolScenes.SceneIsRun` | src/task/sched.cpp:153-192 | whatever start-up leads to is the last moment of a run |
| `ProtocolScenes.ZombieOverwritten` | src/task/sched.cpp:233 | a run from start-up in which two unparented tasks end one after the other and the first is never freed |
| `ProtocolScenes.ChildOutlives` | src/task/fork.cpp:81 | a run from start-up in which a parent exits before its child and the child is never freed |
| `LoadedSpaces.ReapReleases` | src/task/sched.cpp:54-72 | schedule() destroys the space that CR3 names if and only if the task in the zombie slot is not the running one and has that space |
| `LoadedSpaces.LoadedSince` | src/task/sched.cpp:127-132 | along a run: while an ended task is on the ring, CR3 names its space exactly if no task with a space of its own has come to the front since its end |
| `LoadedSpaces.ReapReleasesLoaded` | src/task/sched.cpp:54-72 | so the step that frees it destroys the loaded space exactly then |
| `LoadedSpaces.CollectKeepsLoaded` | src/task/sched.cpp:262-269 | wait4 never destroys the loaded space when its caller has one of its own |
| `LoadedSpaces.ExecKeepsLoaded` | src/task/user.cpp:358-391 | execve destroys the old space when the new one is loaded |
| `ProtocolScenes.ReleasedWhileLoaded` | src/task/sched.cpp:127-132 | a run from start-up in which schedule() destroys the page tables that CR3 names before and after |
| `SyscallStub.Cpu.Entry` | src/cpu/syscall_entry.asm:21-53 | the frame on the kernel stack is, word by word, number, arguments, kept registers, user stack pointer, flags and rip, and the stack pointer is stashed |
| `SyscallStub.Cpu.RoundTrip` | src/cpu/syscall_entry.asm:21-77 | user code gets back every register but the result, and its stack pointer, whatever the C++ side clobbers |
| `SyscallStub.FrameWords` | src/cpu/syscall.hpp:59-76 | the frame in the order of the members of syscall::Frame |
| `BlockTrees.PlacesDistinct` | src/fs/ext2.cpp:126-197 | different file blocks sit at different places of the pointer tree |
| `BlockTrees.PlacesOnto` | src/fs/ext2.cpp:126-197 | every path of one, two or three digits below its root is the place of exactly one block |
| `BlockTrees.ResolveLaidOut` | src/fs/ext2.cpp:126-197 | for a file laid out as twelve blocks and trees of tables of little-endian pointers: block number l leads to the l-th block from left to right, 0 for a hole and beyond the last |
| `BlockTrees.FollowLeaves` | src/fs/ext2.cpp:138-194 | the digits of x in the base of the fan-out lead to the x-th leaf of a written tree |
| `FileBlocks.ResolveBlock` | src/fs/ext2.cpp:126-197 | the pointer reached by following the base-p digits of the index below the right root, 0 at a null pointer or failed read; the first twelve are the inode's own, and on a written file the result is the l-th block of the file |
| `FileBlocks.CubeFits` | src/fs/ext2.cpp:168 | the 32-bit guard is right exactly when the cube of the fan-out is below 2^32; with 8 KiB blocks it is 0 |
| `FileBlocks.ClampExact` | src/fs/ext2.cpp:250 | the count is cut to min(count, size - offset) exactly when offset + count does not wrap to a value inside the file |
| `FileBlocks.ClampWraps` | src/fs/ext2.cpp:250 | a concrete request that is not cut down |
| `FileBlocks.Read` | src/fs/ext2.cpp:244-277 | exactly the file bytes from the offset on, up to the first hole or failed read; for a file written as a list of data blocks exactly the bytes of these blocks, in order |
| `FileBlocks.WrittenByte` | src/fs/ext2.cpp:244-277 | byte o of a written file is byte o of the contents of its blocks |
| `FileDirectories.Readdir` | src/fs/ext2.cpp:279-326 | a page of the record stream of the directory's entries |
| `FileDirectories.SlotsRead` | src/fs/ext2.cpp:303-325 | a block written as directory records reads back to its used entries in order |
| `FileDirectories.DirectoryReads` | src/fs/ext2.cpp:279-326 | a directory written over any number of blocks reads back to all its entries, in the order of its blocks |
| `DirectoryStreams.PageFrom` | src/fs/tarfs.cpp:219-236 | a page asked for at the start of entry i is the longest run of whole records from i on that fits |
| `DirectoryStreams.FitIsMost` | src/fs/tarfs.cpp:228 | no further record would have fitted |
| `DirectoryStreams.ReadWhole` | src/fs/vfs.cpp:55-75 | with any buffers that hold the largest record, repeated readdir ends and yields the whole stream, each record once and in order |
| `DirectoryEntries.ParseStream` | src/fs/vfs.cpp:61-72 | the record stream parses back to the entries |
| `DirectoryEntries.Collect` | src/cpu/syscall.cpp:305-322 | the first thirty-two entries of the directory, each once and in order |
| `DirectoryEntries.Getdents` | src/cpu/syscall.cpp:324-343 | from the file offset on exactly the entries that fit, in consecutive records, and not one fewer |
| `DirectoryEntries.DecodeRecords` | src/cpu/syscall.cpp:327-343 | walking by d_reclen reads back number, name, and zero offset and kind of every entry |
| `DirectoryEntries.ReadDirectory` | src/cpu/syscall.cpp:293-344 | repeated calls yield the first min(32, n) entries once each |
| `TarTree.SiblingsDiffer` | src/fs/tarfs.cpp:77-104 | siblings never have the same name |
| `TarTree.GrowTree` | src/fs/tarfs.cpp:91-103 | a new child keeps the tree: parents before children, sibling links to the child before |
| `TarTree.Table.FindChild` | src/fs/tarfs.cpp:77-84 | the one child with this name, or none when no path continues that way |
| `TarTree.Table.GetOrCreateChild` | src/fs/tarfs.cpp:87-104 | the path exists afterwards, as an implicit directory if it is new; all other paths are as before |
| `TarTree.Table.InsertPath` | src/fs/tarfs.cpp:106-134 | the map from paths to files is updated at this path, with directories made on the way |
| `TarMeaning.MountedMeans` | src/fs/tarfs.cpp:295-318 | a path exists exactly when it is a prefix of an entry's path, and says what the last entry with that very path says |
| `TarLookup.Readdir` | src/fs/tarfs.cpp:210-240 | a page of the record stream of the children, an error on files |
| `TarLookup.KidsAre` | src/fs/tarfs.cpp:210-240 | the entries of a directory are exactly its children, each under its own name |
| `TarLookup.KidsInOrder` | src/fs/tarfs.cpp:87-104 | each child comes once, the newest first |
| `TarLookup.Lookup` | src/fs/vfs.cpp:19-97 | for every path string the node at its path, if that leads through directories only; otherwise nothing |
| `TarArchive.OctalField` | src/fs/tarfs.cpp:35-43 | a field of octal digits closed by a NUL reads back its number |
| `TarArchive.CountEntries` | src/fs/tarfs.cpp:137-149 | the number of headers that mounting visits |
| `TarArchive.Mount` | src/fs/tarfs.cpp:255-334 | the table stands for the archive's entries in order |
| `TarRoundTrip.ArchiveItems` | src/fs/tarfs.cpp:301-322 | an archive written byte by byte as the ustar format has it, files with type 0 or NUL, directories with type 5, reads back to the entries it was written for |
| `TarRoundTrip.DataThere` | src/fs/tarfs.cpp:307-317 | each file's bytes are where its entry says |
| `TarRoundTrip.Read` | src/fs/tarfs.cpp:197-208 | min(count, size - offset) bytes of the file from offset on |
| `TarRoundTrip.ReadNode` | src/fs/vfs.cpp:178-195 | reading until the size is reached yields the whole file |
| `TarRoundTrip.AllReached` | src/fs/vfs.cpp:19-97 | when no path is both a file and a directory above another, a path is found exactly when it is a prefix of a member's path |
| `TarRoundTrip.Extract` | src/fs/tarfs.cpp:255-334 | writing, mounting, looking up and reading, for members written with or without "./" in front and a slash behind: the data of the last member with that path; nothing exactly for paths that are no prefix |
| `PathNames.SplitJoin` | src/fs/tarfs.cpp:108-124 | an archive path splits back into the components it was joined from, whatever slashes follow |
| `TarRoundTrip.TextMeans` | src/fs/tarfs.cpp:107-124 | "./" in front of a written path and a slash behind it are no part of the path that is read |
| `PathNames.LookupJoin` | src/fs/vfs.cpp:32-39 | so does a path to look up |
| `ElfImage.LoadSegment` | src/task/elf.cpp:66-100 | false exactly when the segment leaves the file; otherwise every page holds file bytes, zeros behind them and in the slack, with the permissions of its flags, and no other page changes |
| `ElfImage.ParseAndLoad` | src/task/elf.cpp:102-170 | false exactly for a bad header or a segment outside the file; otherwise the image of all segments and the highest end; for a file written from a list of program headers that is the image of its PT_LOAD headers in order, with entry, number and size of the headers, and the address that the last segment with the table gives it |
| `ElfImage.ProgramReads` | src/task/elf.cpp:141-148 | program headers written phentsize bytes apart behind e_phoff are read as these segments, in order, with the permissions of their flag bits |
| `ElfImage.HeaderExact` | src/task/elf.cpp:103-139 | the header check, byte by byte: exactly these files are accepted |
| `ElfImage.HeadersThere` | src/task/elf.cpp:150-158 | at the reported address the image has the file's bytes from e_phoff on |
| `ElfImage.DisjointImage` | src/task/elf.cpp:80-97 | when no two segments share a page, each segment's pages hold that segment |
| `ElfImage.HighestIsMax` | src/task/elf.cpp:160-161 | the reported end is the largest page-rounded end of a segment |
| `ElfImage.PhdrReads` | src/task/elf.cpp:36-45 | a written program header reads back as its segment, with the permissions of its flag bits |
| `ElfImage.EhdrReads` | src/task/elf.cpp:103-139 | a written file header is accepted exactly when its program headers are there, and its fields read back |
| `UserBytes.CopyToUser` | src/task/user.cpp:143-154 | copying page by page equals one flat copy, byte for byte |
| `UserBytes.ReadersAgree` | src/task/user.cpp:143-154 | the number or string at an address is determined by memory |
| `InitialStack.Build` | src/task/user.cpp:164-242 | 0 exactly when the block does not fit; otherwise an aligned pointer inside the stack at which a reader finds exactly argc, argv and envp, and a search of the auxiliary vector by type number the program headers (3 to 5), the page size (6), the entry point (9), zeros (7, 8, 11 to 14, 23), the address of the sixteen random bytes (25), and no other type |
| `InitialStack.BlockReads` | src/task/user.cpp:215-236 | the scratch buffer, once stored, reads back as that block, for readers of the arrays and for a search of the vector |
| `InitialStack.OneOutcome` | src/task/user.cpp:215-236 | a search of the vector has one outcome |
| `InitialStack.TotalIs` | src/task/user.cpp:164-190 | the block is as large as its words, the random bytes and its strings, rounded once |
| `Bytes.LeByte` | src/task/elf.cpp:17-45 | byte k of a number in a file or in memory is its digit of weight 256^k |

## Left out

- Invalidation of cached translations, caching flags and 1 GiB pages below the kernel's own tables: the model is about the tables alone.
- KernelStart.RemapKernel: the sections are parameters, in whole pages; the addresses that the linker gives them are no part of the model.
- What the processor does with page tables that have been destroyed while CR3 names them: the model says when that happens and that the frames are free.
- FrameBitmap.Pmm.FreeFrame: after a reserved frame has been freed only the bitmap is described; no caller in the model does that.
- ProcessMemory.Process.SysMmap: takes requests that stay below the stack; the source never checks the bump pointer.
- ProcessMemory.Process.SysMunmap: takes ranges of private pages, as the source trusts its callers.
- ProcessMemory.Process.SysMprotect: takes ranges of private pages, as the source trusts its callers.
- Mapping over a page that is already mapped keeps its old frame allocated; whole-run statements map unmapped pages only.
- UserImages.LoadPlan: segments share no page; what the loader makes of shared pages is in `ElfImage.ParseAndLoad`, page by page, but not over page tables.
- ProgramImages.PlanFits: segments lie in the window below 16 MiB and share no page.
- ProgramImages.ExecveFile: segments lie in the window below 16 MiB and share no page; an accepted file has at least one; the block is padded with zeros to sixteen bytes.
- ForkAndExec.Execve: takes the pieces and the block as parameters; `ProgramImages.ExecveFile` has them from the file and the arguments.
- File descriptors: they are shared between parent and child without counting, so nothing is said about closing or leaking files and inodes.
- Scheduler.Scheduler.UnlinkAndFree: the stack, FXSAVE area and task structure that go back to the heap are no part of the scheduler's model; the address space is.
- Scheduler.Scheduler.FindChild: tasks are compared by identity; a parent's address that is handed out again after the parent was freed, while a child still points to it, is not modelled.
- Task numbers are unbounded; the 64-bit counter is not wrapped.
- Interrupts that arrive inside schedule(), spawn() or exit_current() of a kernel task with interrupts enabled: each of these is one step.
- SyscallProtocol.StepInv: registers other than the named ones, signals and nested interrupts are no part of the machine.
- LoadedSpaces.LoadedSince: a new address space has a PML4 that no task on the ring has, which the frame bitmap sees to.
- Line editing of the terminal: a blocking read ends whenever a line is there.
- FileBlocks.Read: takes counts that are soundly cut down (`ClampExact`); for the others the loop of the source may not end.
- FileBlocks.ResolveBlock: block sizes 1024, 2048 and 4096; with 8 KiB the guard is wrong (`CubeFits`).
- ext2 mounting, the inode table, group descriptors and partition scanning.
- FileDirectories.Readdir: directory records lie inside their block, and directory sizes stay a block below 2^32.
- DirectoryEntries.Collect: names shorter than 47 bytes; beyond that the copy in `string::strncpy` runs past its field.
- DirectoryEntries.Getdents: names shorter than 47 bytes.
- DirectoryEntries.ReadDirectory: names shorter than 47 bytes.
- TarTree.Table.InsertPath: components shorter than 99 bytes and a table with room; beyond that the copy runs past its field or the source drops the rest of a path.
- TarArchive.Mount: archives whose entries need no more nodes than the table has, with components shorter than 99 bytes.
- TarRoundTrip.Read: counts that do not wrap around 64 bits with the offset.
- Archive checksums, owners, modes and link types, which the source ignores.
- Mount prefixes, procfs, and the copying of path, arguments and environment in execve, which stops after 127 bytes, 64 and 32 strings: the model starts from what has been copied.
- ElfImage.LoadSegment: segments whose ends do not wrap around 64 bits.
- ElfImage.ParseAndLoad: segments whose ends do not wrap around 64 bits.
- InitialStack.Build: blocks below 4 GiB, the size of the heap the strings come from; the random bytes are an input.
- Drivers, the terminal, the timer hardware, descriptor tables and the boot code other than its page tables.
