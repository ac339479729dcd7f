# A verified model of the curls64 kernel core

curls64 is a small x86_64 kernel in C. This project models its most intricate
parts in Dafny and proves what they are meant to guarantee, over every input or
every run. `dafny verify dfyconfig.toml` checks all of it.

## What is modelled

- **Address spaces** (`Bytes`, `Frames`, `PageTree`, `PageViews`, `CowClone`,
  `CowInvariant`, `AddressSpaces`, `Isolation`, `ProcessHistory`,
  `FrameWitnesses`). Four-level page tables in
  physical memory, the frame bitmap and the byte-sized reference counts,
  copy-on-write fork, the write fault, exec and stack mappings, exit. Main
  results: however these interleave, address spaces behave like memories that
  share nothing, reference counts stay exact unless a page is mapped over, and
  over any list of what processes ask for, each sees its own asks only.
- **TLB shootdown** (`TlbShootdown`). The initiator and the interrupt handler as
  interleaved steps of all CPUs. Main results: coherence over every run of
  covered edits, the exact set of covered edits, and the exact condition under
  which a shootdown can return without its timeout.
- **Kernel heap** (`HeapBytes`, `HeapTiles`, `HeapSteps`, `HeapLaws`,
  `KernelHeap`, `HeapHistory`). The boundary-tag allocator on raw bytes with its
  sorted hole index. Main results: the tiling invariant, the exact case that
  breaks it, the alloc/free round trip, and whole histories of plain and aligned
  requests in which every buffer keeps the bytes its owner wrote.
- **FAT32** (`FatVolume`, `FatChains`, `FatData`, `FatDirectory`, `FatNames`,
  `FatGrowth`, `Fat32`, `FatHistory`, `FatWitnesses`). Table entries, cluster chains, file bytes,
  directory slots and 8.3 names on a disk of sectors. Main results: a write is an
  update of a byte sequence and leaves every other chain alone, and over every
  history of create, mkdir, write and unlink a directory is a map from names to
  contents on chains that never overlap, with every reply and every cluster
  accounted for.
- **Descriptors** (`DescriptorCounts`, `Descriptors`). Reference counts of files,
  pipe ends and nodes against the descriptor slots of all tasks, over every
  history of system calls up to the first that leaks.
- **Pipes** (`Pipes`, `PipeWakeup`). The ring buffer, and the sleep/wake-up
  handshake as a state machine with any number of readers.
- **Tasks** (`TaskRing`, `Scheduling`, `Signals`). The circular ready queue and
  its reaping, round-robin switching, signal dispatch and return.
- **Programs** (`UserMemory`, `ProgramImage`, `UserStack`, `ProgramStart`).
  Loading segments and building the stack in the page tables above. Main result:
  the address space of a new program, byte by byte.
- **Paths** (`Paths`). Canonical paths, parents and base names.

Objects the source updates in place are classes with methods and loops;
protocols between CPUs or tasks are state machines over their steps. Raw memory
is a sequence of bytes. Where the kernel panics, a method returns `ok == false`.
Layouts and limits that code and contracts share are stated once more in plain
numbers and bytes, by lemmas such as `FatDirectory.SlotLayout`,
`PageTree.SharedAddresses` or `HeapSteps.BlockMeans`.

## Where the code differs from what it says

- libc/kheap.c:148 says that an alignment prefix too small for a hole is wasted
  without corruption. `HeapLaws.CutSlack` proves that the heap is corrupt from
  then on, `KernelHeap.Heap.Carve` that this is the only such case, and
  `HeapHistory.TearFreshHeap` that two requests reach it.
- kernel/arch/x86_64/smp/smp.c:68-71 says that user addresses need invalidation
  only where the CR3 is the same. `TlbShootdown.CoveredIffSafe` gives the exact
  condition: it fails for edits of tables that are loaded on another CPU only,
  and for edits of the first 128 MB, whose tables all directories share, while
  some CPU runs on another CR3.
- The same protocol can block itself: a CPU that spins for the lock has
  interrupts off and cannot acknowledge (`TlbShootdown.ReturnsIffNobodySpins`).
- fork's reference counts are eight bits wide; `CowInvariant.CloneSound` states
  the exact room a clone needs, and `FrameWitnesses.CountPasses255` is a run that
  has it not. The limit of 128 process numbers does not prevent that run, because
  sys_fork and spawn_process clone the directory before they test it and do not
  free it when they refuse (`ProcessHistory.LostForever`); 254 clones are safe
  whatever is mapped (`ProcessHistory.Machine.Serve`).
- pipe() makes its files and open() its node before they look for a slot, and
  spawn reinstalls all three standard descriptors when one is missing; the
  `Valid() <==>` clauses of `MakePipe`, `Open` and `SpawnTable` state exactly
  when this leaks, and `FullTableLeaks` and `SpawnLeaks` reach it.
- build_user_stack compares the 32-bit result of the frame search with a 64-bit
  -1, so that running out of frames goes unnoticed: the page is mapped to frame
  0xFFFFFFFF, exactly when the tables take the last free frame
  (`AddressSpaces.Mmu.MapStackPage`, reached by `FrameWitnesses.StackOnNothing`).
- build_user_stack does not clear the frames it maps: a new stack page shows what
  its frame held (`AddressSpaces.Mmu.MapStackPage`), the bytes of a process that
  has ended, say (`FrameWitnesses.OldBytesShow`).
- elf64_load_segments maps a fresh zeroed frame for every page of every segment;
  `ProgramImage.ImageIff` states exactly when a shared page loses bytes.
- vfs_canonicalize_path leaves a trailing slash on a path it cuts, so that a second
  pass changes it (`Paths.CanonicalTwice`, reached by `Paths.LongNameIsCut`).
- reap_zombies stops after reaping the head of the ready queue
  (`TaskRing.Tasks.ReapZombies`). It leaves the children of a reaped task naming
  it as their parent; the same method states when, `TaskRing.ParentGoesFirst`
  reaches it.
- sigaction keeps 32 bits of a handler's address (`Signals.CallsMean`).
- A pipe names one waiting task. `PipeWakeup.SafeIffOneReader`: with a second
  reader a wake-up can be lost, with one it cannot.
- Growing a heap from which nothing was allocated leaves two neighbouring holes,
  because the first hole has no footer (`HeapHistory.GrowFreshHeap`).
- fat32_vfs_read adds offset and size in 32 bits; `Fat32.ReadExactIff` states
  exactly when the amount is right. fat32_vfs_write adds, and fat32_vfs_expand
  rounds, in 32 bits too; `Fat32.Fat32.WriteFile` states exactly when it works.
  `FatWitnesses.ReadsTooFar` and `FatWitnesses.NearFourGiB` reach the failures.
- fat32_vfs_expand zeroes new clusters but not the slack of the last old one;
  `FatGrowth.WriteLaw` states exactly when a gap reads as zeros,
  `FatWitnesses.GapShowsSlack` is a file that shows other bytes.
- fat32_vfs_expand links new clusters behind those the length accounts for. A
  write that ran out of space has left clusters there; the next growth cuts them
  off the chain and nobody frees them (`Fat32.Fat32.ExpandFile`).
- fat32_mkdir loses a cluster exactly when the parent is full and one cluster is
  free (`Fat32.Fat32.MakeDirectory`, reached by `FatWitnesses.MkdirLoses`), and a
  name that begins with the deleted mark is written and never found
  (`FatDirectory.AddedLaw`).
- fat32_find_free_cluster may hand out an entry behind the end of the disk
  (`Fat32.Fat32.FirstFreeEntry`, `FatVolume.OnDiskIff`).

## Model

| member | source | states |
|---|---|---|
| Frames.FrameAllocator.FirstFree | kernel/cpu/paging.c:58-83 | returns the lowest unmarked frame at or above the kernel limit that lies in a whole bitmap word, -1 exactly when there is none; the only marks it adds are on frames below the limit |
| Frames.FrameAllocator.SetFrame | kernel/cpu/paging.c:36-41 | marks exactly that frame; out-of-range frames are ignored |
| Frames.FrameAllocator.ClearFrame | kernel/cpu/paging.c:43-48 | unmarks exactly that frame |
| Frames.FrameAllocator.AddRef | kernel/cpu/paging.c:85-94 | one reference more in eight bits, marking the frame when the count was zero |
| Frames.FrameAllocator.RemoveRef | kernel/cpu/paging.c:96-105 | one reference less, unmarking the frame when it was the last; a zero count stays |
| Frames.FrameAllocator.GetRef | kernel/cpu/paging.c:107-115 | the count, 0 out of range |
| Frames.FrameAllocator.constructor | kernel/cpu/paging.c:206-215 | no frame used, no references |
| PageTree.PathNamesPage | kernel/arch/x86_64/mmu/mmu.c:19-22 | two canonical addresses have the same four table indices exactly when they lie on the same page |
| PageTree.PageFromPath | kernel/arch/x86_64/mmu/mmu.c:19-22 | the four indices, sign-extended, give back the page number |
| PageTree.SharedAddresses | kernel/arch/x86_64/mmu/mmu.c:193-215 | the tables all directories share are those of the first 128 MB and of the kernel half |
| PageTree.LeafTableLabel | kernel/arch/x86_64/mmu/mmu.c:74-87 | in an alias-free table forest the leaf table reached from a directory belongs to that directory and path alone |
| PageTree.LeafUpdate | kernel/arch/x86_64/mmu/mmu.c:110-118 | changing one leaf entry changes the translation of exactly the one path through it |
| PageTree.CowImageTrans | kernel/arch/x86_64/mmu/mmu.c:142-172 | a copied table tree translates every path to the copy-on-write form of the source entry |
| PageTree.CountIsCard | kernel/arch/x86_64/mmu/mmu.c:142-172 | the references one clone adds to a frame, counted by walking the tables, are the number of user pages naming it |
| AddressSpaces.Mmu.constructor | kernel/cpu/paging.c:239-244 | one empty kernel directory satisfies the whole invariant with exact counts |
| AddressSpaces.Mmu.AllocTable | kernel/arch/x86_64/mmu/mmu.c:38-47 | a zeroed table in a frame nothing else uses, one free frame fewer; fails exactly when no frame is free |
| AddressSpaces.Mmu.TakeFrame | kernel/cpu/paging.c:58-83 | the first free frame, marked, and one free frame fewer; fails exactly when none is free |
| AddressSpaces.Mmu.GetOrAllocTable | kernel/arch/x86_64/mmu/mmu.c:55-72 | makes the child table on demand, user-accessible when asked, without changing any page's translation; fails exactly when there is no child and no frame |
| AddressSpaces.Mmu.EnsureTables | kernel/arch/x86_64/mmu/mmu.c:96-115 | after the three calls the walk reaches the returned table and no translation has changed; it works exactly when as many frames are free as tables are missing on the way |
| AddressSpaces.Mmu.GetEntry | kernel/arch/x86_64/mmu/mmu.c:74-87 | finds the leaf table exactly when the walk reaches one |
| AddressSpaces.Mmu.MapPage | kernel/arch/x86_64/mmu/mmu.c:89-120 | the page translates to exactly the given entry, every other page of every directory as before; it works exactly when as many frames are free as tables are missing |
| AddressSpaces.Mmu.UnmapPage | kernel/arch/x86_64/mmu/mmu.c:122-136 | the page no longer translates, every other page as before |
| AddressSpaces.Mmu.FillClone | kernel/arch/x86_64/mmu/mmu.c:142-172 | the recursive table copy yields the copy-on-write image, adds the walked references and keeps the tables alias-free |
| AddressSpaces.Mmu.CloneLeaf | kernel/arch/x86_64/mmu/mmu.c:142-172 | source and copy get the same copy-on-write entry and its frame one reference |
| AddressSpaces.Mmu.CloneChild | kernel/arch/x86_64/mmu/mmu.c:142-172 | one inner entry is cloned and linked, extending the copied prefix by one |
| AddressSpaces.Mmu.CloneUser | kernel/arch/x86_64/mmu/mmu.c:193-259 | parent and child read the same pages, nobody else's pages change, both turn copy-on-write; the invariant survives exactly when no byte-sized count overflows; fails only with no frame left |
| AddressSpaces.Mmu.MapFresh | kernel/fs/elf/elf_load.c:141-156 | a zeroed private user-writable page on the first free frame, every other page as before; counts stay exact exactly when the page was not mapped before; it works exactly when more frames are free than tables are missing |
| AddressSpaces.Mmu.MapFilled | kernel/fs/elf/elf_load.c:141-153 | a frame nobody used, the first free one, filled and mapped at one page only; it works exactly when more frames are free than tables are missing |
| AddressSpaces.Mmu.MapStackPage | kernel/proc/exec.c:26-36 | a page that is there stays; otherwise it is user-writable on a frame nobody used, with the bytes that frame held before, every other page reads as before and exact counts stay exact; it works exactly when the page is there or more frames are free than tables are missing, ends without a table exactly when fewer are, and on the frame that does not exist in between |
| AddressSpaces.Mmu.FillEntry | kernel/proc/exec.c:29-35 | the empty entry gets the first free frame with its former bytes; exactly when there is none the page is mapped to frame 0xFFFFFFFF, because the 32-bit -1 is compared with a 64-bit one |
| AddressSpaces.Mmu.WriteFrame | kernel/fs/elf/elf_load.c:163-178 | a store by way of the physical map overwrites that slice of one page of one address space, translates nothing differently and keeps exact counts |
| AddressSpaces.Mmu.CopyFrame | kernel/cpu/paging.c:377-397 | the copy goes to a free frame, one reference moves, fails exactly without a free frame |
| AddressSpaces.Mmu.StoreByte | kernel/cpu/paging.c:367-409 | on a user-writable page one byte changes, in this address space only |
| AddressSpaces.Mmu.PageFault | kernel/cpu/paging.c:367-409 | after a handled fault nobody reads anything different and counts stay exact; it is handled exactly for copy-on-write user pages with a frame to spare or no sharer |
| AddressSpaces.Mmu.UserStore | kernel/cpu/paging.c:367-409 | a user store changes one byte in one address space, or nothing anywhere; it goes through exactly on a writable user page, or a copy-on-write one with no sharer or a frame to spare |
| AddressSpaces.Mmu.FreeTable | kernel/arch/x86_64/mmu/mmu.c:174-191 | subtracts exactly the walked references and frees exactly the frames that reach zero |
| AddressSpaces.Mmu.FreeDirectory | kernel/arch/x86_64/mmu/mmu.c:329-377 | every count drops by the number of the directory's pages naming the frame; all other spaces read on as before; exact counts stay exact |
| CowInvariant.CloneSound | kernel/arch/x86_64/mmu/mmu.c:142-172 | a clone preserves exclusive writability and counted frames if and only if every count has room in eight bits |
| CowInvariant.CloneEntries | kernel/arch/x86_64/mmu/mmu.c:158-165 | a writable user page turns copy-on-write on both sides with its frame; every other page keeps its entry |
| CowInvariant.CloneKernel | kernel/arch/x86_64/mmu/mmu.c:193-215 | kernel-half translations are the same in parent and child |
| CowInvariant.CloneAll | kernel/arch/x86_64/mmu/mmu.c:193-259 | everything a clone promises, from the copied tables and counts |
| CowInvariant.FreshSound | kernel/fs/elf/elf_load.c:141-156 | mapping an unused frame once keeps the invariant |
| CowInvariant.FreshMappedDone | kernel/fs/elf/elf_load.c:141-156 | mapping a page to a filled fresh frame keeps the invariant, gives that page the frame's bytes and no other page anything; exact counts stay exact exactly when the page was unmapped |
| CowInvariant.TablesSound | kernel/arch/x86_64/mmu/mmu.c:96-115 | new tables on the way to a page keep the invariant, exact counts, all translations and all contents |
| CowInvariant.CopyDone | kernel/cpu/paging.c:376-397 | a copied page keeps the invariant, exact counts and every reading |
| CowInvariant.UnshareDone | kernel/cpu/paging.c:398-405 | so does making an unshared page writable |
| CowInvariant.StoreDone | kernel/cpu/paging.c:367-409 | a store to an exclusively mapped frame shows in one address space |
| CowInvariant.FreeDone | kernel/arch/x86_64/mmu/mmu.c:329-377 | releasing a directory's references keeps the invariant and exactness for the others |
| CowInvariant.OnceMoved | kernel/cpu/paging.c:376-397 | a directory that maps no frame twice still maps none twice after a page moves to a frame it did not have |
| CowInvariant.OnceCloned | kernel/arch/x86_64/mmu/mmu.c:142-172 | nor do the two directories after a clone |
| Isolation.StepRefines | kernel/arch/x86_64/mmu/mmu.c:193-259 | each fork, store, mapping, page fill and exit does to the address spaces what it does to memories that share nothing |
| Isolation.ForkRefines | kernel/arch/x86_64/mmu/mmu.c:193-259 | a fork copies one memory and leaves the others |
| Isolation.WriteRefines | kernel/cpu/paging.c:367-409 | a write to a page changes one page of one memory |
| Isolation.EveryRunIsPrivate | kernel/arch/x86_64/mmu/mmu.c:142-172 | over every run the spaces equal those of the machine without sharing |
| Isolation.OthersNeverSee | kernel/cpu/paging.c:367-409 | what a process reads is changed by its own events only |
| Isolation.ChildKeepsForkImage | kernel/arch/x86_64/mmu/mmu.c:193-259 | a child reads its parent's fork-time memory until it writes itself, whatever the parent does |
| Isolation.ExactIff | kernel/fs/elf/elf_load.c:141-156 | a step loses an exact reference count if and only if it maps over a mapped page |
| Isolation.CountsStayExact | kernel/fs/elf/elf_load.c:141-156 | over every run in which exec maps only unmapped pages each count is the number of pages on its frame, and every counted frame is mapped somewhere |
| Isolation.Perform | kernel/arch/x86_64/mmu/mmu.c:193-259 | every request (fork, store, exec mapping, stack mapping, loader write, exit), carried out by the page-table operations, is the step of such a run that it names, or changes no address space and no exactness, or finds no frame left; a store kills its process exactly when its entry cannot be stored through; no directory comes to map a frame twice |
| ProcessHistory.ForkHasRoom | kernel/cpu/paging.c:85-94 | with exact counts, no frame mapped twice by one directory and at most 254 directories, no count can overflow in a clone |
| ProcessHistory.Machine.constructor | kernel/cpu/paging.c:239-244 | after boot there is the empty kernel directory and no process |
| ProcessHistory.Machine.Born | kernel/core/task.c:381-439 | fork and spawn: the directory is cloned, then a process number looked for; refused exactly when the next number is above 128, and then the clone belongs to nobody |
| ProcessHistory.Machine.Touch | kernel/cpu/paging.c:367-409 | a live process's store, exec mapping, stack mapping or loader write, each with its exact refusal or fault, is one event on its own directory |
| ProcessHistory.Machine.Gone | kernel/core/task.c:949-953 | an exit takes one process and its address space |
| ProcessHistory.Machine.ServeOne | kernel/core/task.c:381-439 | one ask of any kind is answered as the code answers it; it goes unserved only without a free frame or after 254 clones |
| ProcessHistory.Machine.Serve | kernel/core/task.c:381-439 | over every list of asks each is answered so, every state on the way is sound with exact counts, and the address spaces at the end are those of the machine that shares nothing |
| ProcessHistory.OnlyItsOwnAsks | kernel/cpu/paging.c:367-409 | over every history the memory of a process changes with its own asks only |
| ProcessHistory.ForkIsACopy | kernel/core/task.c:381-439 | parent and child each read the fork-time memory until they ask for something themselves |
| ProcessHistory.LostForever | kernel/core/task.c:406-412 | over every history the directories that belong to no process grow by exactly one for each refused fork or spawn, and none is ever freed |
| ProcessHistory.NumbersUpTo128 | kernel/core/task.c:406-412 | over every history a spawn or a fork of a live process is refused exactly when the numbers up to 128 are given, so no larger one ever is |
| ProcessHistory.FirstBirthsDone | kernel/core/task.c:566-579 | from an empty table exactly the first 129 - first births are done |
| ProcessHistory.GoneFromItsExit | kernel/core/task.c:949-953 | over every history a process is gone from its exit on and not before |
| ProcessHistory.OwnAskShows | kernel/cpu/paging.c:367-409 | a stored byte, a mapped page and the loader's bytes show up in the memory of the process that asked |
| ProcessHistory.ForkKeepsStores | kernel/arch/x86_64/mmu/mmu.c:158-165 | where the parent could write, both sides can go on writing after a fork while a frame is left |
| FrameWitnesses.StackOnNothing | kernel/proc/exec.c:26-36 | the failing case is reached: from a fresh machine with three free frames a stack page ends up on frame 0xFFFFFFFF and the invariant is gone |
| FrameWitnesses.CountPasses255 | kernel/cpu/paging.c:85-94 | one process that maps a page and forks 255 times takes its count past eight bits and the invariant is gone, unless memory runs out |
| FrameWitnesses.OldBytesShow | kernel/proc/exec.c:26-36 | a process writes a page and exits; the next stack page of another shows the bytes it wrote |
| TlbShootdown.CoherentKept | kernel/arch/x86_64/smp/smp.c:63-142 | every step of every CPU keeps: a cached entry is current or some CPU still owes its invalidation |
| TlbShootdown.Boot | kernel/arch/x86_64/smp/smp.c:318-331 | every start with quiet CPUs and empty TLBs satisfies the invariants, for any number of CPUs |
| TlbShootdown.OrderlyKept | kernel/arch/x86_64/smp/smp.c:97-142 | lock, request fields, pending bits, interrupts and handlers stay tied to one initiator, whatever is edited |
| TlbShootdown.RunOrderly | kernel/arch/x86_64/smp/smp.c:63-142 | that order over every run |
| TlbShootdown.LockKept | kernel/arch/x86_64/smp/smp.c:104-141 | the lock has at most one holder, the CPU between lock and unlock |
| TlbShootdown.MaskKeptByInitiator | kernel/arch/x86_64/smp/smp.c:106-136 | an initiator's steps keep pending bits and interrupts matched |
| TlbShootdown.MaskKeptByHandler | kernel/arch/x86_64/smp/smp.c:84-87 | so do a handler's |
| TlbShootdown.HandlersKept | kernel/arch/x86_64/smp/smp.c:63-93 | handlers run with the current request's address |
| TlbShootdown.EditOwes | kernel/arch/x86_64/mmu/mmu.c:383-391 | after a covered edit every CPU that may hold the old entry is owed an invalidation |
| TlbShootdown.DebtKept | kernel/arch/x86_64/smp/smp.c:63-142 | no step drops an owed invalidation without doing it |
| TlbShootdown.Finish | kernel/arch/x86_64/smp/smp.c:63-93 | a running handler can run to its acknowledgement |
| TlbShootdown.Drain | kernel/arch/x86_64/smp/smp.c:63-93 | when none of the awaited CPUs spins for the lock, all can acknowledge |
| TlbShootdown.EveryRunCoherent | kernel/arch/x86_64/smp/smp.c:63-142 | coherence over every interleaving of covered edits |
| TlbShootdown.ReturnMeansFlushed | kernel/arch/x86_64/smp/smp.c:97-142 | when a shootdown returns and no other CPU is between an edit and a shootdown of the same address, no CPU keeps an old translation of it, CPUs that skipped the invalidation included |
| TlbShootdown.RequestIsStable | kernel/arch/x86_64/smp/smp.c:45-61 | a running handler's address and CR3 are those of the one initiator that still waits for it |
| TlbShootdown.CoveredIffSafe | kernel/arch/x86_64/smp/smp.c:63-93 | an edit is covered in all its runs if and only if it is in the kernel half, in the shared first 128 MB with every CPU on the editing CPU's CR3, or above them in the editing CPU's own tables or in tables loaded nowhere |
| TlbShootdown.KeyMeans | kernel/arch/x86_64/mmu/mmu.c:193-215 | two roots show the same entry of an address exactly when they are equal or it is in the kernel half or the first 128 MB |
| TlbShootdown.SafeIsCovered | kernel/arch/x86_64/smp/smp.c:63-142 | edits of the safe kinds stay coherent in all their runs |
| TlbShootdown.ForeignEditGoesStale | kernel/arch/x86_64/smp/smp.c:72-79 | a missed case: editing tables loaded on another CPU leaves a stale entry in a finished, quiet system |
| TlbShootdown.LowEditGoesStale | kernel/arch/x86_64/smp/smp.c:72-79 | the other missed case: an edit below 128 MB, even of tables loaded nowhere, leaves a stale entry on every CPU with another CR3 |
| TlbShootdown.ReturnsIffNobodySpins | kernel/arch/x86_64/smp/smp.c:97-142 | without its timeout a shootdown can return if and only if no CPU it waits for is spinning for the same lock |
| TlbShootdown.OverlapCanBlock | kernel/arch/x86_64/smp/smp.c:97-142 | two CPUs can always reach that mutual wait |
| TlbShootdown.CrossWaitForever | kernel/arch/x86_64/smp/smp.c:97-142 | and no step ever leaves it |
| Bytes.Put32 | libc/kheap.c:137-143 | a 32-bit store reads back modulo 2^32 and changes four bytes |
| Bytes.LittleEndian | libc/kheap.c:24-62 | words lie in memory with their lowest byte first |
| HeapBytes.PutHeader | libc/kheap.h:27-31 | the header fields in their bytes, padding untouched |
| HeapBytes.PutFooter | libc/kheap.h:33-36 | the footer fields in their bytes |
| HeapTiles.SpliceOk | libc/kheap.c:90-187 | rewriting only the bytes of neighbouring tiles into new tagged tiles leaves a tagged tiling of the heap |
| HeapTiles.InsertedOk | libc/kheap.c:370-388 | insertion keeps the index the sorted list of exactly the holes |
| HeapTiles.RemovedOk | libc/kheap.c:394-400 | removal keeps it so |
| HeapSteps.JoinRight | libc/kheap.c:278-305 | absorbing the free right neighbour keeps the invariant |
| HeapSteps.JoinLeft | libc/kheap.c:307-340 | being absorbed by the left neighbour keeps the invariant |
| HeapSteps.RightSeen | libc/kheap.c:279-282 | the boundary test sees a free right neighbour exactly when there is one |
| HeapSteps.LeftSeen | libc/kheap.c:308-315 | the footer test sees a free left neighbour exactly when there is one that has a footer |
| HeapSteps.FreedInSteps | libc/kheap.c:268-343 | marking, right merge and left merge together are the merge of all neighbouring holes that can be seen |
| HeapLaws.CutClean | libc/kheap.c:128-183 | cutting a hole into prefix, block and rest yields a tiled, indexed heap |
| HeapLaws.CutSlack | libc/kheap.c:133-152 | with a non-zero prefix under 28 bytes no tiling and no index explains the bytes any more |
| HeapLaws.SlackBreaks | libc/kheap.c:133-152 | a stale hole mark that the index does not know fits no tiling |
| HeapLaws.FreedLive | libc/kheap.c:268-343 | freeing removes one block from the live set and no other |
| HeapLaws.GrownFreed | libc/kheap.c:232-249 | freeing the appended space keeps all live blocks |
| HeapLaws.StoreOk | libc/kheap.c:186-187 | a byte written inside a live payload keeps the heap invariant |
| HeapLaws.StaleByte | libc/kheap.c:161-165 | a block header written over the end of the old one never clears the stale hole mark |
| HeapLaws.FreeUndoesAlloc | libc/kheap.c:268-343 | on a coalesced heap freeing the block just cut restores exactly the former tiles |
| HeapLaws.CarveSettles | libc/kheap.c:154-183 | allocation leaves no two neighbouring holes |
| HeapLaws.FreeSettles | libc/kheap.c:278-342 | neither does freeing |
| HeapLaws.BlockServes | libc/kheap.c:128-159 | the block holds the request, wastes under 28 bytes, and is page aligned when asked |
| HeapSteps.FitsMeans | libc/kheap.c:64-88 | a hole fits exactly when it has a place for header, bytes and footer, with the bytes at a page boundary when asked |
| HeapSteps.BlockMeans | libc/kheap.c:116-183 | the block starts the hole or the first boundary in it, and takes all the rest exactly when less than 28 bytes would remain |
| HeapBytes.TagLayout | libc/kheap.h:23-32 | where the fields of the tags lie and the number that marks them |
| HeapLaws.BytesAddUp | libc/kheap.c:404-418 | heap size = live bytes + sum over the index |
| KernelHeap.OrderedArray.Insert | libc/kheap.c:370-388 | the shifting loop inserts before the first entry that is not smaller; a full index is refused unchanged |
| KernelHeap.OrderedArray.RemoveAt | libc/kheap.c:394-400 | the shifting loop removes exactly that entry |
| KernelHeap.OrderedArray.Find | libc/kheap.c:285-287 | the first index of an address, the count when it is absent |
| KernelHeap.OrderedArray.constructor | libc/kheap.c:359-368 | an empty index |
| KernelHeap.Heap.MergeRight | libc/kheap.c:278-305 | the tile absorbs its free right neighbour exactly when there is one |
| KernelHeap.Heap.MergeLeft | libc/kheap.c:307-340 | the tile is absorbed by its free left neighbour exactly when that has a footer |
| KernelHeap.Heap.Settle | libc/kheap.c:307-342 | the merged hole ends up in the index once |
| KernelHeap.Heap.Release | libc/kheap.c:274-342 | the block becomes part of the merged hole; bytes outside it stay |
| KernelHeap.Heap.CutPrefix | libc/kheap.c:128-152 | the alignment prefix becomes an indexed hole when it has room for tags |
| KernelHeap.Heap.CutBlock | libc/kheap.c:154-183 | block and remaining hole are tagged and the hole indexed |
| KernelHeap.Heap.Append | libc/kheap.c:228-249 | the new space joins a last hole |
| KernelHeap.Heap.constructor | libc/kheap.c:24-62 | one hole without footer behind the index satisfies the invariant |
| KernelHeap.Heap.FindSmallestHole | libc/kheap.c:64-88 | the first fitting entry, -1 exactly when none fits |
| KernelHeap.Heap.FindHole | libc/kheap.c:64-88 | fails exactly when no hole fits; a plain request gets the smallest that does |
| KernelHeap.Heap.Carve | libc/kheap.c:116-187 | the chosen hole becomes prefix, block and rest; valid afterwards if and only if there is no slack |
| KernelHeap.Heap.Alloc | libc/kheap.c:90-187 | adds one live block apart from all others, keeps every live byte, answers null only when no hole fits, takes the smallest fitting hole for a plain request, breaks the heap exactly in the slack case, and panics only with a full index or a heap that cannot grow; a heap that grows does so to the larger of twice its size and what the request adds |
| KernelHeap.Heap.FindOrGrow | libc/kheap.c:90-115 | a hole that fits, on the grown heap when there was none, with every live byte kept |
| KernelHeap.Heap.Expand | libc/kheap.c:189-249 | grows to the rounded size with the new space joined to a last hole; live blocks and their bytes stay; panics past the maximum address or with a full index only |
| KernelHeap.Heap.FreeInternal | libc/kheap.c:268-343 | merges the block with exactly its free neighbours; pointers without the magic number change nothing |
| KernelHeap.Heap.Free | libc/kheap.c:346-351 | removes exactly that live block and keeps every other block's bytes; works whenever the index is not full |
| KernelHeap.Heap.AllocThenFree | libc/kheap.c:90-343 | allocating and freeing again restores the tiles; only a full index prevents it |
| KernelHeap.Heap.Stats | libc/kheap.c:404-418 | the reported used size is the sum of the live blocks' sizes |
| KernelHeap.Heap.Store | libc/kheap.c:186-187 | an owner's byte store changes its own payload and nothing the allocator relies on |
| HeapHistory.Users.Serve | libc/kheap.c:90-351 | over every history of plain and page-aligned requests, growth, writes and frees each held buffer is a live block with exactly the bytes last written to it; no two holes become neighbours, on a fresh heap too when its first request is served from it; a history ends early only where a request cannot be served, or at the first one whose hole leaves slack, and exactly then the heap is destroyed |
| HeapHistory.Users.GetBlock | libc/kheap.c:90-187 | a new private buffer of the size asked for, page aligned when asked, the others as they were; or refused, or destroyed exactly by slack |
| HeapHistory.Users.SetByte | libc/kheap.c:186-187 | one byte of one buffer changes |
| HeapHistory.Users.DropBlock | libc/kheap.c:346-351 | one buffer goes, the others as they were |
| HeapHistory.Users.GrowHeap | libc/kheap.c:189-249 | the heap grows and every buffer keeps its bytes |
| HeapHistory.Users.ServeOne | libc/kheap.c:90-351 | one request of a history |
| HeapHistory.LastWriteStays | libc/kheap.c:186-187 | over every history a written byte stays until its block is given back or the byte written again |
| HeapHistory.DroppedIsGone | libc/kheap.c:346-351 | a block that is given back is gone for good |
| HeapHistory.TearFreshHeap | libc/kheap.c:133-152 | the failing case is reached: on a fresh heap one plain and one page-aligned request destroy it |
| HeapHistory.GrowFreshHeap | libc/kheap.c:228-249 | growing a fresh heap before anything is allocated leaves two neighbouring holes |
| FatVolume.SetEntryOk | kernel/fs/fat32/fat32_fat.c:25-44 | sets one 28-bit entry, keeps its top four bits, every other entry and all data |
| FatVolume.LbaApart | kernel/fs/fat32/fat32_bpb.h:58-64 | sectors of different clusters differ |
| FatVolume.Layout | kernel/fs/fat32/fat32_fat.c:4-44 | clusters lie one behind the other from cluster 2 on, entry c in bytes 4c to 4c + 3 of the table, of which 28 bits count |
| FatVolume.OnDiskIff | kernel/fs/fat32/fat32_fat.c:46-71 | every table entry has its cluster on the disk if and only if the last one has; an entry behind the disk's end is handed out like any other |
| Fat32.Fat32.NextCluster | kernel/fs/fat32/fat32_fat.c:4-23 | the entry of the abstract table |
| Fat32.Fat32.SetCluster | kernel/fs/fat32/fat32_fat.c:25-44 | the table changes in that entry only |
| Fat32.Fat32.FindFreeCluster | kernel/fs/fat32/fat32_fat.c:46-71 | on a volume with a cluster for every entry, the lowest free cluster, 0 exactly when there is none |
| Fat32.Fat32.FirstFreeEntry | kernel/fs/fat32/fat32_fat.c:46-71 | on any disk that holds the table, the lowest free entry, whether or not its cluster is on the disk |
| FatChains.ChainDistinct | kernel/fs/fat32/fat32_fat.c:4-23 | a chain that reaches an end mark never repeats a cluster |
| FatChains.FreeIsNowhere | kernel/fs/fat32/fat32_fat.c:46-71 | a free cluster is on no chain |
| FatChains.LinkedOk | kernel/fs/fat32/fat32_vfs.c:247-259 | the extended chain is a chain |
| FatChains.ClearKeepsLive | kernel/fs/fat32/fat32_file.c:341-347 | freeing a chain keeps the others whole and disjoint |
| FatChains.ClearedFrees | kernel/fs/fat32/fat32_file.c:341-347 | freeing a chain gives back exactly its clusters |
| FatChains.LinkTakes | kernel/fs/fat32/fat32_vfs.c:247-259 | linking a cluster takes one free cluster and cuts off what the chain had behind the place |
| FatChains.FreedFrom | kernel/fs/fat32/fat32_file.c:341-347 | freeing a chain clears exactly its entries |
| FatChains.FreedOnlyReached | kernel/fs/fat32/fat32_file.c:341-347 | in any table at all, cyclic ones included, only reached entries are cleared |
| FatChains.ChainStays | kernel/fs/fat32/fat32_file.c:341-347 | a chain stays within the table while other entries are cleared |
| Fat32.Fat32.FreeChain | kernel/fs/fat32/fat32_file.c:341-347 | from any entry whose links stay in the table, cycles included, the loop terminates and computes that clearing |
| FatData.WholePut | kernel/fs/fat32/fat32_vfs.c:294-311 | a write within cluster q is a write at that place of the chain's bytes |
| Fat32.Fat32.ReadCluster | kernel/fs/fat32/fat32_vfs.c:188-203 | the sector loop returns that slice of the cluster |
| Fat32.Fat32.WriteCluster | kernel/fs/fat32/fat32_vfs.c:291-311 | the sector loop overwrites that slice of the cluster and nothing else on the disk |
| Fat32.Fat32.ZeroCluster | kernel/fs/fat32/fat32_vfs.c:254-256 | the cluster reads as zeros, nothing else changes |
| Fat32.Fat32.Skip | kernel/fs/fat32/fat32_vfs.c:173-178 | n links lead to the n-th cluster of the chain, exactly when it has one |
| Fat32.Fat32.ReadChain | kernel/fs/fat32/fat32_vfs.c:180-206 | the cluster loop returns the bytes of the chain from that place |
| Fat32.Fat32.WriteChain | kernel/fs/fat32/fat32_vfs.c:287-314 | the cluster loop writes the bytes of the chain at that place and stops only at its end |
| Fat32.Fat32.WriteAt | kernel/fs/fat32/fat32_vfs.c:274-316 | as much of the data as the chain has room for overwrites its bytes at that place |
| Fat32.Fat32.ReadFile | kernel/fs/fat32/fat32_vfs.c:163-209 | returns the file's bytes from offset on, with the 32-bit sum as written |
| Fat32.ReadExactIff | kernel/fs/fat32/fat32_vfs.c:164-165 | the amount is right if and only if offset + size does not wrap or the chain ends with the file |
| Fat32.Fat32.ReadTooMuch | kernel/fs/fat32/fat32_vfs.c:164-165 | the wrapped sum is reached: an empty listed file on a disk with a free cluster gets two bytes, and a read at 1 for 2^32 - 1 bytes returns more than the one that is left |
| Fat32.Fat32.LinkMore | kernel/fs/fat32/fat32_vfs.c:247-259 | each linked cluster reads as zeros; the file's bytes, its directory and all other chains stay; it links all k exactly when k clusters are free, else all that are; clusters the chain had behind its length are cut off with the first link |
| Fat32.Fat32.FirstCluster | kernel/fs/fat32/fat32_vfs.c:223-236 | the first cluster of an empty file, entered in its directory entry, one free cluster fewer; fails exactly when none is free |
| Fat32.Fat32.LastCluster | kernel/fs/fat32/fat32_vfs.c:238-244 | the last cluster that the length accounts for |
| Fat32.Fat32.Link | kernel/fs/fat32/fat32_vfs.c:251-256 | marks, links and zeroes one cluster |
| Fat32.Fat32.GrowChain | kernel/fs/fat32/fat32_vfs.c:220-260 | the chain gets as long as needed, new clusters zero and old bytes unchanged, exactly when the clusters it lacks are free; otherwise it takes all there are |
| Fat32.Fat32.SetLength | kernel/fs/fat32/fat32_vfs.c:262-263 | node and directory entry get the new length; no search changes |
| Fat32.Fat32.ExpandFile | kernel/fs/fat32/fat32_vfs.c:211-264 | the chain is extended by zeroed clusters and the length set, or the length kept exactly when fewer clusters are free than it takes; clusters behind the counted ones are lost exactly when one is linked; within one cluster of 4 GiB the 32-bit rounding asks for no cluster at all; the directory entry follows length and first cluster |
| Fat32.Fat32.WriteFile | kernel/fs/fat32/fat32_vfs.c:269-317 | for any file whose chain covers its length: when the 32-bit sums fit, a write that is done puts the data at offset and leaves the file's other bytes; when they do not, it never ends in a whole file with all the data in it; all chains of the volume stay whole and disjoint; the directory keeps listing the file; nothing is written when the disk is full; it runs out of space exactly when fewer clusters are free than the new length takes, uses exactly those, and reports a lost entry exactly when it grows a file its directory does not list |
| FatGrowth.WriteLaw | kernel/fs/fat32/fat32_vfs.c:269-317 | a write is the old byte sequence overwritten at offset with zeros in the gap if and only if the slack bytes inside the gap were zero; zero slack stays zero |
| FatGrowth.NeededMeans | kernel/fs/fat32/fat32_vfs.c:211-222 | the clusters computed for a length are the least that hold it |
| FatGrowth.FailedWrite | kernel/fs/fat32/fat32_vfs.c:276-281 | a write that runs out of space leaves the contents |
| FatGrowth.ReadBack | kernel/fs/fat32/fat32_vfs.c:287-314 | the written bytes are at offset |
| Fat32.Fat32.WriteThenRead | kernel/fs/fat32/fat32_vfs.c:163-317 | reading after a write returns what was written, whatever the slack held; the write is done exactly when the clusters it takes are free and a file that grows is listed |
| FatGrowth.GrownKeepsLive | kernel/fs/fat32/fat32_vfs.c:211-264 | if all chains of the volume are whole and disjoint before growth, they are afterwards, with the grown one in place of the old |
| FatDirectory.AddedIsFound | kernel/fs/fat32/fat32_file.c:125-165 | an absent name is found where it was added |
| FatDirectory.AddKeepsOthers | kernel/fs/fat32/fat32_file.c:125-165 | every other name is found as before |
| FatDirectory.AddKeepsTail | kernel/fs/fat32/fat32_file.c:125-194 | everything behind the first zero slot stays zero |
| FatDirectory.AddKeepsUnique | kernel/fs/fat32/fat32_file.c:125-165 | names stay unique |
| FatDirectory.AddedLaw | kernel/fs/fat32/fat32_file.c:150-163 | an absent name is found after adding, with what was written, if and only if it does not begin with the deleted mark; every other name leads to the same entry; unique names stay unique |
| FatDirectory.GrownLaw | kernel/fs/fat32/fat32_file.c:167-187 | the same through a directory that had to grow first |
| FatDirectory.DeletedLaw | kernel/fs/fat32/fat32_file.c:294-358 | an unlinked name is found no more if and only if it was there once; every other name leads to the same entry; the invariants stay |
| FatDirectory.UpdateIs | kernel/fs/fat32/fat32_file.c:196-239 | the rewritten slot has the new size and cluster, every other field and slot the old |
| FatDirectory.GrownSame | kernel/fs/fat32/fat32_file.c:167-187 | a zeroed cluster behind a directory changes no search |
| FatDirectory.UpdateLaw | kernel/fs/fat32/fat32_file.c:196-239 | such an update changes no search result and no other entry |
| FatDirectory.SearchMeans | kernel/fs/fat32/fat32_file.c:66-84 | a search skips no hit: what it returns is the first one, and -1 means there is none at all |
| FatDirectory.SlotLayout | kernel/fs/fat32/fat32_file.c:66-84 | name, attribute, cluster and size of a slot, byte by byte, and the mark of a deleted one |
| FatDirectory.HitMeans | kernel/fs/fat32/fat32_file.c:66-84 | a search stops exactly at a slot in use that is no part of a long name and has the name's bytes, or the same letters |
| FatDirectory.NewSlotAdds | kernel/fs/fat32/fat32_file.c:150-163 | writing a new slot in the first free place is an addition in the above sense |
| Fat32.Fat32.FindSlot | kernel/fs/fat32/fat32_file.c:51-91 | the cluster, sector and slot of the first entry with that name, over all clusters of the directory |
| Fat32.Fat32.ScanSector | kernel/fs/fat32/fat32_file.c:66-84 | the first matching slot of a sector, or the first unused one |
| Fat32.Fat32.ScanFree | kernel/fs/fat32/fat32_file.c:148-163 | the first unused or deleted slot of a sector |
| Fat32.Fat32.UpdateDirent | kernel/fs/fat32/fat32_file.c:196-239 | rewrites that entry and nothing else, fails exactly when there is none |
| Fat32.Fat32.FindFreeSlot | kernel/fs/fat32/fat32_file.c:141-165 | the first unused or deleted slot, or the last cluster of a full directory |
| Fat32.Fat32.AddDirent | kernel/fs/fat32/fat32_file.c:125-194 | the directory obeys the law of adding over its whole chain, growing by one zeroed cluster exactly when it was full; all chains stay whole and disjoint and other chains keep their bytes; fails exactly when directory and disk are both full, changing nothing |
| Fat32.Fat32.Unlink | kernel/fs/fat32/fat32_file.c:294-358 | the directory obeys the law of deleting; exactly what the entry leads to is freed, and when that is the file's own chain its clusters are free again, every other chain keeps its bytes and all stay whole and disjoint; fails exactly when the name is not there |
| Fat32.Fat32.MakeDirectory | kernel/fs/fat32/fat32_file.c:241-292 | a new cluster on no other chain, in which a search for . leads to the cluster, one for .. to the parent, and no other to anything, and is entered in the parent by the law of adding; refused exactly when the name exists or no cluster is free; the new cluster is lost exactly when the name is absent, the parent full and one cluster free; all chains stay whole and disjoint |
| FatWitnesses.MkdirLoses | kernel/fs/fat32/fat32_file.c:241-292 | that case is reached: on a formatted disk with a packed directory and one free cluster the cluster is marked and the folder is nowhere |
| FatWitnesses.NearFourGiB | kernel/fs/fat32/fat32_vfs.c:211-264 | a write that ends in the last cluster below 4 GiB leaves a file longer than its chain |
| FatWitnesses.GapShowsSlack | kernel/fs/fat32/fat32_vfs.c:211-264 | a file with bytes behind its end, written past it, shows them in the gap |
| FatWitnesses.ReadsTooFar | kernel/fs/fat32/fat32_vfs.c:164-165 | on a formatted disk a two-byte file is read too far |
| Fat32.Fat32.NewDirectory | kernel/fs/fat32/fat32_file.c:254-288 | a fresh cluster in which . leads to itself, .. to its parent and nothing else is found; fails exactly on a full disk |
| Fat32.Fat32.FreshCluster | kernel/fs/fat32/fat32_file.c:254-264 | a free cluster, marked as an end, zeroed, apart from every chain |
| Fat32.Fat32.WriteDots | kernel/fs/fat32/fat32_file.c:266-288 | the two dot entries in a zeroed cluster, as a search finds them |
| Fat32.DotsMean | kernel/fs/fat32/fat32_file.c:266-288 | the bytes written are a directory with exactly two names, . and .., folders that start at the cluster and at its parent |
| FatNames.Canonicalize | kernel/fs/fat32/fat32_file.c:25-49 | the three loops compute eight capitals before the first dot and three behind it; before the first dot up to eight bytes, behind it up to three, small letters as capitals, spaces elsewhere |
| FatNames.PrintParse | kernel/fs/fat32/fat32_vfs.c:64-70 | printing a well-formed name and parsing it gives the same eleven bytes |
| FatNames.CanonUpper | kernel/fs/fat32/fat32_file.c:9-19 | for names the driver makes, exact and case-blind comparison agree |
| FatHistory.Directory.Serve | kernel/fs/fat32/fat32_vfs.c:269-368 | over every history of creates, mkdirs, writes and unlinks in one directory: its names and the bytes of its files are exactly those of a map updated by the served requests, all chains of the volume stay whole and disjoint, and chains outside keep their bytes; each reply is the one its request has coming, from the names, the free clusters and whether the directory is packed at its time, and the free clusters are accounted for exactly; .. of every folder it holds leads back to the directory |
| FatHistory.Directory.ServeOne | kernel/fs/fat32/fat32_vfs.c:269-368 | one request of such a history, with its reply |
| FatHistory.Directory.Lookup | kernel/fs/fat32/fat32_vfs.c:89-161 | finds a name exactly when the map has it, with its first cluster, length and kind |
| FatHistory.Directory.CreateFile | kernel/fs/fat32/fat32_vfs.c:322-342 | an empty file is added to the map, refused exactly when the name is taken or the directory is packed and no cluster free; a cluster goes exactly when it was packed; the entry found afterwards is an archive of size 0 without cluster |
| FatHistory.Directory.CreateFolder | kernel/fs/fat32/fat32_vfs.c:344-358 | the same for a folder, which takes a cluster of its own besides, and whose entry says folder |
| FatHistory.Directory.RemoveItem | kernel/fs/fat32/fat32_vfs.c:360-368 | the name leaves the map, missing exactly when it was not there |
| FatHistory.Directory.WriteItem | kernel/fs/fat32/fat32_vfs.c:269-317 | the file's bytes are overwritten with zeros in a gap exactly when the clusters that takes are free, or nothing changes |
| FatHistory.Directory.ReadItem | kernel/fs/fat32/fat32_vfs.c:163-209 | returns that slice of the file's bytes in the map when offset + size fits 32 bits; finds the file exactly when the map has it |
| FatHistory.Directory.constructor | kernel/fs/fat32/fat32_vfs.c:370-405 | an empty directory on a volume with any other chains starts a history |
| FatHistory.Directory.Existing | kernel/fs/fat32/fat32_vfs.c:370-405 | so does a directory that has entries already |
| FatHistory.EnoughIsEnough | kernel/fs/fat32/fat32_vfs.c:269-368 | no request of a history is turned away for space when the clusters all of them may take are free at the start |
| FatHistory.FoldersLeadBack | kernel/fs/fat32/fat32_file.c:266-288 | in every state of a history . of a folder leads to it and .. to the directory |
| FatHistory.NextMeans | kernel/fs/fat32/fat32_vfs.c:269-368 | a served request changes its own name only: an empty file, a folder, the bytes patched at offset, or nothing left |
| FatHistory.LastWriteStays | kernel/fs/fat32/fat32_vfs.c:269-317 | over every history what was written is in the file until the next request for its name |
| FatHistory.WriteKeeps | kernel/fs/fat32/fat32_vfs.c:269-317 | a write keeps the history's invariant |
| FatHistory.CreateKeeps | kernel/fs/fat32/fat32_file.c:125-194 | so does entering a file |
| FatHistory.MakeKeeps | kernel/fs/fat32/fat32_file.c:241-292 | so does entering a folder |
| FatHistory.LostKeeps | kernel/fs/fat32/fat32_file.c:241-292 | so does a folder whose cluster is lost |
| FatHistory.RemoveKeeps | kernel/fs/fat32/fat32_file.c:294-358 | so does removing an item |
| DescriptorCounts.ShareKeeps | kernel/core/vfs_core.c:588-597 | naming a file once more keeps all counts equal to the slots that exist |
| DescriptorCounts.CloseKeeps | kernel/core/vfs_core.c:443-481 | closing a slot keeps them, with nothing reachable freed and nothing unreachable kept |
| DescriptorCounts.OpenKeeps | kernel/core/vfs_core.c:182-189 | a new file in an empty slot keeps them |
| Descriptors.FdTables.Dup | kernel/core/vfs_core.c:578-602 | the lowest free descriptor from 3 names the same file; -1 exactly for a bad descriptor or a full table |
| Descriptors.FdTables.Dup2 | kernel/core/vfs_core.c:606-632 | newfd names the file of oldfd, whatever it named is closed |
| Descriptors.FdTables.CloseFd | kernel/core/vfs_core.c:443-481 | frees the file exactly when that was its only slot, its pipe exactly when that was the only slot on either end, a transient node with its file |
| Descriptors.FdTables.CloseAll | kernel/core/vfs_core.c:483-520 | the whole table is closed and conservation holds |
| Descriptors.FdTables.InheritAll | kernel/core/task.c:516-527 | the child's table equals the parent's and conservation holds |
| Descriptors.FdTables.Open | kernel/core/vfs_core.c:434-441 | conservation holds afterwards if and only if a slot was free or the node is persistent |
| Descriptors.FdTables.MakePipe | kernel/core/pipe.c:182-212 | conservation holds afterwards if and only if there were two free slots |
| Descriptors.FdTables.SpawnTable | kernel/core/task.c:588-622 | conservation holds afterwards if and only if the parent has all of 0 to 2 or none |
| Descriptors.ServeOne | kernel/core/vfs_core.c:434-632 | one system call leaks exactly in the stated cases, and moves the tables as the call says |
| Descriptors.Serve | kernel/core/vfs_core.c:434-632 | over every history of opens, closes, dups, pipes, forks, spawns and exits by any tasks, all counts are those of the slots that exist up to the first call that leaks, and from then on they are not |
| Descriptors.FdTables.InitStandard | kernel/core/vfs_core.c:78-88 | conservation holds afterwards if and only if none of 0 to 2 was in use |
| Descriptors.FullTableLeaks | kernel/core/pipe.c:182-212 | the failing cases are reached: from an empty system, filling a table and calling pipe(), or opening a file, breaks conservation |
| Descriptors.SpawnLeaks | kernel/core/task.c:588-622 | so does spawning from a task that has closed any one of 0 to 2 |
| Descriptors.FdTables.FindFree | kernel/core/vfs_core.c:434-439 | the lowest free slot, -1 exactly when there is none |
| Descriptors.FdTables.FindTwo | kernel/core/pipe.c:193-200 | the two lowest free slots, found exactly when there are two |
| Descriptors.FdTables.Inherit | kernel/core/task.c:518-526 | one more slot names the file and all counts follow |
| Descriptors.CloseFrees | kernel/core/vfs_core.c:443-481 | what a close frees is exactly what no slot names any more |
| Pipes.Pipe.Write | kernel/core/pipe.c:98-136 | without readers nothing is written; else as much as fits is appended to the queue |
| Pipes.Pipe.Read | kernel/core/pipe.c:87-95 | returns the oldest bytes first; what was accepted so far is what was read followed by the queue |
| Pipes.Pipe.Take | kernel/core/pipe.c:89-93 | one turn of that loop takes the oldest byte |
| Pipes.Pipe.Fill | kernel/core/pipe.c:116-121 | the copy loop appends as much as fits |
| Pipes.Pipe.constructor | kernel/core/pipe.c:13-39 | an empty ring |
| PipeWakeup.InvKept | kernel/core/pipe.c:52-179 | with any number of readers, every step of readers, writers and closers keeps the handshake's invariant as long as one reader waits at a time, a halt that ends while a reader is still marked waiting included |
| PipeWakeup.NoLostWakeup | kernel/core/pipe.c:52-136 | over every such run, when the lock is free a sleeping reader is the one named to be woken, the pipe is empty and has writers |
| PipeWakeup.NeverLeavesWaiting | kernel/core/pipe.c:59-84 | over every such run a reader that is still marked waiting when its halt ends can only go back to wait |
| PipeWakeup.WokenAfterWrite | kernel/core/pipe.c:124-133 | once a write of bytes or the drop of the last write end is complete, the readers are awake |
| PipeWakeup.WriteLosesIff | kernel/core/pipe.c:124-133 | a write to an empty pipe loses a wake-up exactly when a reader sleeps whom the pipe does not name |
| PipeWakeup.SecondReaderLoses | kernel/core/pipe.c:59-84 | two readers that block on one pipe: the first sleeps on with a byte there |
| PipeWakeup.SafeIffOneReader | kernel/core/pipe.c:52-179 | no run from an empty pipe loses a wake-up if and only if at most one task reads it |
| TaskRing.Inserted | kernel/core/task.c:530-533 | the two stores put the new task behind its maker in one cycle of all tasks |
| TaskRing.Removed | kernel/core/task.c:921-925 | bypassing a task leaves one cycle of the others |
| TaskRing.Tasks.AddBehind | kernel/core/task.c:647-650 | fork and spawn keep the ring, and every parent a task |
| TaskRing.Tasks.Append | kernel/core/task.c:369-376 | kernel tasks go to the end of the ring |
| TaskRing.Tasks.ReapZombies | kernel/core/task.c:895-975 | what leaves the ring was ZOMBIE and a child of the running task, or any zombie for tasks 1 and 2; all such leave, in order, when the head was no zombie; reaping the head ends the pass; afterwards every task's parent is a task exactly when none that goes leaves a child behind |
| TaskRing.ParentGoesFirst | kernel/core/task.c:917-955 | a parent is reaped and its child keeps naming it |
| TaskRing.Tasks.constructor | kernel/core/task.c:369-376 | one task is a ring |
| TaskRing.Tasks.LastTask | kernel/core/task.c:371-372 | the walk ends at the ring's last task |
| TaskRing.Tasks.Unlink | kernel/core/task.c:924-930 | one task leaves, the head moves on when it was the head |
| TaskRing.Tasks.ReapBehind | kernel/core/task.c:916-972 | behind a head that stays, exactly the zombies the running task may reap leave |
| Scheduling.PickNext | kernel/modules/sched_rr/sched_round_robin.c:12-37 | the first ready task behind the running one, or the running one after a whole round |
| Scheduling.TaskSwitch | kernel/core/task.c:1053-1089 | demotes, picks and promotes as the run model says |
| Scheduling.SwitchKept | kernel/core/task.c:1053-1089 | with the idle task ready or running, a switch promotes only what was ready or running |
| Scheduling.InvKept | kernel/core/task.c:1053-1089 | switches, wake-ups, waits, deaths (of tasks whose parent is gone too), arrivals and reaping keep the scheduler's invariant |
| Scheduling.DeathWakesParent | kernel/core/task.c:820-836 | a death makes one zombie and wakes its waiting parent; no other task changes |
| Scheduling.SwitchCloser | kernel/modules/sched_rr/sched_round_robin.c:12-37 | a switch that does not pick a ready task moves strictly closer to it |
| Scheduling.NoResurrection | kernel/core/task.c:1076-1081 | over every run no switch makes a waiting or dead task run |
| Scheduling.DeadStayDead | kernel/core/task.c:820-841 | a dead task stays dead until it is reaped |
| Scheduling.WaitIsBounded | kernel/modules/sched_rr/sched_round_robin.c:12-37 | each switch that passes a ready task by comes closer to it |
| Scheduling.RunsWithinN | kernel/modules/sched_rr/sched_round_robin.c:12-37 | n switches in a fixed ring of n cannot all pass a ready task by |
| Signals.FrameIs | kernel/core/task.c:1254-1290 | trampoline bytes intact, return address and signal number in place, nothing outside the frame changed, for both word sizes |
| Signals.SignalTask.CheckPending | kernel/core/task.c:1225-1323 | with a handler, 15 or 2 pending and no handler active execution goes on in the handler, 15 before 2, that bit alone cleared, the interrupted registers saved, the trampoline's address and the signal on the stack; otherwise nothing changes |
| Signals.SignalTask.Deliver | kernel/core/task.c:786-816 | 9 kills; 15 and 2 kill exactly without a handler and are queued with one; others are ignored |
| Signals.SignalTask.BuildFrame | kernel/core/task.c:1254-1300 | the stores build that frame at the aligned stack pointer |
| Signals.InvKept | kernel/core/task.c:1225-1323 | sends, dispatches, handler changes and returns keep the signal invariant |
| Signals.ReturnResumesProgram | kernel/core/syscall_dispatch.c:190-197 | over every run sigreturn gives back the program's own instruction and stack pointer, through any chain of handlers |
| Signals.HandlersNeverNest | kernel/core/task.c:1232-1245 | handlers never nest, SIGKILL is never pending, and for SIGTERM and SIGINT every raised bit has been dispatched exactly once or is still pending |
| Signals.DispatchEntersHandler | kernel/core/task.c:1290-1318 | over every run each dispatch enters the handler installed then and saves where the program stood |
| Signals.KilledOrHandled | kernel/core/task.c:788-820 | a signal ends a task exactly when it is 9, or 15 or 2 without a handler |
| Signals.CallsMean | kernel/core/syscall_dispatch.c:179-200 | sigaction installs, in 32 bits, for all signals but 9 and 17; sigreturn with nothing to see goes back to the saved registers |
| UserMemory.CopyIn | kernel/fs/elf/elf_load.c:163-178 | the page-wise copy through the page tables and the physical map equals one flat store at the virtual address; no mapping, no other address space and no exact count changes |
| UserMemory.StorePart | kernel/fs/elf/elf_load.c:163-178 | a store into one frame is seen at exactly those virtual addresses |
| UserMemory.SamePage | kernel/arch/x86_64/mmu/mmu.c:19-22 | two user addresses share their page-table path exactly when they share their page |
| ProgramImage.MapPages | kernel/fs/elf/elf_load.c:141-156 | every page of the range reads as zeros and is user-writable, everything else as before; exact counts stay exact over unmapped pages; fails only with no frame left |
| ProgramImage.LoadSegment | kernel/fs/elf/elf_load.c:128-195 | in the page tables of the directory its pages hold its file bytes and zeros, other pages and other address spaces what they held; fails only with no frame left |
| ProgramImage.LoadSegments | kernel/fs/elf/elf_load.c:123-199 | every user byte of the directory ends as that of the last segment on its page, other address spaces read as before; all segments read as the file says if and only if none is damaged on a page it shares with a later one; counts stay exact when no page is mapped twice; fails only with no frame left |
| ProgramImage.ImageIff | kernel/fs/elf/elf_load.c:130-195 | intact in memory if and only if undamaged, for every list of segments |
| ProgramImage.DisjointIsFine | kernel/fs/elf/elf_load.c:130-195 | segments on pages of their own are undamaged |
| ProgramImage.SharedPageLoses | kernel/fs/elf/elf_load.c:141-156 | a non-zero byte before a later segment on the same page is lost |
| UserStack.PushStrings | kernel/proc/exec.c:64-103 | the argument strings lie terminated below the stack top, none overwritten by a later one |
| UserStack.PushVector | kernel/proc/exec.c:105-126 | the pointer vector and its null lie below the strings, which stay |
| UserStack.BuildStack | kernel/proc/exec.c:24-131 | the stack pages are mapped and the program finds argc, pointers to its argument strings and a null, at most 64; every other page and address space reads as before and exact counts stay exact; it ends early only with no frame left; argc, pointers and null end on a 16-byte boundary less than 16 bytes below the strings |
| UserStack.MapStack | kernel/proc/exec.c:26-45 | afterwards every page of the stack is user-writable, one that was there included, and nothing outside has changed |
| UserStack.PushArgs | kernel/proc/exec.c:47-131 | strings, vector and argc are written into the mapped stack only |
| ProgramStart.Start | kernel/proc/exec.c:221-290 | from a clone of the kernel directory: below the stack the new address space is the last segment on each page and nothing else, its segments are intact if and only if undamaged, its arguments are at the stack pointer, no other process reads anything different, counts stay exact for page-disjoint segments; fails only with no frame left; the stack is the 32 KB below 0x7FFFFFFFF000 |
| ProgramStart.ImageHeld | kernel/fs/elf/elf_load.c:123-199 | a page no segment touches stays unmapped, any other holds the last segment on it |
| UserStack.ArgsDecodeUniquely | kernel/proc/exec.c:105-131 | the layout decodes to one argument list only |
| Paths.Canonicalize | kernel/core/vfs_core.c:192-267 | for every path the result is the joined stack of its components, cut behind the last component that fits 511 characters, and whole when they all do |
| Paths.Split | kernel/core/vfs_core.c:223-248 | the scanning loop computes the components, one token after the other as PushToken and OneMore say |
| Paths.PushToken | kernel/core/vfs_core.c:231-240 | .. takes the last component away, . and nothing change nothing, a name is added to up to 31 others |
| Paths.Rebuild | kernel/core/vfs_core.c:250-266 | the writing loop joins the components and stops before the first that does not fit |
| Paths.ResultIsClean | kernel/core/vfs_core.c:231-240 | no empty, '.' or '..' component, at most 32 |
| Paths.LimitDoesNotShow | kernel/core/vfs_core.c:239-239 | paths of at most 32 names are folded as without the limit |
| Paths.Idempotent | kernel/core/vfs_core.c:192-267 | canonicalizing a canonical path changes nothing, in any directory |
| Paths.OneMore | kernel/core/vfs_core.c:231-240 | one component more, on any path that fits: .. takes the last one away, . and nothing leave the path alone, a name goes to the end of up to 31 others |
| Paths.InAndOut | kernel/core/vfs_core.c:231-240 | into a directory and out again is the same path |
| Paths.ParentOf | kernel/core/vfs_core.c:231-240 | .. behind a canonical path, or from it as working directory, is its parent |
| Paths.FirstOne | kernel/core/vfs_core.c:223-248 | one component from the root, which has no parent but itself |
| Paths.Relative | kernel/core/vfs_core.c:201-219 | a relative path stands for the absolute one behind the working directory |
| Paths.CanonicalTwice | kernel/core/vfs_core.c:192-267 | canonicalizing any result again, in any directory, gives the components that were kept, and the same string if and only if none or all of them were cut off |
| Paths.LongNameIsCut | kernel/core/vfs_core.c:192-267 | a directory and a name of 508 letters: cut, and changed by a second pass |
| Paths.ParentAndBase | kernel/core/vfs_core.c:269-298 | all components but the last, and the last, which looked up from that parent is the path again; a path that was cut has an empty base name |
| Paths.LastSlash | kernel/core/vfs_core.c:277-278 | the last slash, -1 exactly when there is none |
| Paths.SplitJoined | kernel/core/vfs_core.c:223-248 | a joined path splits into its components |
| Paths.Rejoin | kernel/core/vfs_core.c:269-298 | the last component relative to the path of the others resolves to the whole path |

## Left out

- Assembly, port and MSR access, ACPI, the local APIC beyond "an interrupt runs the handler once", all device drivers: hardware effects.
- The 32-bit build: only the x86_64 branches are modelled.
- TLBs in the address-space model: every walk reads the tables; caching is the subject of `TlbShootdown`, where page tables are maps from root and address to an entry.
- Other page-table bits (cache control, accessed, dirty, no-execute) and permission bits of inner levels: translations carry the leaf entry's bits.
- Table frames are never given back: the source leaks them on exit, and so does the model.
- TlbShootdown: the timeout branch (kernel/arch/x86_64/smp/smp.c:122-136) is not a step; a CPU is not preempted between an edit and the end of its shootdown; all CPUs are ready from the start.
- KernelHeap.Heap.Alloc: heaps stay below 4 GiB, because block sizes are 32-bit fields; mapping of the new pages in expand is not modelled.
- KernelHeap.Heap.constructor: fresh memory is taken not to hold the magic number where the first hole's footer would be.
- KernelHeap.Heap.Free: freeing a hole a second time is excluded; pointers without the magic number are not.
- heap contract, the PID 2 diagnostics, the heap lock.
- Fat32: block reads and writes succeed, every table entry has its cluster on the disk (FirstFreeEntry and OnDiskIff say what happens otherwise), only the first copy of the table exists, long names and timestamps are not interpreted, mount and BPB parsing are not modelled.
- Fat32.Fat32.WriteFile: for a file without clusters offset + size fits 32 bits, because the source then starts at a cluster number it never had.
- Fat32.Fat32.Unlink: the entry's links stay within the table, because the source would index past it.
- FatHistory.Directory.Serve: one directory, names without zero bytes, a node looked up for each request; writes to folders and writes ending within a cluster of 4 GiB are skipped.
- Descriptors: persistent, transient and pipe nodes are told apart, other node flags are not; O_CREAT handling and offsets are left out.
- PipeWakeup: readers are not killed while they sleep.
- AddressSpaces.Mmu.MapStackPage: what a frame holds that was never written is a parameter.
- ProcessHistory.Machine.ServeOne: stops after 254 clones, as many as the byte-sized counts allow whatever is mapped; exec mappings onto mapped pages are refused, because they lose exact counts (`Isolation.ExactIff`); descriptors, signals and scheduling of the same processes are other modules.
- FatHistory.Directory.CreateFile: that a history's packed[i] is the state of the directory is stated for its first request and by each operation.
- Scheduling: one CPU's ready queue; a dying task whose parent was reaped writes to memory that is no task's, and what that memory is used for by then is not modelled; sleep queues and per-CPU idle tasks outside the queue are left out.
- Signals: one handler serves both signals, as in the source; parents are told of a child's death by a step of their own; user stack pointers are at least 30.
- ProgramImage.LoadSegments: segments have filesz <= memsz, lie within the file image and between 128 MB and the kernel half; below 128 MB a mapping is seen by every directory, which `TlbShootdown.LowEditGoesStale` is about. Header checks are not modelled.
- UserStack.BuildStack: the arguments fit the stack and are not null, and stack pages that are there already are user-writable; what follows once frames have run out is not modelled; the 32-bit layout is left out.
- ProgramStart.Start: the kernel's directory has no user pages; the switch to the new directory, the registers and the release of the old directory are left out.
- Paths.Canonicalize: the byte the source writes past its buffer for a working directory of 511 characters is not modelled.
- Mount table, path resolution, initrd, the system-call table beyond signals, shells and user programs: mostly straight-line code.
