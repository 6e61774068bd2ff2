# TaaviOS kernel: a verified model

This project models the parts of the TaaviOS kernel whose correctness ranges over every run: the kernel heap, the x86_64
physical memory manager, the four-level page tables and the ranges, address spaces and kernel stacks built on them, the
FAT32 driver, the ledger between callers and clerks, the scheduler, and the spinlock. Code that updates state in place is
modelled by classes whose methods follow the source's loops and branches; what those methods promise is stated against
independent specifications (the bytes a heap list covers, the finite map a page-table tree stands for, the flat FAT and
cluster contents a disk stands for, the nearest runnable task), and the theorems are proved about those.

Every statement below is a contract that the Dafny verifier checks. `dafny verify dfyconfig.toml` checks the whole
project.

## What is proved

**Kernel heap** (`FreeList`, `KernelHeap`). Live and free blocks tile the heap, and the free list is *the* address-ordered
list of maximal gaps: two coalesced lists over the same bytes are equal, so the list is a function of the live blocks.
From that follow: freeing an allocation restores the list on both the split and the no-split path, freeing everything in
any order leaves one block, the byte count is the number of bytes in no live block. Without a refusal by the VMM an
allocation succeeds exactly when a block fits now or the trailing gap fits after the growth steps that remain. It takes the
first block that fits, and costs a header and at most a header more than the bytes asked for.

**Physical memory** (`Pmm`). The bitmap represents a set of free pages; counters are its true sizes; no free page lies
below the hint, so allocation returns the lowest free page. While page 0 is not free, 0 means that none is.

**Page tables** (`PageTables`, `PageForest`, `PageWrites`, `Paging`, `Translation`, `Hardware`). All directories form one
forest: a ghost map gives every table its path of indices from a root, and the tables below the shared upper halves belong
to the kernel root. A walk reaches a table only along its path, so one entry write changes exactly the walks along it. The
trees refine a finite map from canonical addresses to physical addresses, in every directory at once; failed calls change
no translation although they may have linked tables. After any run of calls through any directories, new ones included,
every address in every directory translates as the fold of the successful calls says: a call in the upper half shows in
all directories, one in the lower half in its own only. Translation means what `paging_get_phys` computes; `Hardware`
reads the same tables as the processor does, bit by bit, and states when the two agree.

**Ranges, address spaces, stacks** (`Vmm`, `Teardown`, `Lifecycle`, `KernelStacks`). Range allocation below the top of the
address space is all-or-nothing on translations, with exact accounting of every frame. Releasing a range unmaps its pages
and frees their frames, for mapped and unmapped pages and any start address. Tearing an address space down frees each of
its leaf frames and tables exactly once. Over any run of creations, allocations, releases and teardowns every frame is free,
in the forest, or lost to one of the allocations that failed in `paging_map`, one frame each; tearing down what the run made
gives all others back. Below every kernel stack, and above every one but the last, lies an unmapped page, whatever stacks and
user spaces come and go.

**FAT32** (`FatLayout`, `FatChains`, `Fat32`, `FatFiles`, `FatSplice`, `FatRuns`, `FatNames`, `FatDirs`). A disk represents
a flat FAT, twice, and the clusters' contents, and where each byte of both lies is stated. Writing one FAT word through the
sector arithmetic changes its four bytes in both copies, and no other byte of the disk; no operation ever touches a sector
outside the FATs and the clusters. Allocation claims the least free cluster at or above the hint; the FAT stays a forest of disjoint
chains that covers every used cluster. A written file reads back byte for byte; a write at an offset is a splice of the
file's bytes, and one that fails half-way a splice of the bytes it got to; other files keep their chains and bytes. Over
whole runs, with faults anywhere, every file holds the fold of what was written to it. A created directory entry is found,
other lookups are unchanged; path resolution is the recursive lookup of the names, cut into pieces of twelve characters.

**Ledger** (`LedgerProtocol`). At most one request per clerk is in progress and the recovery index points at it, so a
crash of a serving clerk terminates that request, wakes its caller and touches nothing else. What a crash of a resting
clerk does, and when the ledger survives it, is decided exactly. A blocked caller has exactly one open request, or is stuck
without one, and when it gets stuck is decided exactly; each submission gets at most one answer, the one owed for its
operation and for what its handler made of it, and its caller collects that answer once.

**Scheduler** (`Scheduler`). There is always a task to switch to, it alone is running afterwards, normal tasks get one of any
four picks, and a task that waits in the topmost class, below high, is picked within one round. High tasks take turns: the
number of picks one of them waits is bounded exactly without normal tasks, and with them as long as no more than three are
high. With any number of high tasks it is decided exactly which normal task gets the fourth pick.

**Spinlock** (`Spinlock`). For any number of processors and every interleaving of single steps: mutual exclusion, interrupts
off at every holder, and the interrupt flag back at the outermost unlock and not before. From every reachable state a free
lock is taken, a held one given back, and a released one taken by a waiter, each in a stated number of steps.

## Where the code does less than one might expect

- `pmm_free` accepts page 0, and the next `pmm_alloc` hands it out as address 0, its value for failure
  (`Pmm.Manager.FreeZeroThenAlloc`).
- `paging_map_huge` checks 4 KiB alignment only. The processor takes a 2 MiB leaf's address from bit 21 up: it reads the
  region as given if and only if the physical address is 2 MiB-aligned (`Hardware.HugeAgreesIff`), and translates the
  address asked for to the physical address given if and only if both lie equally far into their regions, at the start or
  one page in (`Hardware.HugeExactIff`). Otherwise it reads other memory or faults (`Hardware.SkewedRegion`).
- `vmm_alloc` near the top of the address space: a failure restores every translation if and only if the page it failed at
  lies below 2^64; past that the rollback loop does not start (`Vmm.Spaces.AllocRange`, `Vmm.Spaces.WrappedRollback`). When
  `paging_map` is what failed, the frame in hand stays allocated. A size within a page of 2^64 asks for no page and
  succeeds (`Vmm.PagesCover`).
- `vmm_free` frees physical page 0 if and only if a page of the range is not mapped when its turn comes, since an unmapped
  page reads as address 0, which is not the value it tests for (`Vmm.Spaces.FreeRange`, `Vmm.HolesIff`).
- `vmm_free_kstack` accepts every address less than a slot above the top of a used stack, and leaves the stacks sound if and
  only if it is that top (`KernelStacks.Stacks.FreeStack`, which leaves the wrong addresses of the last slot out).
- `fat32_write_file` rounds the size up in 32 bits: a buffer whose rounded size does not fit asks for no cluster and the
  call returns 0 without writing (`FatFiles.WriteFile`).
- `fat32_find_cluster` looks a path up name by name on every disk if and only if no name is longer than twelve characters
  (`FatDirs.WholePathIff`): longer ones are cut, and the pieces looked up one below the other (`FatDirs.ResolveIsDescend`).
- `fat32_create_dirent` makes a findable entry if and only if the attributes do not look like a long-name entry and the name
  does not begin with the deleted mark (`FatDirs.InsertFound`).
- `ledger_check_request` is meant for the request being served, and a clerk that crashes at rest runs it too, on whatever
  slot the index was left at. It leaves the ledger and every caller as they were if and only if the index is unset, or names
  an empty slot, or a terminated request whose caller is not blocked (`LedgerProtocol.HarmlessIff`). Errors handed to callers
  can make up for the crash if and only if the request at the index is not complete and is not a terminated one whose caller
  waits for another request (`LedgerProtocol.TolerableIff`). `LedgerProtocol.StaleCrash` terminates a request that was never
  handled, `LedgerProtocol.LostReply` takes back a reply that was given, and `LedgerProtocol.WrongWake` wakes a caller that
  waits for another request, which then collects an error while that request is open.
- A caller is left blocked with no request to wake it if and only if its submission is refused and it blocks after
  submitting, or the refusal does not wake it (`LedgerProtocol.Ledger.Submit`). Submissions are refused for a bad descriptor,
  for lack of memory and by a full table, so `write(0, ...)` blocks with an empty table (`LedgerProtocol.WriteToZero`);
  requests to free a task are refused without a wake when memory is short, so an exiting task can block. Within the ledger
  only the recovery of a clerk that crashes at rest can wake such a caller (`LedgerProtocol.Ledger.Run`); outside it, a key
  press wakes the task that has the keyboard focus.
- A normal task can starve: while high tasks stay runnable, each fourth pick takes the normal task nearest behind the high
  task picked just before, and no other (`Scheduler.ChosenIff`, `Scheduler.NeverPicked`). With one high task, another task is
  ever picked if and only if it is nearest behind it at one of those picks (`Scheduler.PickedIff`). With the window clerk
  busy, a ready task can wait unstarted through any number of switches (`Scheduler.Starves`).
- A high task can starve too, behind three others and beside a normal one: the normal pick sends the search back before it
  comes round (`Scheduler.HighStarves`). With at most three high tasks it cannot (`Scheduler.HighSoon`). Without normal tasks
  the limit makes the current high task keep the processor for one more pick (`Scheduler.HighAtLimit`).

## Model

| member | source | states |
|---|---|---|
| FreeList.CanonicalUnique | kernel/mm/kmalloc/kmalloc.c:68-88 | two coalesced address-ordered lists that cover the same bytes are equal |
| FreeList.TotalBytesCounts | kernel/mm/kmalloc/kmalloc.c:24-33 | the summed block sizes are the number of bytes the list covers |
| KernelHeap.LiveDeterminesFree | kernel/mm/kmalloc/kmalloc.c:68-125 | the free list is a function of the live blocks and the heap bounds |
| KernelHeap.EmptyHeapIsOneBlock | kernel/mm/kmalloc/kmalloc.c:68-88 | with nothing live the list is one block spanning the heap |
| KernelHeap.RemainingCountsFreeBytes | kernel/mm/kmalloc/kmalloc.c:24-33 | the remaining size is the number of heap bytes in no live block |
| KernelHeap.TakenCovers | kernel/mm/kmalloc/kmalloc.c:135-157 | taking a block, split or whole, removes exactly the granted header and payload from the free bytes |
| KernelHeap.TakenTotal | kernel/mm/kmalloc/kmalloc.c:135-157 | an allocation costs a header and its payload: the bytes asked for when the block has at least a header and a byte more, else the whole block |
| KernelHeap.OutcomeMeans | kernel/mm/kmalloc/kmalloc.c:133-157 | a request fails when every block is too small; else it takes the first that is not, and a remainder of at least a header and a byte stays in the list |
| KernelHeap.NoFitMeans | kernel/mm/kmalloc/kmalloc.c:133-162 | the heap grows only when every block is too small |
| KernelHeap.GrowKeepsSatisfiable | kernel/mm/kmalloc/kmalloc.c:162-195 | a growth step without a fit neither makes nor breaks satisfiability, because successive steps coalesce |
| KernelHeap.Heap.constructor | kernel/mm/kmalloc/kmalloc.c:35-66 | a fresh heap is one block spanning it and satisfies the invariant if and only if it holds at least a header; a smaller one gets a block larger than the address space |
| KernelHeap.Heap.UpdateRemaining | kernel/mm/kmalloc/kmalloc.c:24-33 | the walk along the list computes the sum of its blocks |
| KernelHeap.Heap.Merge | kernel/mm/kmalloc/kmalloc.c:68-88 | one pass yields the coalesced list over the same bytes; it fails exactly when a header behind the first lost its magic |
| KernelHeap.Heap.Release | kernel/mm/kmalloc/kmalloc.c:90-125 | succeeds exactly on a magic header not already listed; the free bytes gain exactly that block; failure changes nothing |
| KernelHeap.Heap.Take | kernel/mm/kmalloc/kmalloc.c:135-157 | hands out the block behind its header, keeps the invariant, and adds exactly it to the live blocks, with the bytes asked for or the whole block, at most a header more; the remaining size falls by that and a header |
| KernelHeap.Heap.FindFit | kernel/mm/kmalloc/kmalloc.c:133-160 | finds the first block that is large enough |
| KernelHeap.Heap.Grow | kernel/mm/kmalloc/kmalloc.c:162-195 | a granted step joins the trailing gap; a refused one changes nothing |
| KernelHeap.Heap.Kmalloc | kernel/mm/kmalloc/kmalloc.c:127-213 | grows only while nothing fits, then first fit; without a refusal it succeeds if and only if the request is satisfiable; the new block has the bytes asked for and at most a header more, exactly them when the block found has a header and a byte to spare; the remaining size changes by the growth, the payload and a header; it terminates |
| KernelHeap.Heap.Kfree | kernel/mm/kmalloc/kmalloc.c:215-222 | succeeds exactly on a live pointer, removes it from the live blocks and keeps the tiling; otherwise nothing changes |
| KernelHeap.Heap.AllocThenFree | kernel/mm/kmalloc/kmalloc.c:203-222 | freeing a fresh allocation restores the list, up to the heap growth it caused |
| KernelHeap.Heap.FreeAll | kernel/mm/kmalloc/kmalloc.c:90-125 | freeing all live blocks in any order leaves one block spanning the heap |
| KernelHeap.Heap.Run | kernel/mm/kmalloc/kmalloc.c:203-222 | any sequence of allocations and frees keeps the invariant; the held blocks are distinct, are exactly the live ones added, and each has the bytes asked for and at most a header more |
| Pmm.PageBitUpdate | kernel/arch/x86_64/mm/pmm/pmm.c:21-34 | writing one bit of one word changes one page's bit |
| Pmm.FirstFromLowHint | kernel/arch/x86_64/mm/pmm/pmm.c:206-239 | with no free page below the hint, the first free page from the hint is the lowest free page |
| Pmm.HighestTopReached | kernel/arch/x86_64/mm/pmm/pmm.c:116-125 | the number of pages comes from the end of a usable or reclaimable region |
| Pmm.BitmapFits | kernel/arch/x86_64/mm/pmm/pmm.c:131-172 | the bitmap has a bit for every page and takes whole pages, with nothing to spare |
| Pmm.HostMeans | kernel/arch/x86_64/mm/pmm/pmm.c:136-143 | a region can host the bitmap exactly when it is usable, begins at 1 MiB or above and has a bit for every page |
| Pmm.Manager.SetBit | kernel/arch/x86_64/mm/pmm/pmm.c:21-24 | the page reads as used afterwards, and every other page as before |
| Pmm.Manager.ClearBit | kernel/arch/x86_64/mm/pmm/pmm.c:26-29 | the page reads as unused afterwards, and every other page as before |
| Pmm.Manager.TestBit | kernel/arch/x86_64/mm/pmm/pmm.c:31-34 | tells whether the page is missing from the set of free pages the bitmap stands for |
| Pmm.Manager.Init | kernel/arch/x86_64/mm/pmm/pmm.c:112-192 | fails exactly without usable memory or a host region; otherwise the free pages are those inside usable regions minus page 0 and the bitmap's, counters are exact and the hint is low |
| Pmm.Manager.FreeUsable | kernel/arch/x86_64/mm/pmm/pmm.c:155-168 | clears exactly the pages that lie inside the usable regions, whole pages or not |
| Pmm.Manager.ReserveBitmap | kernel/arch/x86_64/mm/pmm/pmm.c:170-177 | takes exactly the pages the bitmap lies in |
| Pmm.Manager.FindFree | kernel/arch/x86_64/mm/pmm/pmm.c:206-239 | the wrapped scan finds the first free page from the hint, or tells that none is free |
| Pmm.Manager.Alloc | kernel/arch/x86_64/mm/pmm/pmm.c:206-239 | returns 0 exactly when nothing is free or page 0 is the first free page from the hint, else a free page; while page 0 is not free, 0 exactly when nothing is; with a low hint the lowest one, and the hint stays low; the next search starts behind the page |
| Pmm.Manager.Free | kernel/arch/x86_64/mm/pmm/pmm.c:251-281 | refuses exactly unaligned and out-of-range addresses; otherwise the page is free, counters are exact, the hint moves down to the page if it was above, and stays low |
| Pmm.Manager.FreeZeroThenAlloc | kernel/arch/x86_64/mm/pmm/pmm.c:206-281 | freeing page 0 and allocating again returns its address, 0, and leaves the free pages as they were |
| PageTables.MakeEntryFields | kernel/arch/x86_64/mm/paging/paging.c:87-92 | an entry built from a frame and flags has that frame and the present and size bits of the flags |
| PageTables.EntryParts | kernel/arch/x86_64/mm/paging/paging.c:87-92 | an entry is the address of its frame plus the flags it was built from, user bit and all |
| PageTables.IxIdentifiesPage | kernel/arch/x86_64/mm/paging/paging.c:28-43 | on canonical addresses the four indices determine the page |
| PageTables.CanonicalFormIx | kernel/arch/x86_64/mm/paging/paging.c:28-43 | any address has the indices and page offset of the canonical address with the same low 48 bits |
| PageForest.DescendPath | kernel/arch/x86_64/mm/paging/paging.c:64-93 | a descent from a root that reaches a table followed that table's path |
| PageForest.PathInjective | kernel/arch/x86_64/mm/paging/paging.c:64-93 | no two frames of the forest have the same path |
| PageForest.KernelHalfCoherent | kernel/arch/x86_64/mm/paging/paging.c:331-345 | an upper-half page translates alike in every directory |
| PageWrites.LeafWrite | kernel/arch/x86_64/mm/paging/paging.c:146-157 | a last-level entry write changes the walk of its page, in every directory that shows it, and no other |
| PageWrites.HugeWrite | kernel/arch/x86_64/mm/paging/paging.c:203-213 | a 2 MiB leaf changes what paging_get_phys reads for its 512 pages, and for no other |
| PageWrites.LinkWalk | kernel/arch/x86_64/mm/paging/paging.c:80-93 | linking an empty table changes no walk |
| PageWrites.UserBitWrite | kernel/arch/x86_64/mm/paging/paging.c:65-74 | setting the user bit of a link changes no walk |
| Paging.Directories.PopulateKernelHalf | kernel/arch/x86_64/mm/paging/paging.c:406-415 | links a table behind every upper-half slot, changing no translation; fails only without free frames |
| Paging.Directories.SearchOrCreate | kernel/arch/x86_64/mm/paging/paging.c:64-93 | returns the table at the child path, creating it only when asked; changes no translation; says exactly why it returns none |
| Paging.UserLinksKept | kernel/arch/x86_64/mm/paging/paging.c:64-74 | a write at the end of a walk leaves the user links of the walk in place |
| Paging.Directories.Map | kernel/arch/x86_64/mm/paging/paging.c:111-157 | success maps one previously unmapped page and nothing else, with exactly the given flags, and a user page is let through at every level; failure changes no translation and means a bad or mapped address or no frames |
| Paging.Directories.MapHuge | kernel/arch/x86_64/mm/paging/paging.c:175-213 | success maps the 512 previously unmapped pages of the region, as paging_get_phys reads them, and nothing else, with the given flags; failure changes no translation and means a bad address, a used directory entry or no frames |
| Paging.Directories.Unmap | kernel/arch/x86_64/mm/paging/paging.c:227-264 | succeeds exactly on an aligned page mapped by a last-level entry and unmaps that page only |
| Paging.Directories.GetPhys | kernel/arch/x86_64/mm/paging/paging.c:277-319 | frame plus offset for a mapped address, 4 KiB or 2 MiB, and 0 for an unmapped one |
| Paging.Directories.CreateDirectory | kernel/arch/x86_64/mm/paging/paging.c:331-345 | fails exactly without frames; else an empty lower half and the kernel's upper half, no other translation changed |
| Translation.MapUpdatesOnePage | kernel/arch/x86_64/mm/paging/paging.c:111-157 | on addresses, a successful map updates the finite map at one page to frame plus offset |
| Translation.UnmapRemovesOnePage | kernel/arch/x86_64/mm/paging/paging.c:227-264 | on addresses, a successful unmap removes one page from the finite map: that of the canonical address with the same low 48 bits |
| Translation.HugeMapsRegion | kernel/arch/x86_64/mm/paging/paging.c:175-319 | after a successful huge map paging_get_phys reads the 2 MiB region of its address from the physical address up, and everything else as before |
| Hardware.AgreeIff | kernel/arch/x86_64/mm/paging/paging.c:277-319 | the processor and paging_get_phys agree on a page if and only if it does not end in a 2 MiB leaf with an unaligned address |
| Hardware.TranslateIsBits | kernel/arch/x86_64/mm/paging/paging.c:28-93 | the walk of the tables is what the processor reads from the bits of their words, in every directory and for every address |
| Hardware.UserIsBits | kernel/arch/x86_64/mm/paging/paging.c:65-74 | a walk with user links has bit 2 set in the words of all three upper levels |
| Hardware.MapWord | kernel/arch/x86_64/mm/paging/paging.c:146-157 | the word written for a page is the sum of its address, the flags and a missing present bit |
| Hardware.MapExact | kernel/arch/x86_64/mm/paging/paging.c:111-157 | after a successful map both, and the bits of the tables, read the page as the physical address given |
| Hardware.HugeRead | kernel/arch/x86_64/mm/paging/paging.c:175-213 | how the processor reads each address of a huge region, in every directory it shows in: bits 51 to 21 give the address, bits 20 to 13 fault |
| Hardware.HugeExactIff | kernel/arch/x86_64/mm/paging/paging.c:175-213 | the processor translates the address asked for to the physical address given if and only if both are equally far into their regions, less than two pages |
| Hardware.HugeAgreesIff | kernel/arch/x86_64/mm/paging/paging.c:175-319 | the processor and paging_get_phys agree on the whole region if and only if the physical address is 2 MiB-aligned |
| Hardware.SkewedRegion | kernel/arch/x86_64/mm/paging/paging.c:175-213 | mapping the second region to frame 1 reads frame 0, to frame 2 faults, while paging_get_phys reports the frame given |
| Translation.FoldedStep | kernel/arch/x86_64/mm/paging/paging.c:111-264 | one successful call extends the fold by its change, a failed one by nothing, in every directory |
| Translation.CreateFolded | kernel/arch/x86_64/mm/paging/paging.c:331-345 | a new directory starts with the upper half all changes so far have made, and nothing below |
| Translation.FoldElsewhere | kernel/arch/x86_64/mm/paging/paging.c:331-345 | the fold of calls through other directories is nothing in a lower half, and the same in every directory for the upper half |
| Translation.Run | kernel/arch/x86_64/mm/paging/paging.c:111-345 | after any run of maps, huge maps, unmaps and creations every address in every directory translates as the fold of the successful calls; the upper half stays the same in all directories, and the lower half of a directory no call uses keeps every translation |
| Vmm.AccountedCount | kernel/arch/x86_64/mm/vmm/vmm.c:29-91 | the free count falls by the new tables, the mapped frames and the frame in hand |
| Vmm.Spaces.Rollback | kernel/arch/x86_64/mm/vmm/vmm.c:49-59 | unmaps and frees every page mapped so far if the range ends below the top of the address space, and no page otherwise |
| Vmm.Spaces.AllocRange | kernel/arch/x86_64/mm/vmm/vmm.c:29-91 | success maps exactly the range to distinct free frames; failure restores every translation if and only if the failing page lies below 2^64, loses one frame exactly when paging_map failed, takes at most three tables a page, and happens only at a bad page or when frames run out |
| Vmm.MappedShows | kernel/arch/x86_64/mm/vmm/vmm.c:29-91 | mapping pages that were vacant changes translations unless there are none |
| Vmm.PagesCover | kernel/arch/x86_64/mm/vmm/vmm.c:41-41 | the pages cover the size if and only if rounding it up does not overflow; otherwise there are none |
| Vmm.Spaces.WrappedRollback | kernel/arch/x86_64/mm/vmm/vmm.c:66-86 | two pages from the last one of the address space on, with page 0 mapped: the call fails and the last page stays mapped |
| Vmm.Spaces.FreePage | kernel/arch/x86_64/mm/vmm/vmm.c:101-108 | one round: a mapped page goes and its frame is free, an unmapped page frees page 0, an unaligned address changes no translation |
| Vmm.Spaces.FreeRange | kernel/arch/x86_64/mm/vmm/vmm.c:93-112 | from an aligned start unmaps exactly the range and frees exactly its frames, from an unaligned one unmaps nothing; the state stays valid if and only if no page is unmapped when its turn comes |
| Vmm.HolesIff | kernel/arch/x86_64/mm/vmm/vmm.c:93-112 | in ranges of at most 2^48 bytes those are the pages that are not mapped at the call |
| Vmm.Spaces.AllocThenFree | kernel/arch/x86_64/mm/vmm/vmm.c:29-112 | freeing a fresh range restores every translation; only new tables stay taken |
| Teardown.PruneTable | kernel/arch/x86_64/mm/vmm/vmm.c:137-187 | zeroing the entry of a table with nothing below it keeps the forest and every walk |
| Teardown.FreeLevel | kernel/arch/x86_64/mm/vmm/vmm.c:144-184 | clears exactly what lies below a table, one free call per frame, leaving all other tables' entries alone |
| Lifecycle.FreeUserSpace | kernel/arch/x86_64/mm/vmm/vmm.c:137-187 | on a directory that owns what its lower half maps: frees each leaf frame and table of the lower half exactly once, raises the free count by their number, keeps the directory frame, the upper half and other directories |
| Lifecycle.FreeConserves | kernel/arch/x86_64/mm/vmm/vmm.c:93-112 | releasing a range moves its frames from the forest to the free ones, and every other frame stays where it was |
| Lifecycle.Run | kernel/arch/x86_64/mm/vmm/vmm.c:29-187 | over any run of creations, allocations, releases and teardowns each frame is free, in the forest or lost, one for each allocation that failed in paging_map; spaces own what they map, the upper half is coherent and an unused directory untouched |
| Lifecycle.RunThenDestroy | kernel/arch/x86_64/mm/vmm/vmm.c:29-187 | after any run, tearing down all spaces it made frees every frame but the directories, what other directories hold and the lost ones |
| KernelStacks.SlotPageDistinct | kernel/arch/x86_64/mm/vmm/vmm.c:199-216 | different pages of the stack region have different table indices |
| KernelStacks.BetweenGuards | kernel/arch/x86_64/mm/vmm/vmm.c:199-216 | the page below every stack, and the page above every one but the last, is mapped in no directory |
| KernelStacks.Stacks.AllocStack | kernel/arch/x86_64/mm/vmm/vmm.c:199-216 | takes the first unused slot and maps exactly its sixteen stack pages, vacant before, and not its guard; fails only when all slots are used or frames run out, changing no translation |
| KernelStacks.Stacks.FreeStack | kernel/arch/x86_64/mm/vmm/vmm.c:229-252 | succeeds exactly on addresses whose slot is used and marks it unused; the stacks stay sound if and only if the address is the top, and then exactly that stack is unmapped and its frames free |
| KernelStacks.Stacks.AllocThenFree | kernel/arch/x86_64/mm/vmm/vmm.c:199-252 | a new stack given back leaves every slot and every translation as it was |
| KernelStacks.Stacks.NewSpace | kernel/arch/x86_64/mm/paging/paging.c:331-345 | a new directory shows the stacks and guards like every other |
| KernelStacks.Stacks.AllocUser | kernel/arch/x86_64/mm/vmm/vmm.c:29-91 | allocation in a lower half leaves stacks and guards alone |
| KernelStacks.Stacks.FreeUser | kernel/arch/x86_64/mm/vmm/vmm.c:137-187 | so does tearing an address space down |
| FatLayout.MountOk | kernel/fs/fat32/fat32main.c:154-189 | the mounted geometry keeps every cluster inside the partition and behind both FATs, and leaves less than a cluster over |
| FatLayout.MountPlaces | kernel/fs/fat32/fat32main.c:154-189 | where FAT entries and clusters lie, from the fields of the boot block |
| FatLayout.WithWordAt | kernel/fs/fat32/fat32helpers.c:387-395 | replacing one word of a sector changes that word only |
| FatLayout.ClustersDisjoint | kernel/fs/fat32/fat32helpers.c:24-31 | distinct clusters occupy disjoint sectors |
| FatLayout.NoOverflow | kernel/fs/fat32/fat32helpers.c:10-43 | on a disk of at most 2^32 sectors the 32-bit address calculations do not wrap |
| FatLayout.WithEntryRepresents | kernel/fs/fat32/fat32helpers.c:362-409 | writing one FAT word through the sector arithmetic changes one link, in both copies, and no data |
| FatLayout.EntryBytes | kernel/fs/fat32/fat32helpers.c:127-165 | an entry of the flat FAT is the four bytes at its place in either copy, least significant first |
| FatLayout.ClusterBytes | kernel/fs/fat32/fat32helpers.c:24-31 | each byte of a cluster is the byte of the disk at the place the geometry gives |
| FatLayout.SameCopies | kernel/fs/fat32/fat32helpers.c:397-405 | the two copies of a FAT sector hold the same bytes |
| FatLayout.WithEntryBytes | kernel/fs/fat32/fat32helpers.c:362-409 | writing an entry stores its four bytes, least significant first, in both copies, and changes no other byte of the disk |
| FatLayout.ClusterWrittenRepresents | kernel/fs/fat32/fat32helpers.c:325-347 | writing a cluster's sectors changes that cluster's data, no other cluster's and neither FAT |
| FatChains.ChainNoRepeat | kernel/fs/fat32/fat32helpers.c:127-165 | a chain never visits a cluster twice |
| FatChains.ChainUnique | kernel/fs/fat32/fat32helpers.c:127-165 | the chain from a cluster is determined by the FAT |
| FatChains.ForestClaim | kernel/fs/fat32/fat32helpers.c:266-302 | claiming a free cluster adds a one-cluster chain to a forest of disjoint chains |
| FatChains.ForestAppend | kernel/fs/fat32/fat32helpers.c:618-646 | linking a one-cluster chain behind another keeps the forest |
| FatChains.FileBytesAt | kernel/fs/fat32/fat32read.c:28-59 | byte q of the k-th cluster is byte k * size + q of the file |
| Fat32.CalcIsEntry | kernel/fs/fat32/fat32helpers.c:10-43 | the address calculators name the sector and place of a cluster's entry in both FATs |
| Fat32.Volume.NextCluster | kernel/fs/fat32/fat32helpers.c:127-165 | the low 28 bits of the four bytes of the cluster's entry in the first FAT, least significant first, of the first four bytes of the disk for a number past the last cluster, or 0 when a read or buffer fails |
| Fat32.Volume.SetCluster | kernel/fs/fat32/fat32helpers.c:362-409 | stores the four bytes of the value, least significant first, in both FATs and changes no other byte of the disk, or nothing on a fault |
| Fat32.Volume.ReadCluster | kernel/fs/fat32/fat32helpers.c:179-202 | returns the cluster's data; an error means a reserved cluster or a fault |
| Fat32.Volume.WriteCluster | kernel/fs/fat32/fat32helpers.c:325-347 | replaces one cluster's data and no other sector of the disk; refuses exactly the reserved clusters |
| Fat32.FreeMeans | kernel/fs/fat32/fat32helpers.c:262-272 | the least free cluster is the first whose entry has its low 28 bits zero |
| Fat32.Volume.AllocCluster | kernel/fs/fat32/fat32helpers.c:216-311 | the hinted sector scan returns the least free cluster at or above max(2, hint) as a linear search would, stores the end mark in its four bytes in both FATs and changes no other byte, keeps the forest; 0 only without one or on a fault |
| Fat32.Volume.LinkClusterChain | kernel/fs/fat32/fat32helpers.c:618-646 | the next cluster of the chain, or a fresh one linked behind its last; other chains never change |
| FatFiles.ReadFile | kernel/fs/fat32/fat32read.c:15-62 | returns the first min(size, length) bytes of the file; an error means a reserved cluster or a fault |
| FatFiles.BlocksAreFile | kernel/fs/fat32/fat32write.c:143-189 | the zero-padded blocks, in chain order, are the buffer rounded up to clusters |
| FatFiles.Wrapped | kernel/fs/fat32/fat32write.c:127-131 | the 32-bit rounding is exact or, when it wraps, asks for no cluster |
| FatFiles.WriteFile | kernel/fs/fat32/fat32write.c:125-206 | success stores the buffer in a new chain of the first free clusters, as few as hold it; used clusters keep links and data on every path; 0 only for an empty or too large buffer, a full disk or a fault |
| FatFiles.WriteThenRead | kernel/fs/fat32/fat32write.c:125-206 | reading a written file with its size gives back exactly the buffer, and every other file is unchanged |
| FatFiles.FilesKept | kernel/fs/fat32/fat32write.c:125-206 | when used clusters keep links and data, every file keeps its chain and bytes |
| FatSplice.SplicedBytes | kernel/fs/fat32/fat32write.c:57-107 | cluster-wise patches amount to a splice of the file's bytes |
| FatSplice.WalkTo | kernel/fs/fat32/fat32write.c:34-45 | reaches the cluster of the offset exactly when the chain is long enough and nothing faults |
| FatSplice.WritingPartial | kernel/fs/fat32/fat32write.c:57-107 | stopped at any point, the write amounts to a splice of the bytes it got to |
| FatSplice.WriteAtOffset | kernel/fs/fat32/fat32write.c:16-111 | success is a splice: old chain a prefix of the new one, written bytes equal the buffer, other old bytes unchanged, growth by the first free clusters and no more than needed; a write that fails on the way is the splice of a prefix of the buffer; when it does not start, because the offset is past the chain or something failed before, nothing changes; other files unchanged on every path |
| FatRuns.CopiesEqual | kernel/fs/fat32/fat32helpers.c:397-405 | both FAT copies hold the same words |
| FatRuns.TellsStep | kernel/fs/fat32/fat32write.c:16-206 | one operation adds its bytes to one file of the fold and leaves the others |
| FatRuns.Run | kernel/fs/fat32/fat32helpers.c:216-311 | over any run of allocations, links and writes, with faults anywhere, the FAT stays a forest covering every used cluster and chains only grow; every file holds the fold of the new files and splices of the run, whole ones where the call succeeded; one that is not written to keeps its bytes, one that is not named is unchanged |
| FatNames.Format83 | kernel/fs/fat32/fat32helpers.c:440-507 | the loops compute the padded upper-case name and extension |
| FatNames.StoredBytes | kernel/fs/fat32/fat32helpers.c:440-507 | each of the eleven bytes: a to z stored as A to Z, other characters kept, blanks filled up, name before the first dot and extension behind it |
| FatNames.SameNameIff | kernel/fs/fat32/fat32helpers.c:440-507 | two proper 8.3 names are stored alike if and only if they differ in letter case at most |
| FatNames.FirstByte | kernel/fs/fat32/fat32helpers.c:440-507 | a stored name never begins with the end mark, and with the deleted mark only if the name does |
| FatDirs.MadeSlot | kernel/fs/fat32/fat32dir.c:372-381 | the bytes of a written entry: name in 0 to 10, attributes in 11, cluster in 26, 27, 20 and 21 least significant first, zero elsewhere; its fields read back |
| FatDirs.LookupIs | kernel/fs/fat32/fat32helpers.c:556-586 | the first live entry of a name before the end mark is what lookup yields |
| FatDirs.LookupMeans | kernel/fs/fat32/fat32helpers.c:556-586 | lookup finds the first entry that has the name, is in use and is no long-name entry, and misses none but behind an end mark |
| FatDirs.SearchDir | kernel/fs/fat32/fat32helpers.c:524-605 | the walk of the directory's chain is lookup over all its entries; cluster, size and attributes come from bytes 26, 27, 20, 21, from bytes 28 to 31, and from byte 11 of the entry |
| FatDirs.CutSegment | kernel/fs/fat32/fat32main.c:45-60 | takes the path up to a slash, the end, or twelve characters |
| FatDirs.FindCluster | kernel/fs/fat32/fat32main.c:23-104 | equals resolution of the path over the directories, in success and in failure, with the name found cut to nine characters |
| FatDirs.StepDown | kernel/fs/fat32/fat32main.c:62-100 | a path goes on only through an entry with the directory bit, in the cluster that its bytes give |
| FatDirs.ResolveIsDescend | kernel/fs/fat32/fat32main.c:23-104 | for every path of names resolution is the recursive lookup of their twelve-character pieces |
| FatDirs.WholeIff | kernel/fs/fat32/fat32main.c:45-60 | the pieces are the names if and only if no name is longer than twelve characters |
| FatDirs.WholePathIff | kernel/fs/fat32/fat32main.c:23-104 | a path resolves as the recursive lookup of its names on every disk if and only if no name is longer than twelve characters |
| FatDirs.LongNameIsCut | kernel/fs/fat32/fat32main.c:45-60 | a single name of any length is looked up as its pieces, more than one if it is longer than twelve characters |
| FatDirs.WalkDirPath | kernel/fs/fat32/fat32helpers.c:82-114 | the stored form of the first name of a path and the path behind it; an error exactly when there is none |
| FatDirs.HasDirectory | kernel/fs/fat32/fat32dir.c:341-353 | tells whether an entry in use has the name and the directory bit |
| FatDirs.FindVacant | kernel/fs/fat32/fat32dir.c:354-357 | finds the first entry that begins with the end mark or the deleted mark |
| FatDirs.InsertFound | kernel/fs/fat32/fat32dir.c:354-399 | in a tidy directory a new name in the first vacant slot is found if and only if the entry is visible; other lookups and tidiness are kept |
| FatDirs.CreateDirent | kernel/fs/fat32/fat32dir.c:317-411 | adds the entry to the first vacant slot of the first cluster with a fresh cleared cluster, or finds the directory there already; every other outcome keeps all used clusters, and says why |
| FatDirs.CreatedEntries | kernel/fs/fat32/fat32dir.c:354-399 | the directory gained one entry, other directories are unchanged, the new cluster is an empty directory |
| FatDirs.CreateThenSearch | kernel/fs/fat32/fat32dir.c:317-411 | a created new name is found with its cluster, size 0 and attributes if and only if visible; every other lookup is as before |
| FatDirs.CreatedTree | kernel/fs/fat32/fat32dir.c:317-411 | the directory tree stays closed under subdirectory entries |
| LedgerProtocol.Ledger.constructor | kernel/arch/x86/protocols/ledger_core.c:527-547 | empty tables and unset indices satisfy the invariant |
| LedgerProtocol.Ledger.Wake | kernel/arch/x86/tcb/sched.c:317-329 | an existing task is ready afterwards, and no other task changes |
| LedgerProtocol.Ledger.QueueReq | kernel/arch/x86/protocols/ledger_core.c:125-145 | accepts exactly when the clerk exists and has an empty slot; uses the first one, wakes the clerk and makes the file system and window clerks urgent, else wakes the caller |
| LedgerProtocol.Ledger.CountAll | kernel/arch/x86/protocols/ledger_core.c:280-302 | the count reaches the size of the table exactly when there is no empty slot |
| LedgerProtocol.Ledger.AddFsReq | kernel/arch/x86/protocols/ledger_core.c:376-428 | accepted if and only if the descriptor is good, both allocations succeed and there is room; a refusal wakes the caller and changes nothing else |
| LedgerProtocol.Ledger.AddGuiReq | kernel/arch/x86/protocols/ledger_core.c:440-506 | accepted if and only if the three allocations succeed and there is room; a refusal wakes the caller |
| LedgerProtocol.Ledger.AddDocReq | kernel/arch/x86/protocols/ledger_core.c:508-525 | accepted if and only if the allocation succeeds and there is room; a refusal wakes the caller |
| LedgerProtocol.Ledger.QueueFreeReq | kernel/arch/x86/protocols/ledger_core.c:338-358 | accepted if and only if the target is a task number, the allocation succeeds and there is room; only a full table wakes the caller |
| LedgerProtocol.AcceptedMeans | kernel/arch/x86/protocols/ledger_core.c:338-525 | when a submission is accepted, clerk by clerk: descriptor or task number in range, the allocations made, and an empty slot |
| LedgerProtocol.Ledger.FetchNext | kernel/arch/x86/protocols/ledger_core.c:224-253 | finds an open request exactly when there is one, one in progress before the first pending one, and records its index |
| LedgerProtocol.Ledger.CheckRequest | kernel/arch/x86/protocols/ledger_core.c:109-123 | terminates the request at the recorded index, if any, and wakes its caller; nothing else |
| LedgerProtocol.Ledger.Collect | kernel/arch/x86/protocols/ledger_core.c:163-211 | hands over the caller's first finished request and leaves it terminated: the key of CREATE and OPEN, the buffer of READ and LIST, success for others, an error if it failed; an error without one |
| LedgerProtocol.Ledger.RemoveRequests | kernel/arch/x86/protocols/ledger_core.c:67-98 | empties exactly the terminated slots and counts them |
| LedgerProtocol.CountMeans | kernel/arch/x86/protocols/ledger_core.c:67-98 | the count is the number of terminated slots |
| LedgerProtocol.HarmlessIff | kernel/arch/x86/protocols/ledger_core.c:109-123 | recovery after a crash at rest keeps every invariant with callers and answers as they were if and only if the index is unset or names an empty slot or a terminated request whose caller is not blocked |
| LedgerProtocol.TolerableIff | kernel/arch/x86/protocols/ledger_core.c:109-123 | some errors handed to callers, with no answer changed, restore every invariant if and only if the request at the index is neither complete nor a terminated one whose caller waits for another |
| LedgerProtocol.StaleCrash | kernel/arch/x86/protocols/ledger_core.c:109-123 | a run after which a crash between requests terminates a request that was never handled |
| LedgerProtocol.LostReply | kernel/arch/x86/protocols/ledger_core.c:109-211 | a run after which a crash between requests takes back a reply, and its caller collects an error |
| LedgerProtocol.WrongWake | kernel/arch/x86/protocols/ledger_core.c:109-211 | a run after which a crash of one clerk wakes a caller that waits for another, and it collects an error while its request is open |
| LedgerProtocol.OpenIsWaiting | kernel/arch/x86/protocols/ledger_core.c:125-253 | an open request's caller is waiting for exactly that request |
| LedgerProtocol.Ledger.Submit | kernel/arch/x86/tcb/syscall.c:109-221 | a caller waits for its own request if and only if it is accepted; refused, it is stuck exactly when it blocks after submitting or the refusal does not wake it, goes on at once when it checks first, and else collects an error |
| LedgerProtocol.WriteToZero | kernel/arch/x86/tcb/syscall.c:136-153 | writing to descriptor 0 leaves the writer blocked without a request although the table is empty |
| LedgerProtocol.Ledger.Serve | kernel/arch/x86/kernel_clerks/fs_clerk/fs_clerk_main.c:25-43 | a clerk starts serving exactly when an open request exists |
| LedgerProtocol.Ledger.Finish | kernel/arch/x86/kernel_clerks/gui_clerk/gui_clerk.c:254-281 | answers the served request once, with what is owed for its operation and the key and buffer given, wakes its blocked caller and ends the clerk's urgency; nothing else changes |
| LedgerProtocol.OwedReply | kernel/arch/x86/protocols/ledger_core.c:178-205 | a finished CREATE or OPEN is answered with its key, READ or LIST with its buffer, others with success, a failed one with an error |
| LedgerProtocol.Ledger.Crash | kernel/arch/x86/protocols/ledger_core.c:109-123 | a crash while serving terminates exactly the served request and wakes exactly its caller |
| LedgerProtocol.Ledger.CrashAtRest | kernel/arch/x86/protocols/ledger_core.c:109-123 | a tolerable crash between requests keeps the invariant: the caller of a live request at the index, or a stuck caller whose earlier request is there, gets an error, and nothing else changes |
| LedgerProtocol.Ledger.Resume | kernel/arch/x86/protocols/ledger_core.c:163-211 | a resumed caller collects the one reply given to its own request |
| LedgerProtocol.Ledger.Step | kernel/arch/x86/protocols/ledger_core.c:67-253 | every step keeps the invariant and the book of what was asked and how it ended; a slot is refilled only after its request was terminated and reaped, and a crash at rest does what recovery does; answers never change; a stuck caller stays stuck unless such a crash wakes it |
| LedgerProtocol.Ledger.Run | kernel/arch/x86/protocols/ledger_core.c:67-253 | over any run, with crashes while serving and tolerable ones at rest, each submission is answered at most once and collected at most once: with the key or buffer its handler gave for its operation, with success, or with an error if it failed, was refused or its clerk crashed; without crashes a stuck caller stays stuck |
| Scheduler.FourPicks | kernel/arch/x86/tcb/sched.c:115-145 | with a normal task runnable at four consecutive picks, one of them is normal |
| Scheduler.LowOnlyWhenAlone | kernel/arch/x86/tcb/sched.c:139-142 | a low pick means that nothing high or normal was runnable |
| Scheduler.Closer | kernel/arch/x86/tcb/sched.c:102-113 | a pick that passes over a waiting task of the topmost class, normal or low, strictly shortens the cyclic distance to it |
| Scheduler.PickedWithin | kernel/arch/x86/tcb/sched.c:102-145 | a task that stays runnable in the topmost class, normal or low, is picked within its distance, at most one round |
| Scheduler.HighMoves | kernel/arch/x86/tcb/sched.c:118-122 | below the limit a high pick never repeats the current task while another high task is runnable, and comes strictly closer to every one it passes over |
| Scheduler.HighAtLimit | kernel/arch/x86/tcb/sched.c:129-132 | at the limit without normal tasks the current task is picked again if and only if it is high and runnable; else the pick comes closer |
| Scheduler.HighWithin | kernel/arch/x86/tcb/sched.c:102-132 | without normal tasks a high task that stays runnable is picked within its distance, plus one pick for every two places on the way |
| Scheduler.HighExact | kernel/arch/x86/tcb/sched.c:102-132 | with every task high and runnable it takes exactly that many picks |
| Scheduler.HighSoon | kernel/arch/x86/tcb/sched.c:102-137 | with normal tasks that come and go, and at most three tasks high, each high task that stays runnable is picked within three picks after a normal one and seven at most |
| Scheduler.HighStarves | kernel/arch/x86/tcb/sched.c:102-137 | with four high tasks and a normal one, a run of any length in which the fourth is runnable throughout and never picked |
| Scheduler.HighStreak | kernel/arch/x86/tcb/sched.c:115-137 | the count stays within the limit, and that many picks just before were high, as far back as the run goes |
| Scheduler.OthersStarve | kernel/arch/x86/tcb/sched.c:115-127 | while any high tasks are runnable, a pick is high, or the normal task nearest behind the task picked just before, after three high picks |
| Scheduler.NeverPicked | kernel/arch/x86/tcb/sched.c:115-127 | a normal task that is never nearest behind a high task is never picked while high tasks are runnable |
| Scheduler.Round | kernel/arch/x86/tcb/sched.c:115-137 | while high and normal tasks are runnable, exactly every fourth pick is normal |
| Scheduler.ChosenIff | kernel/arch/x86/tcb/sched.c:115-127 | with any number of high tasks, a pick takes a given other task if and only if it is a fourth pick and the task is the normal one nearest behind the task picked just before |
| Scheduler.StarveStep | kernel/arch/x86/tcb/sched.c:115-127 | with one high task, after a pick of it or at count zero, the next pick is it or the normal task behind it |
| Scheduler.PickedIff | kernel/arch/x86/tcb/sched.c:115-127 | with one high task, and normal tasks that come and go, another task is ever picked if and only if it is the normal one nearest behind the high task at one of the fourth picks |
| Scheduler.Starves | kernel/arch/x86/tcb/sched.c:115-218 | with the window clerk at high priority and a normal task behind it, another ready task is unstarted after any number of switches |
| Scheduler.Sched.SearchByPriority | kernel/arch/x86/tcb/sched.c:102-113 | finds a runnable task of the class exactly when there is one: the nearest after the current one, or the current one when started from it |
| Scheduler.Sched.FindNext | kernel/arch/x86/tcb/sched.c:115-145 | high unless the limit is reached and a normal task waits, low last; the second normal search never finds anything |
| Scheduler.Sched.CheckClerks | kernel/arch/x86/tcb/sched.c:45-100 | exactly the sleeping clerks with work become ready, the doctor clerk when its counter runs out, and the idle clerk exactly when nothing else is ready; some task is ready afterwards and ordinary tasks are untouched |
| Scheduler.Sched.Switch | kernel/arch/x86/tcb/sched.c:174-218 | always finds a task, picked from the table as the clerk check leaves it; it alone is running and current afterwards |
| Scheduler.Sched.SetState | kernel/arch/x86/tcb/sched.c:277-315 | changes the current task only; a dead one neither blocks nor becomes ready this way |
| Scheduler.Sched.Blankie | kernel/arch/x86/protocols/blankie.c:47-75 | the reset leaves the clerk asleep and unstarted, so nothing but the current task can be running |
| Scheduler.Sched.Rank | kernel/arch/x86/protocols/ledger_core.c:34-40 | a change of priority changes that task only and keeps the invariant |
| Scheduler.Sched.Kill | kernel/arch/x86/tcb/syscall.c:430-451 | a task other than a clerk and the caller is dead afterwards, nothing else changes, and the invariant holds |
| Scheduler.Sched.Run | kernel/arch/x86/tcb/sched.c:45-329 | over any events, among them priority changes and kills, at most one task runs and it is current, and the switches form a run to which the waiting bounds apply |
| Spinlock.NextInv | kernel/libraries/locks/spinlock.c:10-71 | every single step of any processor keeps the lock, owner and flag invariants |
| Spinlock.MutualExclusion | kernel/libraries/locks/spinlock.c:27-60 | in every reachable state a lock has at most one holder, its word is set exactly while it has one, its owner field names it except between the exchange and the write and between the clearing of field and word, and the holder's interrupts are off |
| Spinlock.TakesFreeLock | kernel/libraries/locks/spinlock.c:27-67 | from every reachable state a processor that asks for a free lock holds it after three steps of its own: word set, its number as owner, flag saved, interrupts off, nothing else changed |
| Spinlock.GivesBack | kernel/libraries/locks/spinlock.c:52-71 | giving back the innermost lock takes three steps: word and owner cleared, the saved flag back, nothing else changed |
| Spinlock.WaiterTakes | kernel/libraries/locks/spinlock.c:27-50 | a waiting processor whose lock is released takes it with its next two steps when nobody else moves, and owns it with the third |
| Spinlock.HaltsOnlySpinning | kernel/libraries/locks/spinlock.c:27-60 | under nested use the double-unlock halt is never reached; a processor halts if and only if it has spun to the limit on a lock that is still taken |
| Spinlock.FlagRestored | kernel/libraries/locks/spinlock.c:10-71 | over any run the flag is off while a lock is held and is the original one exactly when none is |

## Left out

- The 32-bit physical memory manager, paging and virtual memory manager, and the boot-loader reclaim pass.
- Effective write and no-execute permissions along a walk, and TLB flushes.
- The part of `paging_init` after its first loop (the direct map and the kernel image), and `paging_switch`.
- KernelHeap.Heap.Release: like Kfree, does not cover a header that was merged away, whose block lies inside a free one.
- KernelHeap.Heap.Kfree: does not cover a pointer into a header that was merged away, which the double-free test cannot see.
- KernelHeap.Heap.Grow: the VMM's answer to a growth request is any answer; the heap is not tied to the page-table model.
- KernelHeap.Heap.Kmalloc: the payload is not modelled, and the heap lock is not taken in the model; the interrupt-saving lock is the subject of the spinlock part.
- `kmalloc_init` on a heap that is empty or at address 0, which it refuses.
- Counters have unbounded width (`free_pages`, `used_pages` and the pick counters are 32-bit in the source).
- Pmm.Manager.Init: usable regions do not overlap, and those large enough for the bitmap are page-aligned, both of which the Limine boot protocol promises. With an unaligned host the free counter would be off.
- Pmm.Manager.FreeUsable: usable regions do not overlap.
- Pmm.Manager.ReserveBitmap: the host region is page-aligned.
- Hardware.HugeRead: what the processor reads outside the region, and permissions and memory types, are left out.
- Vmm.Spaces.FreeRange: mapped pages of the range map frames the address space owns; freeing a page that maps a device or a 2 MiB leaf is left out.
- Vmm.Spaces.FreePage: like FreeRange, takes a page that maps a frame the address space owns, or none.
- Lifecycle.Run: a release is taken when its range lies in the lower half and all its pages are mapped; `Vmm.Spaces.FreeRange` says what the others do.
- Lifecycle.FreeUserSpace: is for spaces whose lower half maps 4 KiB pages of their own; frames shared with another space, and 2 MiB leaves, which the source follows like tables, are left out.
- KernelStacks.Stacks.FreeUser: like FreeUserSpace, is for spaces that own what their lower half maps.
- Vmm.Spaces.WrappedRollback: is stated with more than four free frames, so that the first page does not fail.
- KernelStacks.Stacks.FreeStack: a wrong address in the last slot is left out, since the range then reaches past the region.
- KernelStacks.BetweenGuards: nothing is known about the page above the last slot.
- Sector numbers are unbounded; `FatLayout.NoOverflow` says when 32 bits suffice.
- Fat32.Volume.ReadCluster: does not cover cluster numbers past the maximum, whose sectors may lie past the disk.
- Fat32.Volume.WriteCluster: does not cover cluster numbers past the maximum, whose sectors may lie past the disk.
- FatNames.Format83: names of 256 characters and more, for which the byte counters wrap, are left out; paths are cut after twelve.
- Fat32.Volume.SetCluster: does not cover cluster numbers past the maximum, for which the address calculators fall back to sector 0; chains never hold such numbers.
- Fat32.Volume.AllocCluster: disk writes always succeed; only sector reads and buffer allocations fail. With failing writes `fat32_write_file` frees a cluster that the one before it already links to.
- FatSplice.WriteAtOffset: bytes of fresh clusters outside the written range are whatever the disk held, as in the source.
- FatDirs.FindCluster: directory clusters other than 0 and 1 must belong to the tree.
- `fat32_delete_dirent`, `fat32_mkdirp`, `fat32_update_dirent_size`, `fat32_list_dir` and `fat32_find_parent_cluster`: delete writes an end mark in mid-directory and mkdirp drops a segment when a cluster is full, so neither keeps the tidy directory.
- LedgerProtocol.Ledger.Submit: callers are tasks other than clerks. A clerk that submits to another clerk can also be woken by a request to itself.
- Requests whose caller is their own target (a task that exits), killing tasks with open requests, keyboard wake-ups, and the request parameters other than kind, key and buffer.
- Scheduler.PickedIff: is stated for one high task; for several, `Scheduler.ChosenIff` decides each pick from the one before it.
- LedgerProtocol.Ledger.Run: a crash at rest that is not tolerable is not taken; `LedgerProtocol.TolerableIff` says which ones those are.
- LedgerProtocol.Ledger.Wake: like the source it also readies dead tasks; nothing is claimed about dead tasks staying dead.
- Scheduler.Sched.Switch: interrupt frames, stacks and address-space switches are not modelled; `scheduler_set_current_task` is left out.
- Scheduler.Sched.Blankie: the clerk's registration is taken for granted.
- Spinlock.NextInv: memory is sequentially consistent, and only the interrupt-saving pair in nested order is modelled.
- Device drivers, ELF loading, ACPI, the window manager, user space and string helpers.
