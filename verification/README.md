# OS1K kernels: a verified model

OS1K is a small operating system for 32-bit RISC-V with two kernels: one in C, which
loads a user program, runs it under Sv32 paging and serves system calls, and one in
Rust, which adds a buddy allocator, page tables built on it, and its own `Once`,
`OnceCell` and spinlock `Mutex`.  This project models the parts of both kernels where
correctness is not visible from any single function, and proves what holds over every
input and every run.

The model follows the code, file by file:

| files | model |
|---|---|
| `Bits`, `Orders` | machine words, shifts and masks bit by bit; `find_order`, `next_power_of_two` |
| `BuddyTree`, `Blocks`, `BuddySearch`, `BuddyMerge`, `BuddySpec`, `Buddy`, `BuddyInit`, `BuddyRuns`, `BuddyClients` | the buddy allocator: the tree, byte blocks, the two in-place algorithms, construction, whole runs, sequences of calls |
| `Sv32`, `PageBytes` | the hardware page walk over physical memory, and what tables in memory mean |
| `RustVm`, `RustSched` | `PageTable` and its software shadow on the buddy allocator; `new`, `give_up` and `switch_context` |
| `Sync`, `SyncCalls`, `ConcurrentAlloc` | `Once`, `OnceCell`, `Mutex` as an interleaved protocol, and what a call achieves in it; the allocator behind its lock |
| `CProcess` | `alloc_pages`, `map_page`, `create_process` in C |
| `CSched`, `StackWords`, `CTrap`, `CRuns` | `yield`, traps, system calls, exit and context switches in C as a step relation, and its whole runs |
| `CIsolation`, `CBoot` | what user mode can reach and keeps; `kernel_main` from process creation to the first user instruction |
| `Numerals` | the `%d` and `%x` loops of `printf` |
| `Results` | optional values and panics |

How to read it:

- A panic is an explicit outcome (`Panic`, `Halted`), and contracts say exactly when it
  happens.
- The buddy allocator's metadata array is always `Canonical` of the set of live blocks.
  That one invariant, kept by both algorithms, gives refinement to a plain set,
  exact out-of-memory, first fit, full merging and independence of history.
- `Sv32.Translate` is the address translation process of section 4.3.2 of the RISC-V
  Privileged Architecture, version 1.12.  Accessed and dirty bits are taken to be set by
  hardware, since both kernels leave them clear.
- In the trap machine the C code between `kernel_entry` and `switch_context` may change
  any register.  The values it needs after a switch are kept in s0 and s1, as the
  calling convention allows.
- User code may store through `Sv32.Translate` wherever the walk gives it a writable user
  page; that it stays inside its own frames is proved, not assumed.
- Arithmetic overflow in Rust panics, as in the default build profile.
- All locks and atomics are sequentially consistent.

Where the code does not meet a property one would expect, the code is kept and the exact
condition is proved: freeing the block that is the whole memory always panics, and done
through the global lock it leaves the lock taken for good; a handle passed to
`buddy_free` names the block it says exactly when that block is well placed, and one above
the end of RAM is merged at the wrong level, with its outcome stated exactly; `%d` prints
the least int as `-0` (negation is taken to wrap); `alloc_pages` hands out pages outside
free RAM exactly when its addition wraps; the scan in `yield` leaves the process table
exactly when the idle process is current, and then never looks at the last slot; in the
Rust scheduler a runnable process gets one of two turns in a row exactly when fewer than
two runnable slots lie below it, so from boot on no process above slot 2 ever runs.

`dafny verify dfyconfig.toml` checks the whole project.

## Model

| member | source | states |
|---|---|---|
| `Orders.NextPowerOfTwo` | rust/src/mem.rs:137-159 | the least power of two that is at least n; none exactly when n exceeds 2^31 |
| `Orders.SmearStep` | rust/src/mem.rs:146-151 | each shift-and-or doubles the run of ones below the highest set bit |
| `Orders.FindOrderOfPower` | rust/src/mem.rs:127-133 | on powers of two from 2 on `find_order` is the exact logarithm |
| `Orders.Ilog2Unique` | rust/src/mem.rs:127-133 | the logarithm is pinned down by its two bounds |
| `Buddy.Memory.constructor` | rust/src/mem.rs:187-251 | a fresh allocator has no live block and all nodes free, in metadata of the size `Memory::new` computes |
| `BuddyInit.InitialAlloc.PageAlloc` | rust/src/mem.rs:98-110 | the pages above everything handed out, or a panic exactly when they do not fit |
| `BuddyInit.PlaceMetadata` | rust/src/mem.rs:211-239 | metadata and search stack lie in the reserved memory without overlap; the zeroing stays inside |
| `BuddyInit.ReservedIs` | rust/src/mem.rs:211-236 | the bytes reserved are the fewest pages for a byte per node and the fewest for a word per node |
| `BuddyInit.NewMemory` | rust/src/mem.rs:187-251 | panics exactly when an argument is missing or the reserved memory is too small; else a fresh allocator |
| `BuddyInit.ShippedMemory` | rust/kernel.ld:32-41 | with 64 MB of RAM and 512 KB reserved it does not panic |
| `Buddy.Memory.BuddyAlloc` | rust/src/mem.rs:260-315 | exact out-of-memory, lowest-address first fit among all aligned blocks of the rounded size, one block added to the live set, metadata canonical afterwards and untouched on every error |
| `Buddy.Memory.RequestLevel` | rust/src/mem.rs:269-272 | the rounded size is the least power of two of at least a page, its level is in the tree, `expect` and the subtraction cannot fail |
| `Buddy.Memory.Serve` | rust/src/mem.rs:272-314 | the search result as the first available block, or proof that none is available |
| `Buddy.Memory.Search` | rust/src/mem.rs:274-312 | the search terminates, stays inside the metadata and the reserved stack, and takes the first fitting node or changes nothing |
| `Buddy.Memory.PushChildren` | rust/src/mem.rs:295-309 | a free node becomes split and both children are stacked, right one first |
| `Buddy.Memory.AddressOf` | rust/src/mem.rs:286-292 | the address arithmetic yields the block of the node |
| `Buddy.Memory.BuddyFree` | rust/src/mem.rs:317-363 | what becomes of every handle: one without size changes nothing; below the end of RAM the block named leaves the live set exactly when it is live and not the whole memory, else panic; above it, exactly when it panics and exactly when the metadata stays that of the live set |
| `Buddy.Memory.IndexOf` | rust/src/mem.rs:325-330 | the index rebuilt from address and size, the level it is taken to be at, and exactly when the arithmetic fails |
| `Buddy.Memory.FreeNode` | rust/src/mem.rs:332-362 | releasing a live node at its own level removes exactly its block and only the root panics; at a smaller level the exact outcome |
| `Buddy.Memory.Release` | rust/src/mem.rs:332-362 | merging upwards ends in the metadata of the smaller live set and neither panic can fire below the root; with too small a level, exactly when it panics and when the array is right |
| `BuddySearch.TopOfStack` | rust/src/mem.rs:226-234 | the search stack never needs more than high order - low order + 1 slots |
| `BuddySearch.StepDown` | rust/src/mem.rs:295-309 | entering a node keeps the search invariant; splits are written only on the way to a free block |
| `BuddySearch.StepSkip` | rust/src/mem.rs:282-311 | passing over a node loses no fit, happens only before any write, and makes progress |
| `BuddySearch.StepFound` | rust/src/mem.rs:282-293 | the node taken fits, no fitting node lies before it, and the array describes the larger live set |
| `BuddySearch.NothingFits` | rust/src/mem.rs:314-314 | an empty stack means no node of the level fits |
| `BuddyTree.PendingNext` | rust/src/mem.rs:277-280 | the next stack entry is the block right after the one just passed |
| `BuddyTree.ApartIffUnrelated` | rust/src/mem.rs:286-292 | byte ranges overlap exactly when one node is above the other |
| `BuddyTree.AllocState` | rust/src/mem.rs:283-297 | marking a fitting node and splitting its ancestors gives the metadata of the larger live set |
| `BuddyTree.MergeUp` | rust/src/mem.rs:344-349 | a pair of free children makes the parent free |
| `BuddyTree.MergeStops` | rust/src/mem.rs:344-344 | a buddy that is not free keeps every ancestor split |
| `BuddyMerge.SiblingByXor` | rust/src/mem.rs:340-341 | the XOR arithmetic names the sibling |
| `BuddyMerge.BuddyOfRoot` | rust/src/mem.rs:340-346 | for the root it names node 1, the root's own child |
| `BuddyMerge.BuddyOf` | rust/src/mem.rs:340-360 | at any positive level the arithmetic names the sibling, at level 0 the neighbouring index |
| `BuddyMerge.StopsBelow` | rust/src/mem.rs:344-344 | merging that stops before the level is used up leaves something live below the node reached |
| `BuddyMerge.StrayEnd` | rust/src/mem.rs:344-362 | when the level is used up and the index looked at is not free, the array is right exactly if the sibling is not free |
| `BuddyMerge.StrayRoot` | rust/src/mem.rs:344-356 | right below the root, freeing it is right exactly if the other half is free |
| `BuddyMerge.MergeStep` | rust/src/mem.rs:344-361 | one round of merging keeps the invariant and finds the parent split |
| `BuddyMerge.MergeEnd` | rust/src/mem.rs:344-362 | when merging stops the array is right everywhere |
| `Blocks.NodeRoundTrip` | rust/src/mem.rs:286-292 | freeing rebuilds exactly the node allocation computed the address from |
| `Blocks.BlockRoundTrip` | rust/src/mem.rs:325-330 | every well-placed block is the block of exactly one node of the tree |
| `Blocks.NamedIsPlaced` | rust/src/mem.rs:325-330 | what a handle names is a well-placed block |
| `Blocks.NamedBelowRam` | rust/src/mem.rs:325-330 | which block a handle below the end of RAM names, and that the level computed is the node's own |
| `Blocks.NamesItselfIff` | rust/src/mem.rs:325-330 | a handle names itself exactly when it is a well-placed block |
| `BuddySpec.InStepIffBelowRam` | rust/src/mem.rs:325-331 | for a power-of-two size the level computed is the node's own exactly below the end of RAM |
| `BuddySpec.HandleBelowRam` | rust/src/mem.rs:317-363 | below the end of RAM `buddy_free` is the release of the block named and keeps the metadata sound |
| `BuddySpec.StrayHandle` | rust/src/mem.rs:325-362 | a handle just above four pages of RAM releases page 0 and leaves the root split with nothing live |
| `Blocks.RoundedIsLeast` | rust/src/mem.rs:269-270 | blocks are at least as large as requested, at least a page, and no larger than needed |
| `BuddyRuns.RunKeepsLiveOk` | rust/src/mem.rs:260-363 | in every run live blocks are pairwise disjoint, inside RAM and aligned to their size |
| `BuddyRuns.LiveIffHeld` | rust/src/mem.rs:260-363 | a block is live exactly when it was granted and not released since, and is at least as large as requested |
| `BuddyRuns.AllocDeterministic` | rust/src/mem.rs:260-315 | the result of a request depends on the live set alone |
| `BuddyRuns.CanonicalDeterminesLive` | rust/src/mem.rs:283-362 | the metadata array and the live set determine each other |
| `BuddyRuns.ReleaseUndoesRequest` | rust/src/mem.rs:295-362 | releasing a block just granted restores the live set, except that the whole memory cannot be released |
| `BuddyRuns.WholeMemoryCannotBeReleased` | rust/src/mem.rs:340-346 | a fresh allocator grants the whole memory, and releasing it panics |
| `BuddyRuns.ReleaseOrderIrrelevant` | rust/src/mem.rs:332-362 | live blocks can be released in any order, with the same live set at the end |
| `BuddyRuns.ReleaseAllRestoresInitial` | rust/src/mem.rs:332-362 | releasing everything restores the all-free array |
| `BuddyRuns.EqualRequestsFillMemory` | rust/src/mem.rs:260-315 | from a fresh allocator equal requests are served back to back from the start, exactly mem_size / size times, then fail |
| `BuddyClients.RequestAndRelease` | rust/src/mem.rs:260-363 | on the array: a granted request followed by its release puts every metadata entry back; it panics exactly for the whole memory |
| `BuddyClients.ReleaseAll` | rust/src/mem.rs:317-363 | on the array: whatever the order of releases, the metadata ends as that of the remaining blocks |
| `BuddyClients.Drive` | rust/src/mem.rs:260-363 | any sequence of calls on a fresh allocator is a run of the specification up to the first call that must panic, and leaves the canonical metadata of its last state |
| `Sv32.WalkFindsMappings` | rust/src/vm.rs:32-54 | the hardware walk finds exactly the recorded leaf entries, at every virtual address |
| `Sv32.SetLeaf` | rust/src/vm.rs:51-53 | writing one leaf entry maps that page and no other |
| `Sv32.AddSecond` | rust/src/vm.rs:42-49 | hanging a fresh zeroed page into the root changes no mapping |
| `Sv32.WriteElsewhere` | rust/src/vm.rs:32-54 | writes to other pages leave a table's mappings alone |
| `Sv32.IndexesAreVpns` | rust/src/vm.rs:40-51 | the shift-and-mask indexes are the two virtual page number fields |
| `Sv32.LeafPteParts` | rust/src/vm.rs:53-53 | the entry word is the page number beside the flags with V set |
| `Sv32.LeafPteMaps` | rust/src/vm.rs:53-53 | a readable entry translates every byte of its page to the frame |
| `RustVm.AddressSpaces.NewVec` | rust/src/stdlib.rs:41-54 | panics exactly when the size exceeds isize::MAX or the allocator has no block; else zeroed memory no table owns |
| `RustVm.AddressSpaces.NewTable` | rust/src/vm.rs:18-26 | a new empty table beside all others, exactly when there is a page for the root and then a block of eight pages for the shadow |
| `RustVm.AddressSpaces.MapPage` | rust/src/vm.rs:32-54 | panics exactly when unaligned or a second level is needed and no free page is left; else exactly one page of one table changes, and one page less is free if a second level was added |
| `RustVm.AddressSpaces.AddSecondLevel` | rust/src/vm.rs:42-49 | the shadow entry and the root entry stay in agreement |
| `RustVm.AddressSpaces.WriteLeaf` | rust/src/vm.rs:51-53 | the write through the shadow is the write the hardware sees |
| `RustVm.AddressSpaces.MapAll` | rust/src/vm.rs:32-54 | no call panics exactly when all are aligned and the free pages suffice for the second levels they need; then every walk gives the last mapping of its page |
| `RustVm.AddressSpaces.IdentityMap` | rust/src/proc.rs:90-97 | succeeds exactly when the free pages suffice for the missing second levels; then the kernel range translates to itself without U, all other pages of all tables as before |
| `RustVm.AddressSpaces.CreateSpace` | rust/src/proc.rs:88-97 | the page tables of `create_process`: success exactly when a page and then a block of eight can be had and one more page per 4 MiB region is free; then the new table maps the kernel range to itself without U and nothing else, all other tables as before |
| `RustVm.FreshBlock` | rust/src/mem.rs:260-315 | a granted block is page aligned, zero, and apart from every live page |
| `RustVm.PageLeftIff` | rust/src/mem.rs:274-314 | a page can be had exactly when the count of free pages is positive |
| `RustVm.PageTaken` | rust/src/mem.rs:283-293 | handing out a page lowers the count by one |
| `RustVm.BlockTaken` | rust/src/mem.rs:283-293 | handing out any block lowers the count by its pages |
| `Sv32.RegionStep` | rust/src/vm.rs:42-49 | one more page needs a new second level exactly when it opens a 4 MiB region |
| `RustSched.PickNext` | rust/src/proc.rs:119-127 | the lowest runnable slot other than the current one, else idle; a user process never picks itself |
| `RustSched.NextUnused` | rust/src/proc.rs:53-60 | the lowest unused slot |
| `RustSched.ServedWithinTwo` | rust/src/proc.rs:119-127 | of two picks in a row one goes to a runnable slot exactly when fewer than two runnable slots lie below it |
| `RustSched.TurnWithinTwo` | rust/src/proc.rs:114-151 | the same over every run, for turns with any other steps and new processes between them |
| `RustSched.StarvedForGood` | rust/src/proc.rs:119-147 | over every run a slot with two runnable slots below it that is not current never is again |
| `RustSched.OnlyTwoEverRun` | rust/src/proc.rs:114-151 | from boot on no process above slot 2 ever runs |
| `RustSched.SlotThreeStarves` | rust/src/proc.rs:119-127 | the table with slots 0 to 3 runnable, on which slot 3 is not picked for any number of turns |
| `RustSched.StepKeepsInv` | rust/src/proc.rs:67-193 | every step keeps the guard, table and stack invariants |
| `RustSched.CreatedIsParked` | rust/src/proc.rs:74-86 | the initial frame holds the entry point in its lowest word, popped as ra, and zero in the other twelve, and is resumable |
| `RustSched.LockFreeAtSwitch` | rust/src/proc.rs:107-151 | in every run no context holds a guard, and the lock is free, when the context switch executes and when ordinary code runs, so taking it never spins |
| `RustSched.ResumedAsSaved` | rust/src/proc.rs:154-193 | in every run a context that gave up is next resumed with the ra, s0-s11 and sp it saved, also when idle switches to itself |
| `RustSched.ResumedAsCreated` | rust/src/proc.rs:67-86 | in every run a new process is first resumed with ra its entry point and s0 to s11 zero, on its own empty stack |
| `RustSched.BootInv` | rust/src/kernel.rs:89-105 | `kernel_main` before the first process meets the invariant, so runs start at boot |
| `RustSched.GiveUpCompletes` | rust/src/proc.rs:114-151 | wherever ordinary code runs, `give_up` can be called and ends with the next process running and the lock free |
| `RustSched.NewCompletes` | rust/src/proc.rs:67-112 | with a slot left and memory to be had `new` ends with the lowest unused slot taken, the caller running on and the lock free |
| `RustSched.NoSlotPanics` | rust/src/proc.rs:67-68 | without a slot it panics |
| `Sync.ClosureRunsOnce` | rust/src/sync.rs:36-63 | in every interleaving at most one closure is executed |
| `Sync.InitialisedForGood` | rust/src/sync.rs:96-108 | after the first return every caller sees the same value, it is not written again, and no closure runs |
| `Sync.NoPanicAfterInit` | rust/src/mem.rs:23-48 | once initialisation completed, callers whose closure would panic do not panic |
| `Sync.PanicBlocksAll` | rust/src/sync.rs:36-63 | when the closure panics no caller ever gets past the cell |
| `Sync.PanicWedgesLock` | rust/src/sync.rs:133-176 | after a panic inside a critical section nobody else ever gets the guard and the value stays as the panic left it |
| `Sync.MutualExclusion` | rust/src/sync.rs:133-147 | in every interleaving at most one guard exists |
| `Sync.Serialised` | rust/src/sync.rs:133-176 | at every moment the protected value is that of the finished critical sections in acquisition order, followed by the writes of the one in progress |
| `Sync.StepKeepsInv` | rust/src/sync.rs:36-176 | every atomic step keeps the protocol invariant |
| `SyncCalls.StepEnabled` | rust/src/sync.rs:36-176 | a thread that has not panicked can always take a step |
| `SyncCalls.OwnStepDecreases` | rust/src/sync.rs:36-176 | each of its own steps brings a call nearer to its end, unless it waits for the cell or the lock |
| `SyncCalls.NobodyWaitsInVain` | rust/src/sync.rs:36-147 | in every interleaving a thread that waits for the cell waits for one that is about to complete it or whose closure panicked, and one that waits for the lock waits for a holder |
| `SyncCalls.PanicsOnlyWhere` | rust/src/sync.rs:96-108 | a thread panics only where its closure or one of its writes does |
| `SyncCalls.ReturnedMeansComplete` | rust/src/sync.rs:36-63 | in every interleaving the cell is complete once a call has returned |
| `SyncCalls.ClosureCompletes` | rust/src/sync.rs:53-57 | the thread whose closure returned completes the cell with its next step |
| `SyncCalls.SpinningEnds` | rust/src/sync.rs:58-62 | a thread that spins on a complete cell goes on with its next step |
| `SyncCalls.InitialIsClosure` | rust/src/sync.rs:96-107 | the value first written is what the closure of the running call returned |
| `SyncCalls.LogIsOfCalls` | rust/src/sync.rs:133-147 | in every interleaving the log is the critical sections the calls asked for, in the order of acquisition |
| `SyncCalls.OneAcquisitionPerCall` | rust/src/sync.rs:133-147 | a call takes the lock exactly once if it has a critical section, never if it has none |
| `SyncCalls.ReturnAppliesBody` | rust/src/sync.rs:133-176 | when a call returns the value is its own critical section, as a whole, applied to the value at the moment it took the lock, and the lock is free |
| `ConcurrentAlloc.CallKeepsShared` | rust/src/mem.rs:34-48 | one locked allocator call keeps holdings disjoint |
| `ConcurrentAlloc.LockedRequest` | rust/src/mem.rs:34-40 | a request on the class is such a call, canonical metadata included |
| `ConcurrentAlloc.LockedRelease` | rust/src/mem.rs:42-48 | so is a release of a held block, which panics exactly for the whole memory |
| `ConcurrentAlloc.ConcurrentCallersDisjoint` | rust/src/mem.rs:34-48 | in every interleaving and at every moment, also while a caller is inside, the finished calls left canonical metadata and blocks held by different threads do not overlap |
| `ConcurrentAlloc.RequestHasOutcome` | rust/src/mem.rs:260-315 | on every sound live set a request has an outcome, sound again |
| `ConcurrentAlloc.RequestEffect` | rust/src/mem.rs:34-40 | a request as two separate writes is one allocator call, although between them metadata and live set disagree |
| `ConcurrentAlloc.RequestIsCall` | rust/src/mem.rs:34-40 | so it may be the critical section of a job |
| `ConcurrentAlloc.ReleaseEffect` | rust/src/mem.rs:42-48 | a release as two separate writes ends exactly when the block is not the whole memory, and then is one allocator call |
| `ConcurrentAlloc.ReleaseIsCall` | rust/src/mem.rs:42-48 | so it may be the critical section of a job |
| `ConcurrentAlloc.WholeReleaseWedges` | rust/src/mem.rs:42-48 | in every interleaving the release of the whole memory leaves the lock taken for good, and no later call gets into the allocator |
| `ConcurrentAlloc.RequestServed` | rust/src/mem.rs:34-40 | in every interleaving a request that returns was served on the allocator as it was when it took the lock: a block granted is live and held by the caller, nobody else's holdings change |
| `ConcurrentAlloc.ReleaseServed` | rust/src/mem.rs:42-48 | a release that returns has released the block the caller held |
| `CProcess.BumpSoundIffNoWrap` | c/kernel.c:209-220 | a granted range lies in free RAM exactly when the addition did not wrap |
| `CProcess.BumpWraps` | c/kernel.c:212-216 | a request that wraps and is let through |
| `CProcess.ZeroWrappedWords` | c/kernel.c:218-218 | which words the `memset` of a wrapping request clears |
| `CProcess.CKernel.constructor` | c/kernel.c:209-210 | at boot no process exists and all free RAM is unused |
| `CProcess.CKernel.AllocPages` | c/kernel.c:209-220 | the new next address and the outcome for every request, wrapping ones included; without wrapping it succeeds exactly below the end of free RAM, with zeroed pages above everything handed out |
| `CProcess.CKernel.MapPage` | c/kernel.c:222-239 | panics exactly when unaligned or out of pages; else the walk has the new entry, at most one page is taken and nothing outside the table changes |
| `CProcess.CKernel.AddTable` | c/kernel.c:230-234 | the second-level page is fresh and changes no mapping |
| `CProcess.CKernel.WriteEntry` | c/kernel.c:236-238 | the entry reached through the root entry's page number is the one the walk reads |
| `CProcess.CKernel.MapKernel` | c/kernel.c:285-288 | succeeds exactly when free RAM has a page for each 4 MiB region of the kernel range; then every kernel page is mapped to itself |
| `CProcess.CKernel.LoadImage` | c/kernel.c:290-302 | succeeds exactly when free RAM has the pages for the image and its second levels; then the whole image is loaded and mapped page by page |
| `CProcess.CKernel.LoadPage` | c/kernel.c:290-302 | one round maps the next user page to a fresh page with its part of the image, taking one page or two |
| `CProcess.CKernel.FillPage` | c/kernel.c:291-299 | the fresh page holds its part of the image, zero padded |
| `CProcess.CKernel.FirstUnused` | c/kernel.c:252-259 | the first unused slot |
| `CProcess.CKernel.BuildSpace` | c/kernel.c:284-302 | a complete address space in a region of its own, exactly when free RAM has the pages needed, with every page of the region a table page or a frame |
| `CProcess.CKernel.CreateProcess` | c/kernel.c:251-310 | succeeds exactly when a slot is unused and free RAM has the pages needed, none of them wasted; then the first unused slot is a runnable process with a prepared stack and a complete address space, and all earlier ones keep theirs |
| `CProcess.InitStackEffect` | c/kernel.c:279-282 | the stack is zero but for the word popped as ra, and nothing else changes |
| `CProcess.SpaceMeaning` | c/kernel.c:284-302 | kernel addresses translate to themselves without U, user addresses to the image bytes zero padded with U, everything else faults |
| `CProcess.WalkOfSpace` | c/kernel.c:284-302 | whatever was stored in the frames: kernel addresses translate to themselves without U, user addresses to the process's frames, everything else faults |
| `CProcess.NoSharedPages` | c/kernel.c:285-302 | no table page or user page belongs to two processes |
| `CProcess.SpaceUnchanged` | c/kernel.c:251-310 | what happens outside a process's region does not change its address space |
| `CSched.SelectNext` | c/kernel.c:317-326 | from a user process the first eligible slot after it, itself last, else idle; from idle what lies before the table if it looks eligible, else the lowest eligible slot below the last, else idle |
| `CSched.ScanInBoundsIff` | c/kernel.c:320-322 | the scan stays in the table exactly when the current process is not idle |
| `CSched.ScanFromIdle` | c/kernel.c:320-322 | from idle the scan looks at -1 to 6 |
| `CSched.IdleFindsIff` | c/kernel.c:317-326 | from idle a user slot is found exactly when one below the last is eligible and the bytes before the table are not |
| `CSched.ChosenUnique` | c/kernel.c:317-326 | the scan's choice is unique |
| `CSched.NearerEachYield` | c/kernel.c:317-343 | each switch brings a waiting process strictly nearer |
| `CSched.BoundedWaiting` | c/kernel.c:317-343 | a process that stays runnable becomes current within PROC_NO_MAX - 2 yields, even as others exit or are created |
| `CSched.BoundIsTight` | c/kernel.c:317-343 | a run in which it takes that many |
| `CSched.OnlyRunnableChosen` | c/kernel.c:322-325 | only runnable processes, or idle, are switched to |
| `StackWords.SaveWordsEffect` | c/kernel.c:172-185 | consecutive stores put the words there and change nothing else |
| `CTrap.EcallKeepsInv` | c/kernel.c:41-90 | trap entry saves the whole user context on the process's own stack |
| `CTrap.ReturnRestores` | c/kernel.c:92-165 | trap exit reloads every saved register, at pc + 4 |
| `CTrap.DispatchKeepsInv` | c/kernel.c:126-150 | every branch of the system call switch keeps the invariant |
| `CTrap.GotCharKeepsInv` | c/kernel.c:131-141 | delivering a character changes only a0 of the caller's frame |
| `CTrap.SwitchKeepsInv` | c/kernel.c:168-207 | a context switch parks the yielder correctly, moves satp and sscratch to the target and resumes it where it was; it halts exactly when nobody is left |
| `CTrap.YielderParked` | c/kernel.c:172-188 | what the switch pushes is what the yielder needs to continue |
| `CTrap.SavedRegsAre` | c/kernel.c:172-185 | what the switch saves is ra and s0 to s11 |
| `CTrap.SatpNamesRoot` | c/kernel.c:331-338 | the value written to satp turns Sv32 on and makes the hardware use the process's root table |
| `CTrap.StoreHitsOwnFrame` | c/kernel.c:285-302 | a user store the walk allows changes one word of a frame of the process that runs |
| `CTrap.StoreKeepsInv` | c/kernel.c:126-343 | user stores disturb no page table and no kernel stack |
| `CTrap.StepKeepsInv` | c/kernel.c:126-343 | every step of the machine, user stores and fatal traps included, keeps the invariant |
| `CRuns.SyscallTransparent` | c/kernel.c:41-207 | over every run a process next runs in user mode at its own ecall pc + 4 with all its registers, a0 excepted for getchar, and sscratch at its own stack top |
| `CRuns.DispatchLeads` | c/kernel.c:126-150 | a3 = 1 returns to user mode at pc + 4, 2 polls, 3 marks the process exited and yields, anything else stops the machine |
| `CRuns.HaltsOnlyFor` | c/kernel.c:126-166 | over every run from user mode the machine stops only for a trap that is no system call, an `ecall` with another a3, or an exit that leaves no runnable process |
| `CRuns.CallsComplete` | c/kernel.c:41-141 | from every user state putchar and getchar can run to their end: back in user mode at pc + 4 with all registers, a0 the character for getchar |
| `CRuns.ExitCompletes` | c/kernel.c:142-146 | from every user state exit can run to its yield, which moves to another process, or stops for want of one |
| `CRuns.YieldPossible` | c/kernel.c:317-343 | a process that polls or has exited can always yield |
| `CRuns.UserMayDo` | c/kernel.c:41-124 | in user mode any computation and any store the walk allows is possible |
| `CRuns.ExitNeverReturns` | c/kernel.c:142-146 | the yield after exit never comes back, so the panic behind it is unreachable |
| `CRuns.ExitIsFinal` | c/kernel.c:142-146 | over every run an exited process is never current again |
| `CRuns.NeverUserAgain` | c/kernel.c:142-146 | over every run an exited process never reaches user mode again |
| `CRuns.RunBoundedWaiting` | c/kernel.c:317-343 | over every run fewer than PROC_NO_MAX - 2 yields happen while a process stays runnable without its turn |
| `CRuns.YieldsCounted` | c/kernel.c:317-343 | the yields counted are the events of a run that yield |
| `CRuns.BootEstablishesInv` | c/kernel.c:363-375 | the first yield goes to the lowest created process, establishes the invariant and starts it at USER_BASE; it panics exactly when none lies below the last slot |
| `CRuns.NewProcessParked` | c/kernel.c:279-282 | a new process is ready for its first switch |
| `CRuns.BootIsPossible` | c/kernel.c:363-373 | from a boot state with a created process the switch exists |
| `CIsolation.ConfinedToOwnFrames` | c/kernel.c:285-338 | over every run satp names the running process's own table and whatever user mode reaches is in its own frames |
| `CIsolation.FramesPrivate` | c/kernel.c:126-343 | over every run a process's frames are changed by nobody but itself |
| `CIsolation.UserMemoryPreserved` | c/kernel.c:41-343 | over every run every virtual address shows a process the same byte, or the same refusal, after a system call as before it |
| `CIsolation.KernelKeepsRam` | c/kernel.c:41-207 | no kernel step writes to free RAM |
| `CBoot.CreateIdleAndShell` | c/kernel.c:367-371 | succeeds exactly when free RAM has the pages for idle and the shell |
| `CBoot.KernelMain` | c/kernel.c:363-373 | from created processes through the first yield to the shell in user mode at USER_BASE, with the invariant established |
| `CBoot.SeesImage` | c/kernel.c:290-302 | when a process starts, user mode sees the bytes of its image, zero padded, and nothing else |
| `Numerals.PrintDecimal` | c/common.c:27-46 | the decimal numeral of every int but the least, which prints as -0 |
| `Numerals.PrintDigits` | c/common.c:35-43 | the two loops, on 32-bit ints, print the numeral; no operation on value or divisor overflows |
| `Numerals.NumeralReadsBack` | c/common.c:27-46 | numerals are canonical and denote their number |
| `Numerals.CanonicalIsNumeral` | c/common.c:39-43 | a canonical digit string is the numeral of its value |
| `Numerals.DecimalReadsBack` | c/common.c:27-46 | the output denotes the argument exactly when it is not the least int |
| `Numerals.PrintHex` | c/common.c:47-53 | eight digits that denote the two's-complement pattern of any int |

## Left out

- Buddy.Memory.constructor: RAM sizes that are not a page times a power of two up to 2^31, which the allocator does not handle.
- Buddy.Memory.BuddyAlloc: the search loop and the address arithmetic are separate methods; the source has one function.
- RustVm.AddressSpaces.NewTable: the memory of the shadow vector is allocated, but its contents are kept as a map rather than as words in RAM; dropping a table and reusing its pages, which the kernel never does, would break the zeroed-page assumption.
- RustSched.StepKeepsInv: `create_process` is one step between taking and dropping the guard; its page-table part is `RustVm.AddressSpaces.CreateSpace`.
- CTrap.StepKeepsInv: processes are created before the first switch, as in `kernel_main`; interrupts and `sstatus` are not modelled; a user store changes one aligned word.
- Sync.StepKeepsInv: weak memory orderings.
- CRuns.BootEstablishesInv: what happens when the bytes before the process table look like an eligible process.
- SBI calls, console output, other CSR access and the Rust trap handler, which only panics.
- TLB fences, instruction encoding and boot code.
- `memcpy`, `memset`, `strcpy`, `strcmp`, the shell, and the `%s` and `%%` conversions: they would only add easy members.
