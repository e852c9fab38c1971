# Verified model of a small i386 kernel

This project models the parts of the kernel that carry its hardest promises, and proves them:

* the **kernel heap** (`kmalloc`, `kcalloc`, `krealloc`, `kfree` over `sbrk`), whose free list lives inside the memory it hands out;
* the **cooperative scheduler** (ready queue, sleep list and dead list threaded through one `next` field, nested lock with a postponed request, timer wake-ups);
* **physical frames** (a bitmap behind a cache of 20 frames, filled from the boot loader's memory map) and **virtual mappings** (two-level tables edited through a directory slot that points at the directory, with a TLB in between);
* **number formatting and the format interpreter** of the C library.

Each component has the same shape. Code that updates state in place is a class (or a method over an array) in that form; its contract ties the new state to a function or relation on values. Lemmas about those functions and relations then state what every run keeps.

| file | content |
|---|---|
| `ByteStore`, `ProgramBreak`, `HeapBlocks`, `Heap`, `HeapRuns`, `HeapClients` | flat byte memory; the break; the heap as a list of blocks; the allocator on bytes; whole runs; arbitrary clients of the heap object |
| `TaskLists`, `SchedulerModel`, `SchedulerInvariants`, `SchedulerRuns`, `TaskStates`, `TaskIds`, `InterruptFlag` | linked lists; the scheduler as a step system; its invariants; whole runs; states of tasks; ids; when interrupts are on |
| `Scheduler`, `SchedulerClients`, `TaskMemory` | the scheduler on its real fields; any calls on it; tasks whose memory comes from the heap |
| `WordBits`, `FrameBitmap`, `FrameAllocator`, `BootMap` | bits of a word; bitmap; batch cache and its runs; the bitmap at boot |
| `PageTables`, `AddressSpace`, `PagingRuns`, `PagingBoot`, `KernelBreak`, `KernelBoot` | hardware walk and recursive window; map and unmap through the TLB; whole runs; initial tables; the break over tables and frames; the break from boot on |
| `NumberFormat`, `Vprintf`, `Formats` | numerals; the interpreter against a rendering of the format; what each conversion prints |

## How the model reads the source

* A 32-bit sum is unbounded where the source cannot wrap under the stated precondition, and wraps explicitly (`Wrap`, `% WORD`) where it can. Where wrapping makes a promise fail, a lemma says exactly when it holds (names ending in `Iff`).
* Heap memory is one array of bytes; headers are read and written as little-endian words in it. `Isolated` and `Carried` are about those bytes.
* Heap calls hold the scheduler lock throughout, so each is one step. The heap is modelled over its own address range: that no page frame is handed out inside it is an assumption (frames between the end of the kernel image and 4 MB stay allocatable while the initial heap uses them).
* How many pages the frame allocator can still provide is the parameter `supply` of `sbrk` in the heap, so running out half-way is covered, and each call of a run carries its own. `KernelBreak` puts the frame allocator and the page tables in its place and says exactly how many pages these can provide: the frames in the cache and whole batches of free ones, less one frame for each table that is missing.
* A task is named by the address of its control block; addresses are used again after they were cleaned up. In `SchedulerModel` a new address is any that is not in service; `TaskMemory` derives that from kmalloc.
* cli and sti act on a flag of the machine. A tick is allowed whenever the lock is free, also when the flag is off, so results over all runs cover more than the processor can do; `InterruptFlag` says when the flag is on.
* In the scheduler a C function is one step, but `micro_sleep_until`, `block_task`, `terminate_task` and `mark_task_for_death` are cut where interrupts are on, and a tick is a step of its own. A suspended task carries the place where it will resume: inside `unlock_scheduler`, in a bare `schedule`, or at its start.
* Words of the frame bitmap are 32-bit vectors with shifts and masks. Directory and table entries are records of the bit fields of `Page`. The four field assignments to one entry are one read-modify-write.
* Time is an unbounded tick count; deadlines are 32-bit values.
* A run in `HeapRuns`, `FrameAllocator`, `PagingRuns` or `SchedulerRuns` chains the relations in the contracts of the methods: a step holds what the method's `ensures` says when its `requires` is met. Invariants over runs are derived from these relations.

Where code and comments disagree the code is followed: `heap_block_split` tests the aligned size but cuts at the raw one; `vmm.h` promises 0 or -1 from unmap and the code also returns 0 for a page that was not mapped; `decrement_brk` steps over whole pages only, so the break moves by less than was asked.

## Model

| member | source | states |
|---|---|---|
| ByteStore.WriteHeader | kernel/arch/i386/memory_manager/internal.c:8-17 | the three header fields read back as written and no byte outside them changes |
| ByteStore.MemMove | libc/string/memmove.c:3-19 | the destination holds what the source held before, whichever way the two overlap, and nothing else changes |
| ByteStore.MemSet | libc/string/memset.c:3-11 | exactly the given range is filled |
| HeapBlocks.AlignExact | kernel/arch/i386/memory_manager/allocators.c:11 | rounding up is right exactly up to 2^32 - 8; above that it gives 0 |
| HeapBlocks.TiledApart | kernel/arch/i386/memory_manager/allocators.c:22-35 | in a tiling every block ends where the next begins and lies apart from all others |
| HeapBlocks.SplitTiled | kernel/arch/i386/memory_manager/allocators.c:152-171 | a split keeps the tiling and changes the set of used blocks only by shrinking the one split |
| HeapBlocks.ReserveTiled | kernel/arch/i386/memory_manager/allocators.c:27-32 | reserving keeps the tiling and adds exactly one used block, large enough |
| HeapBlocks.ReleaseTiled | kernel/arch/i386/memory_manager/allocators.c:116-150 | releasing keeps the tiling and removes exactly the released block from the used ones |
| HeapBlocks.ReserveCanonical | kernel/arch/i386/memory_manager/allocators.c:27-32 | reserving creates no two adjacent free blocks and no unaligned header |
| HeapBlocks.ReleaseCanonical | kernel/arch/i386/memory_manager/allocators.c:125-142 | releasing merges both ways, so no two free blocks are adjacent afterwards |
| HeapBlocks.AllFreeIsOneBlock | kernel/arch/i386/memory_manager/allocators.c:125-149 | a canonical heap with nothing in use is one free block |
| HeapBlocks.ReleaseUndoesReserve | kernel/arch/i386/memory_manager/allocators.c:16-171 | releasing what was just reserved gives back the same list of blocks |
| HeapBlocks.ReserveThrifty | kernel/arch/i386/memory_manager/allocators.c:152-171 | reserving takes less than 24 bytes more than was wanted, and what is cut off stays free |
| HeapBlocks.SplitThrifty | kernel/arch/i386/memory_manager/allocators.c:97-98 | so does shrinking in place |
| HeapBlocks.ReleaseCovers | kernel/arch/i386/memory_manager/allocators.c:116-150 | the block that releasing leaves behind is free and covers the one released |
| HeapBlocks.ShrinkCanonicalIff | kernel/arch/i386/memory_manager/allocators.c:97-98 | shrinking in place keeps the canonical form iff it does not cut, or cuts at an aligned size before a used block |
| HeapBlocks.ShrinkBreaksForm | kernel/arch/i386/memory_manager/allocators.c:163-170 | in every heap that begins with a used block of 64 bytes before a free one, a shrink to 20 leaves an unaligned header and one to 16 leaves two free neighbours |
| ProgramBreak.BreakCell.MapPages | kernel/arch/i386/memory_manager/brk.c:43-61 | the loop maps exactly the pages from one rounded-up break to the other, or as many as could be had |
| ProgramBreak.BreakCell.IncrementBrk | kernel/arch/i386/memory_manager/brk.c:33-67 | new break, mapped pages and result for every increment, failure and wrap-around included |
| ProgramBreak.BreakCell.DecrementBrk | kernel/arch/i386/memory_manager/brk.c:69-94 | the break moves down by whole pages, exactly the pages stepped over are unmapped, and below the heap start nothing happens |
| ProgramBreak.BreakCell.Increment | kernel/arch/i386/memory_manager/brk.c:22-31 | the sign of the increment selects growth or shrinking, and the old break is returned |
| ProgramBreak.GrowCovers | kernel/arch/i386/memory_manager/brk.c:33-67 | growth keeps every heap page mapped; failed growth leaves the break where it was |
| ProgramBreak.GrowSoundIff | kernel/arch/i386/memory_manager/brk.c:36-62 | with pages to spare, also after growths that failed half-way, growth does what it promises iff the new rounded-up break stays below 2^32 |
| ProgramBreak.GrowWraps | kernel/arch/i386/memory_manager/brk.c:36-43 | if it does not, the break moves and nothing is mapped |
| ProgramBreak.ShrinkBounds | kernel/arch/i386/memory_manager/brk.c:71-89 | shrinking is refused iff it would pass the heap start, and then changes nothing; otherwise it stops at most a page short of the requested break |
| ProgramBreak.ShrinkCoversIff | kernel/arch/i386/memory_manager/brk.c:78-89 | the heap stays mapped by a shrink iff the break was page-aligned or no whole page goes |
| ProgramBreak.ShrinkUndoesGrow | kernel/arch/i386/memory_manager/brk.c:33-94 | growing and shrinking by k pages restores the break, and the mapped set iff none of those pages was left mapped before |
| ProgramBreak.RunCovers | kernel/arch/i386/memory_manager/brk.c:22-94 | after every run of calls, half-failed growths included, all pages up to the break are mapped, and the topmost page still is not |
| KernelBreak.MapHeapPage | kernel/arch/i386/memory_manager/brk.c:46-58 | one page is taken and mapped iff a frame can be had for it and, if need be, one for its table; otherwise nothing is mapped and nothing more is held |
| KernelBreak.HeapBreak.IncrementBrk | kernel/arch/i386/memory_manager/brk.c:33-67 | over the real tables and frame allocator growth is `Grow` for the pages that could be had; it succeeds iff the frames available cover the pages and the tables they need, else it maps as many as they do cover; every page it adds walks to a held frame of its own that is no page table |
| KernelBreak.HeapBreak.DecrementBrk | kernel/arch/i386/memory_manager/brk.c:69-94 | over the real tables and frame allocator shrinking is `Shrink`, and what it frees are the frames at the V2P addresses of the pages unmapped |
| KernelBreak.ReturnedAccountedIff | kernel/arch/i386/memory_manager/brk.c:80 | such frees keep the frame accounts iff every frame freed was held or free already |
| KernelBreak.ReturnedOwnsIff | kernel/arch/i386/memory_manager/brk.c:80 | and keep the tables out of the allocator's reach iff, besides, none of them is a table |
| KernelBreak.ShrinkSoundIff | kernel/arch/i386/memory_manager/brk.c:79-88 | a shrink gives back exactly the frames it unmaps and leaves accounts and remaining pages sound iff the V2P frames are the frames behind those pages |
| KernelBreak.ShrinksSoundIff | kernel/arch/i386/memory_manager/brk.c:79-88 | for shrinks of every length up to a given one that is so iff each page is on the frame at its own V2P address |
| KernelBreak.ShrinkLeaks | kernel/arch/i386/memory_manager/brk.c:79-88 | otherwise a frame stays held with none of the pages on it |
| KernelBoot.FirstBreak | kernel/arch/i386/paging/paging.c:22-76 | after boot the break stands at the end of exactly the pages boot has mapped |
| KernelBoot.GrowOnce | kernel/arch/i386/memory_manager/brk.c:33-67 | an increment below the window succeeds iff there are frames enough for it |
| KernelBoot.CostAtBoot | kernel/arch/i386/memory_manager/brk.c:43-61 | after boot n pages of growth cost n frames and one for every 1024 |
| KernelBoot.GrowFromBoot | kernel/arch/i386/memory_manager/brk.c:33-67 | for any increments asked for after boot all heap pages stay mapped, those above the first break on distinct held frames that are no tables; and if the frames left by boot cover them all, none fails and the break ends at their sum |
| Heap.InitialInv | kernel/arch/i386/memory_manager/heap.c:32-39 | the two headers written at start-up form a well-formed heap |
| Heap.HeapStartAligned | kernel/arch/i386/memory_manager/heap.c:13-31 | the heap starts at the first page boundary at or above the end of the image |
| Heap.KernelHeap.constructor | kernel/arch/i386/memory_manager/heap.c:13-43 | heap_init establishes the invariant: one free block up to the end marker below the 4 MB mark |
| Heap.KernelHeap.BlockFacts | kernel/arch/i386/memory_manager/internal.c:19-26 | the header found in memory at a block's address is that block's, and its computed space is its payload |
| Heap.KernelHeap.HeapBlockSplit | kernel/arch/i386/memory_manager/allocators.c:152-171 | in memory the block becomes its two pieces; the kept payload bytes do not change |
| Heap.KernelHeap.FindFit | kernel/arch/i386/memory_manager/allocators.c:22-35 | following `next` ends, at the first block that fits or at the end marker |
| Heap.KernelHeap.Take | kernel/arch/i386/memory_manager/allocators.c:27-32 | the found block is reserved and no other block in use changes a byte |
| Heap.KernelHeap.Extend | kernel/arch/i386/memory_manager/allocators.c:36-58 | sbrk is asked in signed 32-bit terms; NULL iff it refuses or there are fewer pages than the growth needs, and then nothing changed; else the old end marker becomes the new block and a new end marker follows |
| Heap.KernelHeap.Kmalloc | kernel/arch/i386/memory_manager/allocators.c:16-59 | NULL exactly if no block fits and sbrk refuses or lacks pages; first fit or growth otherwise, result and new block list, heap invariant kept, all other used blocks untouched |
| Heap.KernelHeap.Kcalloc | kernel/arch/i386/memory_manager/allocators.c:61-77 | as kmalloc of the (truncated) product, NULL included, with the returned bytes zero |
| Heap.MarkAndMerge | kernel/arch/i386/memory_manager/allocators.c:125-129 | the header is marked free and skips a free successor |
| Heap.KernelHeap.FindParent | kernel/arch/i386/memory_manager/allocators.c:136-139 | the walk from the heap start ends at the predecessor |
| Heap.KernelHeap.Kfree | kernel/arch/i386/memory_manager/allocators.c:116-150 | the block and its free neighbours become one free block, everything else in use untouched |
| Heap.KernelHeap.Move | kernel/arch/i386/memory_manager/allocators.c:103-113 | NULL exactly if kmalloc has to return it; else allocation, copy and release: the whole old payload is found at the new place, also after the old block was freed |
| Heap.KernelHeap.Krealloc | kernel/arch/i386/memory_manager/allocators.c:79-114 | all five outcomes: NULL pointer, size 0, in place, moved, out of memory |
| Heap.MallocAdds | kernel/arch/i386/memory_manager/allocators.c:16-59 | a successful kmalloc adds exactly one used block, where the result points, at least as large as wanted |
| Heap.KmallocSoundIff | kernel/arch/i386/memory_manager/allocators.c:20-58 | kmalloc gives at least `size` mapped bytes, or NULL with nothing changed, iff `size` is at most 2^32 - 8 and a block fits, or the break can move up without wrapping, or the increment is negative in 32 bits and refused |
| Heap.KcallocSoundIff | kernel/arch/i386/memory_manager/allocators.c:65-67 | the same for the product of kcalloc, which is cut to 32 bits |
| Heap.KmallocOfNothing | kernel/arch/i386/memory_manager/allocators.c:37-58 | for size 0xFFFFFFF8 sbrk is asked for 0 bytes: the pointer returned has no memory behind it |
| Heap.ContentsWritten | kernel/arch/i386/memory_manager/allocators.c:73 | writing a payload disturbs neither the headers nor any other block |
| HeapRuns.StepBooks | kernel/arch/i386/memory_manager/allocators.c:16-171 | what clients hold is exactly what the heap regards as used, and large enough, after every call |
| HeapRuns.StepInv | kernel/arch/i386/memory_manager/allocators.c:16-171 | from the new block list and its headers alone, every call and every write by a client keeps the chain well-formed |
| HeapRuns.RunConsistent | kernel/arch/i386/memory_manager/allocators.c:16-171 | in every run of calls and of writes to memory the chain tiles the heap up to the end marker and the books balance |
| HeapRuns.LiveDisjoint | kernel/arch/i386/memory_manager/allocators.c:16-171 | live payloads of the requested sizes are pairwise disjoint and lie inside the heap |
| HeapRuns.StepIsolated | kernel/arch/i386/memory_manager/allocators.c:16-171 | no call or write changes a byte of a live block it was not made on |
| HeapRuns.RunIsolated | kernel/arch/i386/memory_manager/allocators.c:16-171 | over any stretch of a run a block not freed, reallocated or written by its owner keeps all its bytes, whatever others call and write |
| HeapRuns.RunServes | kernel/arch/i386/memory_manager/allocators.c:16-77 | in every run, with pages to spare, kmalloc and kcalloc return NULL only if no free block is large enough and sbrk refuses the increment as negative |
| HeapRuns.RunDenies | kernel/arch/i386/memory_manager/allocators.c:16-77 | however few pages there are: NULL iff no free block is large enough and sbrk refuses or the pages do not suffice |
| HeapRuns.ReallocServes | kernel/arch/i386/memory_manager/allocators.c:97-106 | a krealloc that fits stays in place and cannot fail; one that must grow fails exactly as kmalloc would |
| HeapRuns.MallocFirst | kernel/arch/i386/memory_manager/allocators.c:22-35 | of the blocks that fit kmalloc takes the lowest |
| HeapRuns.MallocThrifty | kernel/arch/i386/memory_manager/allocators.c:22-58 | it wastes less than 24 bytes and moves the break only if nothing fits, by the block and its header |
| HeapRuns.ReallocThrifty | kernel/arch/i386/memory_manager/allocators.c:97-98 | a krealloc that shrinks gives back what it cuts off |
| HeapRuns.CallocZeroes | kernel/arch/i386/memory_manager/allocators.c:65-74 | what kcalloc returns is zero throughout |
| HeapRuns.FreeServes | kernel/arch/i386/memory_manager/allocators.c:116-150 | what was freed is covered by a free block and can be had again |
| HeapRuns.ReallocGrants | kernel/arch/i386/memory_manager/allocators.c:79-114 | a non-NULL result is a live pointer to at least `size` bytes |
| HeapRuns.ReallocKeepsContents | kernel/arch/i386/memory_manager/allocators.c:97-113 | NULL means nothing happened; otherwise the first min(old payload, size) bytes are the old ones |
| HeapRuns.RunCanonical | kernel/arch/i386/memory_manager/allocators.c:16-171 | runs without krealloc, client writes included, keep the heap free of adjacent free blocks and unaligned headers |
| HeapRuns.EverythingFreed | kernel/arch/i386/memory_manager/allocators.c:16-171 | when everything is freed, in any order and after any growth, one free block is left |
| HeapRuns.FreeUndoesMalloc | kernel/arch/i386/memory_manager/allocators.c:16-150 | kfree right after a kmalloc served from a free block restores the list exactly |
| HeapRuns.InitialClient | kernel/arch/i386/memory_manager/heap.c:13-43 | the initial heap meets the assumptions of the run theorems |
| HeapClients.Malloc | kernel/arch/i386/memory_manager/allocators.c:16-59 | a kmalloc on the heap object is a step of a run |
| HeapClients.Calloc | kernel/arch/i386/memory_manager/allocators.c:61-77 | so is a kcalloc |
| HeapClients.Realloc | kernel/arch/i386/memory_manager/allocators.c:79-114 | so is a krealloc |
| HeapClients.Free | kernel/arch/i386/memory_manager/allocators.c:116-145 | so is a kfree |
| HeapClients.Write | kernel/arch/i386/memory_manager/allocators.c:31-31 | so is a byte stored by a client in its block |
| HeapClients.CanServe | kernel/arch/i386/memory_manager/allocators.c:22-38 | whether a size can be served or is rightly refused is decided by the chain walk and the break |
| HeapClients.AnyClients | kernel/arch/i386/memory_manager/allocators.c:16-171 | whatever clients ask for and write, in any order: each gets the call it is entitled to, what happens to the heap object is a run, and at the end its bytes and the clients' books agree |
| TaskLists.PushOk | kernel/arch/i386/scheduler/scheduler.c:145-154 | appending leaves a proper queue: acyclic, ending at `last` |
| TaskLists.ListUnlink | kernel/arch/i386/scheduler/sleep.c:45-53 | unlinking from the middle or the front leaves the list without that task |
| TaskLists.DoublePushCorrupts | kernel/arch/i386/scheduler/task.c:66-76 | appending a task already in the queue leaves no list that still holds all queued tasks |
| SchedulerModel.InPlaces | kernel/arch/i386/scheduler/scheduler.c:23-26 | a control block in use is in exactly one of current, ready, sleeping and dead, any other in none |
| SchedulerModel.CleanupPlace | kernel/arch/i386/scheduler/scheduler.c:108-121 | cleaning up takes exactly the dead tasks away |
| SchedulerModel.SwitchFacts | kernel/arch/i386/scheduler/scheduler.c:142-155 | schedule puts the current task back exactly if it is not on its way out, and never switches to itself |
| SchedulerModel.SwitchPlaced | kernel/arch/i386/scheduler/scheduler.c:133-157 | a switch moves tasks between places without losing or doubling one |
| SchedulerModel.TickPlaced | kernel/arch/i386/scheduler/sleep.c:36-66 | a tick does the same, also when it wakes the task that is going to sleep |
| SchedulerModel.DueLater | kernel/arch/i386/scheduler/sleep.c:47 | a sleeper is woken iff its target is not after the tick |
| SchedulerInvariants.SwitchParked | kernel/arch/i386/scheduler/scheduler.c:167-180 | what a switch does to the interrupt counter and to the tasks parked in unlock_scheduler balances |
| SchedulerInvariants.TimeConserved | kernel/arch/i386/scheduler/scheduler.c:182-188 | charged time plus what the current task owes is the time the tasks were current |
| SchedulerInvariants.CleanupTimes | kernel/arch/i386/scheduler/scheduler.c:108-121 | the time of the tasks cleaned up is kept in the account |
| SchedulerInvariants.CleanupLogged | kernel/arch/i386/scheduler/scheduler.c:108-121 | every address has been created as often as it is in use and was cleaned up |
| SchedulerInvariants.TickInv | kernel/arch/i386/scheduler/sleep.c:36-66 | a timer tick keeps partition, states, counters and times |
| SchedulerInvariants.UnlockInv | kernel/arch/i386/scheduler/scheduler.c:167-180 | so does unlocking, with or without a switch inside |
| SchedulerInvariants.StepInv | kernel/arch/i386/scheduler/scheduler.c:66-188 | every enabled step keeps all invariants, a creation at an address used before included |
| SchedulerRuns.InitialInv | kernel/arch/i386/scheduler/scheduler.c:45-59 | the state after multitasking_initialize satisfies them |
| SchedulerRuns.RunInv | kernel/arch/i386/scheduler/scheduler.c:66-188 | they hold in every reachable state |
| SchedulerRuns.ExactlyOnePlace | kernel/arch/i386/scheduler/scheduler.c:66-158 | outside the exit windows a control block is in as many places as it was created more often than cleaned up: one or none |
| SchedulerRuns.CounterZeroIff | kernel/arch/i386/scheduler/scheduler.c:160-180 | the interrupt counter is the lock depth plus the parked tasks, all of which are ready, so it is 0 iff no lock is held and no task is parked |
| SchedulerRuns.CpuTimeConserved | kernel/arch/i386/scheduler/scheduler.c:182-188 | all ticks since the start are charged to tasks there or cleaned up, or owed, each to the task that was current |
| SchedulerRuns.ExitsLeave | kernel/arch/i386/scheduler/task.c:58-59 | every sleep, death or termination really switches away, so the aborts behind it are unreachable; task 0 stays current or ready |
| SchedulerRuns.DeadForGood | kernel/arch/i386/scheduler/scheduler.c:196-210 | a dead task never runs, waits or sleeps again and is cleaned up at most once, until its control block is used for a new task |
| SchedulerRuns.AddressReused | kernel/arch/i386/scheduler/scheduler.c:66-121 | a run in which one address is created, cleaned up and created again |
| SchedulerRuns.MovesUp | kernel/arch/i386/scheduler/scheduler.c:133-157 | a ready task moves up one place at each effective switch |
| SchedulerRuns.BoundedWaiting | kernel/arch/i386/scheduler/scheduler.c:123-158 | with k tasks ahead it becomes current at exactly the (k+1)-th |
| SchedulerRuns.RequestsMerge | kernel/arch/i386/scheduler/scheduler.c:125-128 | under a lock nothing is switched and all requests merge into one flag |
| SchedulerRuns.OutermostUnlock | kernel/arch/i386/scheduler/scheduler.c:169-175 | the outermost unlock honours the pending request once and leaves none |
| SchedulerRuns.TickFilters | kernel/arch/i386/scheduler/sleep.c:41-63 | a tick splits the sleep list exactly by deadline and keeps the order of both parts |
| SchedulerRuns.NotLate | kernel/arch/i386/scheduler/sleep.c:36-66 | a task still asleep has seen no tick at or after its target |
| SchedulerRuns.WokenOnTime | kernel/arch/i386/scheduler/sleep.c:36-66 | a task leaves the sleep list at the first tick at or after its target, and is then ready |
| SchedulerRuns.SleepExact | kernel/arch/i386/scheduler/sleep.c:13-66 | a task that asks to sleep until a time is asleep in every state up to the first tick at or after it, and that tick makes it ready |
| SchedulerRuns.MicroSleepExact | kernel/arch/i386/scheduler/sleep.c:26-29 | a micro_sleep lasts until the first tick at or after now plus its argument if that fits in 32 bits, else until the very next tick |
| SchedulerRuns.DeadlineExactIff | kernel/arch/i386/scheduler/sleep.c:26-29 | with a 32-bit deadline the sleep ends at the right tick iff the sum fits, or at most one tick was asked for |
| SchedulerRuns.BlockWindowSafeIff | kernel/arch/i386/scheduler/task.c:55-60 | a tick between block_task's unlock and its schedule keeps the queue intact iff it does not wake the task that is leaving |
| SchedulerRuns.ExposedReached | kernel/arch/i386/scheduler/task.c:55-60 | the state in which that tick does harm is reached four steps after boot |
| SchedulerRuns.StatePositiveIff | kernel/arch/i386/scheduler/task.c:14-49 | the state of a task is positive iff it is not on the dead list |
| TaskStates.YieldExact | kernel/arch/i386/scheduler/scheduler.c:123-158 | schedule without a lock runs the first ready task and queues the caller last, as ready; under a lock it only leaves a request |
| TaskStates.CreateExact | kernel/arch/i386/scheduler/scheduler.c:87-104 | a new task is last in the queue, as ready |
| TaskStates.LockNests | kernel/arch/i386/scheduler/scheduler.c:160-180 | in every run the lock is as deep as it was taken more often than given back, across all switches |
| TaskStates.ReadyIsReady | kernel/arch/i386/scheduler/task.c:66-67 | in every run a ready task has the state READY, unless a tick woke it while it was on its way to sleep |
| TaskStates.LastState | kernel/arch/i386/scheduler/task.c:81-91 | a task that returned stays DEAD and one that terminated itself TERMINATED until its control block is used again |
| TaskStates.SleepingState | kernel/arch/i386/scheduler/task.c:51-58 | a sleeper has the state SLEEPING |
| TaskIds.WrappedId | kernel/arch/i386/scheduler/scheduler.c:69-92 | the creation that takes the counter past 32 bits gives the new task the id of the boot task |
| TaskIds.RunSound | kernel/arch/i386/scheduler/scheduler.c:66-121 | in every run the counter is the number of creations, no id is ahead of it, and up to 2^32 tasks the ids differ |
| TaskIds.IdsDistinctIff | kernel/arch/i386/scheduler/scheduler.c:69-92 | in every run from boot the ids have told the tasks apart all along iff at most 2^32 were created |
| InterruptFlag.OnIff | kernel/arch/i386/scheduler/scheduler.c:160-180 | in every run from boot interrupts are on iff no lock is held and either nobody is parked in unlock_scheduler or a task was started and the lock not taken since |
| InterruptFlag.DeafReached | kernel/arch/i386/scheduler/scheduler.c:167-180 | five steps after boot a task runs outside any lock with interrupts off |
| InterruptFlag.FirstRunOn | kernel/arch/i386/scheduler/scheduler.c:212-215 | a task that runs for the first time has interrupts on, however it was switched to |
| Scheduler.Scheduler.constructor | kernel/arch/i386/scheduler/scheduler.c:32-64 | multitasking_initialize sets up the initial machine |
| Scheduler.Scheduler.LockScheduler | kernel/arch/i386/scheduler/scheduler.c:160-165 | both counters go up by one and interrupts go off |
| Scheduler.Scheduler.UpdateTimeUsed | kernel/arch/i386/scheduler/scheduler.c:182-188 | the ticks since the last charge go to the current task |
| Scheduler.Scheduler.SwitchToTask | kernel/arch/i386/scheduler/switch_to_task.S:10-56 | current task, its state and resume point; the counter share of a task parked in unlock_scheduler, and the sti of one that starts |
| Scheduler.Scheduler.Schedule | kernel/arch/i386/scheduler/scheduler.c:123-158 | the pointers in the control blocks end up as the machine's queue after the switch |
| Scheduler.Scheduler.UnlockScheduler | kernel/arch/i386/scheduler/scheduler.c:167-180 | new machine for nested, outermost and request-honouring unlocks |
| Scheduler.Scheduler.CreateKernelTask | kernel/arch/i386/scheduler/scheduler.c:66-106 | the new task is last in the queue with the next id |
| Scheduler.Scheduler.MicroSleepUntil | kernel/arch/i386/scheduler/sleep.c:13-22 | the current task heads the sleep list with its deadline |
| Scheduler.Scheduler.MicroSleep | kernel/arch/i386/scheduler/sleep.c:26-29 | the deadline is now plus the argument, cut to 32 bits |
| Scheduler.Scheduler.UnblockTask | kernel/arch/i386/scheduler/task.c:62-79 | the task is ready and last in the queue |
| Scheduler.Scheduler.WakeOne | kernel/arch/i386/scheduler/sleep.c:45-57 | one sleeper is unlinked and appended to the ready queue while the walk holds its place |
| Scheduler.Scheduler.WalkSleepers | kernel/arch/i386/scheduler/sleep.c:41-63 | the loop over the list being changed leaves exactly the later sleepers and wakes exactly the due ones, in order |
| Scheduler.Scheduler.TimerTick | kernel/arch/i386/scheduler/sleep.c:36-66 | a whole tick, lock and unlock included; the interrupt flag comes back with iret |
| Scheduler.Scheduler.BlockTask | kernel/arch/i386/scheduler/task.c:51-58 | the state is set under the lock, whatever the reason given |
| Scheduler.Scheduler.MarkTaskForDeath | kernel/arch/i386/scheduler/scheduler.c:196-206 | the current task is dead and heads the dead list |
| Scheduler.Scheduler.TerminateTask | kernel/arch/i386/scheduler/task.c:81-89 | the current task heads the dead list |
| Scheduler.Scheduler.DeadTasksCleanup | kernel/arch/i386/scheduler/scheduler.c:108-121 | every dead control block is freed, the list is empty, and the other lists are intact |
| Scheduler.Scheduler.FindTask | kernel/arch/i386/scheduler/task.c:21-27 | a list walk finds a task with the id iff there is one |
| Scheduler.Scheduler.GetTaskState | kernel/arch/i386/scheduler/task.c:14-49 | the state of a task with this id wherever it is, or -1 if there is none; of the one task with it while ids differ |
| SchedulerClients.Do | kernel/arch/i386/scheduler/scheduler.c:66-210 | each C function on the real lists and counters is its step of the machine, and leaves lists, tail pointer and invariants sound |
| SchedulerClients.DoAll | kernel/arch/i386/scheduler/scheduler.c:66-210 | any sequence of steps on them is a run |
| SchedulerClients.StateAfter | kernel/arch/i386/scheduler/task.c:14-49 | from boot, after any steps, get_task_state answers for the one task with the id as long as at most 2^32 were created |
| TaskMemory.SpawnEnabled | kernel/arch/i386/scheduler/scheduler.c:71-85 | the address kmalloc gives for a control block is in service nowhere |
| TaskMemory.SpawnHoused | kernel/arch/i386/scheduler/scheduler.c:71-92 | after a creation control blocks and stacks are again distinct live blocks of the heap |
| TaskMemory.BuryHoused | kernel/arch/i386/scheduler/scheduler.c:108-121 | freeing the dead leaves every other task's control block and stack live |
| TaskMemory.BuryFrees | kernel/arch/i386/scheduler/scheduler.c:190-194 | and of the dead neither control block nor stack is live any more |
| TaskMemory.WorldOk | kernel/arch/i386/scheduler/scheduler.c:66-194 | in every run of scheduler and heap together, addresses coming from kmalloc, the scheduler's part is a run from boot and all tasks stay housed |
| TaskMemory.TasksDisjoint | kernel/arch/i386/scheduler/scheduler.c:71-92 | control blocks and stacks of the tasks there do not overlap |
| TaskMemory.BootHoused | kernel/arch/i386/scheduler/scheduler.c:38-50 | the boot task's control block comes from kmalloc too |
| TaskMemory.SpawnTask | kernel/arch/i386/scheduler/scheduler.c:66-106 | on the heap object and the scheduler object a creation with its two allocations is such a step; it fails only where one of the allocations must |
| TaskMemory.MemoryForTask | kernel/arch/i386/scheduler/scheduler.c:71-85 | with pages to spare and the break well below 4 GB neither must |
| TaskMemory.BuryTasks | kernel/arch/i386/scheduler/scheduler.c:108-121 | so is a cleanup; each kfree in it is made on a live block |
| FrameBitmap.SetFrame | kernel/arch/i386/paging/internal.c:7-11 | one frame becomes used and no other changes |
| FrameBitmap.UnsetFrame | kernel/arch/i386/paging/internal.c:13-17 | one frame becomes free and no other changes |
| WordBits.SetExact | kernel/arch/i386/paging/internal.c:9-10 | or-ing `1 << i` into a word switches bit i on and leaves the other 31 alone |
| WordBits.ClearExact | kernel/arch/i386/paging/internal.c:15-16 | and-ing with its complement switches bit i off and leaves the other 31 alone |
| WordBits.TestExact | kernel/arch/i386/paging/internal.c:21-22 | the masked word is non-zero iff bit i, read by shifting the word down, is 1 |
| FrameBitmap.TestFrame | kernel/arch/i386/paging/internal.c:19-23 | the mask test on the word of the frame is true iff the frame is in use |
| FrameBitmap.AllocFrame | kernel/arch/i386/paging/allocators.c:44-65 | the lowest free frame is taken and only it; 0 means that none is free, because the first 256 stay in use |
| FrameAllocator.FrameSource.FreePage | kernel/arch/i386/paging/allocators.c:10-15 | the page is free and not held afterwards, whoever held it |
| FrameAllocator.FrameSource.Refill | kernel/arch/i386/paging/allocators.c:28-34 | twenty lowest frames in order, or all that were left |
| FrameAllocator.FrameSource.AllocPage | kernel/arch/i386/paging/allocators.c:17-42 | served from the cache, after a refill, or NULL with the remaining frames stranded |
| FrameAllocator.AllocSound | kernel/arch/i386/paging/allocators.c:17-42 | NULL iff the cache is empty and fewer than 20 frames are free, which strands at most 19; otherwise the page was nobody's |
| FrameAllocator.AllocAvailable | kernel/arch/i386/paging/allocators.c:17-42 | a page can be had iff the cache or a whole batch of free frames provides one, and then there is one less to be had |
| FrameAllocator.AllocLowest | kernel/arch/i386/paging/allocators.c:17-65 | it is the lowest of the cache, and after a refill the lowest of all |
| FrameAllocator.FreeGives | kernel/arch/i386/paging/allocators.c:10-15 | a page given back is free again, and nothing else changes hands |
| FrameAllocator.RunAccounted | kernel/arch/i386/paging/allocators.c:10-65 | free, cached, held and stranded frames partition the initially free ones in every run |
| FrameAllocator.NoDoubleHandOut | kernel/arch/i386/paging/allocators.c:10-65 | a page is returned again only after it was freed in between |
| BootMap.ExactIff | kernel/arch/i386/paging/paging.c:92-108 | an available entry clears exactly the frames wholly inside it iff it ends below 4 GB (or starts in the last page and wraps into the first) |
| BootMap.ClearEntry | kernel/arch/i386/paging/paging.c:90-111 | the page loop clears exactly the frames the 32-bit bounds enclose |
| BootMap.EntriesLaidOut | kernel/arch/i386/paging/paging.c:88-121 | for every sequence of entries laid out one behind the other from mmap_addr to its end, the walk visits exactly these, in order |
| BootMap.WalkMap | kernel/arch/i386/paging/paging.c:88-121 | the entry walk ends and clears exactly what some entry clears |
| BootMap.CountFree | kernel/arch/i386/paging/paging.c:143-152 | the double loop counts the free frames |
| BootMap.FramesInit | kernel/arch/i386/paging/paging.c:78-158 | a frame is free iff an entry clears it, it is outside the kernel image and not below 256; the total is that many pages |
| BootMap.BootExact | kernel/arch/i386/paging/paging.c:88-141 | with entries below 4 GB, free means wholly inside some available entry, outside the image, not below 256 |
| BootMap.FramesInitFor | kernel/arch/i386/paging/paging.c:78-158 | on every such map pmm_frames_init leaves free exactly the frames wholly inside some available entry of it, outside the image and not below 256 |
| PageTables.PdeWindow | kernel/include/kernel/memory_manager/vmm.h:25-26 | walking GET_PDE_PTR(v) lands on exactly the directory entry of v, for every v |
| PageTables.PteWindow | kernel/include/kernel/memory_manager/vmm.h:19-20 | walking GET_PTE_PTR(v) lands on exactly the table entry of v, or faults iff the table is absent |
| PageTables.NewTableOk | kernel/arch/i386/memory_manager/vmm.c:13-28 | creating a table keeps the tables well-formed |
| PageTables.NewTableWalk | kernel/arch/i386/memory_manager/vmm.c:13-28 | creating a table changes no translation but the one of the window page that shows it |
| PageTables.PutPteWalk | kernel/arch/i386/memory_manager/vmm.c:30-34 | writing one table entry changes exactly the pages that share it |
| PageTables.MapWalk | kernel/arch/i386/memory_manager/vmm.c:8-41 | mapping updates the flat map at the page and its twin only, also when a table is created |
| PageTables.UnmapWalk | kernel/arch/i386/memory_manager/vmm.c:43-67 | unmapping removes the page and its twin from the flat map only |
| PageTables.InitialTablesOk | kernel/arch/i386/paging/paging.c:48-71 | the initial tables are well-formed |
| PageTables.InitialWalk | kernel/arch/i386/paging/paging.c:48-71 | they map the low 4 MB at 0 and at 3 GB and nothing else below the window |
| AddressSpace.Mmu.Access | kernel/arch/i386/memory_manager/vmm.c:10-13 | an access goes through the TLB or a walk that is then cached |
| AddressSpace.Mmu.CreateTable | kernel/arch/i386/memory_manager/vmm.c:18-27 | the new table is entered, its window page flushed, and its 1024 entries cleared through the window |
| AddressSpace.Mmu.PageMap | kernel/arch/i386/memory_manager/vmm.c:8-41 | new tables, TLB and result for all outcomes; a page is asked for iff the slot has no table, and it is no table yet |
| AddressSpace.Mmu.PageUnmap | kernel/arch/i386/memory_manager/vmm.c:43-67 | new tables, TLB and result for all three outcomes |
| AddressSpace.AllocOwns | kernel/arch/i386/memory_manager/vmm.c:14 | a page newly handed out is no page table in use |
| AddressSpace.AskedOwns | kernel/arch/i386/memory_manager/vmm.c:13-17 | what the frame allocator gives for a table is in use nowhere as one |
| AddressSpace.MapOwns | kernel/arch/i386/memory_manager/vmm.c:8-41 | mapping keeps every table frame out of the allocator's reach |
| PagingBoot.DirectoryInit | kernel/arch/i386/paging/paging.c:35-71 | the tables are built in two frames that were free; fails iff there are fewer than two |
| PagingBoot.StartPaging | kernel/arch/i386/paging/paging.c:22-76 | paged mode starts with exactly the boot tables, an empty TLB and a new allocator over the frames left, ready for the calls that follow |
| PagingBoot.BootSystem | kernel/arch/i386/paging/paging.c:22-76 | that state meets the assumptions of the runs below |
| PagingBoot.RunsFromBoot | kernel/arch/i386/memory_manager/vmm.c:8-67 | so every run from boot refines the flat map that starts with the low 4 MB, and is exact if it spares slots 0 and 768 |
| PagingRuns.StepOk | kernel/arch/i386/memory_manager/vmm.c:8-67 | map, unmap, TLB fills and evictions keep the tables well-formed and the TLB in agreement |
| PagingRuns.TwinStaleIff | kernel/arch/i386/memory_manager/vmm.c:36 | mapping under slots 0 and 768 leaves the TLB exact iff the twin page was not cached or does not change |
| PagingRuns.UnmapTwinStaleIff | kernel/arch/i386/memory_manager/vmm.c:65 | unmapping there leaves it exact iff the twin page was not cached |
| PagingRuns.TwinSafeIff | kernel/arch/i386/memory_manager/vmm.c:36 | for every exact TLB content: mapping there is safe iff the twin is not mapped, or as the page will be |
| PagingRuns.UnmapTwinSafeIff | kernel/arch/i386/memory_manager/vmm.c:65 | for every exact TLB content: unmapping there is safe iff the twin is not mapped |
| PagingRuns.TwinsAtBoot | kernel/arch/i386/paging/paging.c:48-65 | right after boot every page of the first 4 MB at 3 GB has its twin mapped |
| PagingRuns.StepRefines | kernel/arch/i386/memory_manager/vmm.c:8-67 | map is update and unmap is removal on a flat page map; failures change nothing |
| PagingRuns.MapResult | kernel/arch/i386/memory_manager/vmm.c:8-41 | map returns 0 iff the slot has a table or a frame can be had for one, else ENOMEM with the tables as they were |
| PagingRuns.UnmapResult | kernel/arch/i386/memory_manager/vmm.c:43-67 | unmap returns 0 iff the slot has a table, mapped or not, else -1 |
| PagingRuns.FlagBits | kernel/arch/i386/memory_manager/vmm.c:30-34 | bit 1 of the flags makes a page writable, bit 2 the user's; the low 12 bits of the address are dropped |
| PagingRuns.SystemStepOk | kernel/arch/i386/memory_manager/vmm.c:8-67 | tables, TLB and frame allocator together: no step makes a page table the allocator's to give |
| PagingRuns.RunRefines | kernel/arch/i386/memory_manager/vmm.c:8-67 | in every run of map, unmap, frame allocation and TLB traffic, tables coming from the allocator, the translations are those of the flat map, and cached ones outside slots 0 and 768 are current |
| PagingRuns.RunExact | kernel/arch/i386/memory_manager/vmm.c:8-67 | with calls outside slots 0, 768 and 1023 every cached translation is current in every run |
| PagingRuns.BootRepresents | kernel/arch/i386/paging/paging.c:48-73 | the state after boot meets the assumptions of the run theorems |
| NumberFormat.NumeralParses | libc/stdio/internal.c:35-55 | reading a numeral gives the number back, in every base from 2 to 36 |
| NumberFormat.NumeralCanonical | libc/stdio/internal.c:40-46 | digits of the base only, no leading zero |
| NumberFormat.NumeralUnique | libc/stdio/internal.c:40-46 | the numeral is the only such string for its number |
| NumberFormat.NumeralFits | libc/stdio/vprintf.c:11 | 64-bit numbers take at most 64 digits, so the 65-byte buffer holds them |
| NumberFormat.ReverseRange | libc/stdio/internal.c:24-33 | the two-pointer loop reverses the range and nothing else |
| NumberFormat.Utoa | libc/stdio/internal.c:35-55 | the buffer holds the numeral, terminated; also the body of __ulltoa at 64 bits |
| NumberFormat.Lltoa | libc/stdio/internal.c:107-117 | sign in base 10 only, otherwise the 64-bit pattern |
| NumberFormat.Itoa | libc/stdio/internal.c:57-85 | the text of the remainder loop with truncating division and 32-bit negation, for every int and base |
| NumberFormat.RemaindersNumeral | libc/stdio/internal.c:73-77 | for positive numbers that text is the numeral |
| NumberFormat.RemaindersMirrored | libc/stdio/internal.c:73-77 | for negative numbers each character lies as far below '0' as the digit is above |
| NumberFormat.IntTextIff | libc/stdio/internal.c:57-85 | __itoa prints sign and digits iff the number is not negative, or the base is 10 and it is above INT_MIN |
| NumberFormat.LeastInt | libc/stdio/internal.c:68-71 | what it prints for INT_MIN |
| NumberFormat.TwoAlgorithmsAgree | libc/stdio/internal.c:57-117 | __itoa and __lltoa print the same for every int above INT_MIN, and reading it gives the number back |
| NumberFormat.LongTextParses | libc/stdio/internal.c:107-117 | __lltoa in base 10 is exact for every long long, the least included |
| NumberFormat.TextsFit | libc/stdio/vprintf.c:11 | everything printed fits the 65-byte buffer |
| Vprintf.TextRenders | libc/stdio/vprintf.c:15-29 | a text run, doubled percent sign included, renders as itself |
| Formats.UnsignedPrints | libc/stdio/vprintf.c:53-60 | `%u` prints the canonical decimal numeral of its argument, whatever follows |
| Formats.HexPrints | libc/stdio/vprintf.c:61-68 | `%x` prints the canonical hexadecimal numeral |
| Formats.LongUnsignedPrints | libc/stdio/vprintf.c:73-82 | `%llu` prints the canonical decimal numeral |
| Formats.IntPrints | libc/stdio/vprintf.c:45-52 | `%d` prints sign and digits of every int above INT_MIN, and reading them gives it back |
| Formats.LeastIntPrints | libc/stdio/vprintf.c:45-52 | what `%d` prints for INT_MIN |
| Formats.LongPrints | libc/stdio/vprintf.c:83-92 | `%lld` prints sign and digits of every long long |
| Formats.CharPrints | libc/stdio/vprintf.c:33-38 | `%c` prints one character, its argument mod 256 |
| Formats.StringPrints | libc/stdio/vprintf.c:39-44 | `%s` prints the string |
| Formats.PlainPrints | libc/stdio/vprintf.c:15-29 | a doubled percent sign prints one, any other character itself |
| Formats.LongOtherPrints | libc/stdio/vprintf.c:69-93 | `%ll` before anything but u and d prints nothing |
| Formats.UnknownPrints | libc/stdio/vprintf.c:94-110 | from an unknown specifier on the format is copied |
| Formats.DigitChars | libc/stdio/internal.c:40-46 | digits above 9 are small letters |
| Vprintf.ChunksRender | libc/stdio/vprintf.c:14-111 | the pieces handed to __append make up the rendering of the format |
| Vprintf.EmitMeaning | libc/stdio/internal.c:119-133 | emitting piece by piece gives the whole text and its length, or stops after whole pieces at the first that would pass INT_MAX |
| Vprintf.Append | libc/stdio/internal.c:119-133 | a piece is written and counted, or refused with EOVERFLOW and nothing written; -1 never occurs |
| Vprintf.ReadSpecifier | libc/stdio/vprintf.c:31-110 | the branches on the characters after the percent sign recognise exactly the items of the grammar |
| Vprintf.ReadText | libc/stdio/vprintf.c:16-22 | the run up to the next percent sign |
| Vprintf.Converted | libc/stdio/vprintf.c:33-92 | each conversion's text, by way of the scratch buffer |
| Vprintf.Interpret | libc/stdio/vprintf.c:8-115 | output and result are those of emitting the pieces in order |
| Vprintf.Vprintf | libc/stdio/vprintf.c:8-115 | for every format and matching arguments it ends, emits exactly the rendering and returns its length; on overflow it returns EOVERFLOW and the output is a prefix |
| Vprintf.ResultIff | libc/stdio/vprintf.c:8-115 | the result is the length iff that is an int; EOVERFLOW is also the result of a 75-character rendering |

## Left out

- GDT, IDT, PIC, PIT, port I/O, keyboard, terminal driver and boot assembly: hardware set-up with no unbounded property.
- Registers and stacks in `_switch_to_task` and `_forge_kernel_stack`: only current task, state and resume point are modelled.
- Interrupts inside an unlocked `schedule()`: it is one step, except that the window before it in `block_task` is covered by `BlockWindowSafeIff`; runs exclude the tick that lemma shows to be harmful.
- Tasks that sleep, die or terminate while holding the lock, and the boot task doing so: the methods cover these calls, runs exclude them, as the code behind them then aborts or returns.
- Scheduler.Scheduler.constructor: the allocation of the first control block is in `TaskMemory.BootHoused`; the installation of the timer event is left out.
- Scheduler.Scheduler.CreateKernelTask: the address of the control block is a parameter here; `TaskMemory.SpawnTask` has the allocations. After a failed one the kernel aborts; what it gives back before that is left out.
- Scheduler.Scheduler.DeadTasksCleanup: the heap's part in freeing stack and control block is in `TaskMemory.BuryTasks`, as a walk of its own.
- TaskMemory.WorldOk: the fields of a control block are not tied to the bytes of its heap block.
- Scheduler.Scheduler.UnblockTask: a task that is already in a list is excluded, because appending it destroys the queue (`DoublePushCorrupts`).
- Scheduler.Scheduler.MicroSleepUntil: only outside the windows in which the current task is already on its way out; so are MarkTaskForDeath and TerminateTask.
- Wrap-around of the 64-bit tick and id counters and of the 32-bit lock counters.
- Interrupts inside the timer handler, whose unlock may execute sti: the interrupt controller holds them back until the handler has ended.
- Heap.KernelHeap.Kmalloc: sizes for which `KmallocSoundIff` shows the result to be wrong are excluded from the method and from runs; what the code then does to the headers is not followed further.
- Heap.KernelHeap.Extend: the same for the increments that sbrk gets wrong.
- Heap.KernelHeap.Kcalloc: the same for products that leave such a size.
- Heap.KernelHeap.Move: the same for the new size.
- Heap.KernelHeap.Krealloc: the same for a new size that needs a new block.
- ProgramBreak.BreakCell.MapPages: page allocation and mapping are a counter and a set; `KernelBreak.MapHeapPage` has the real ones.
- ProgramBreak.BreakCell.IncrementBrk: so here; `KernelBreak.HeapBreak.IncrementBrk` has the real ones.
- ProgramBreak.BreakCell.DecrementBrk: break and mapped pages only; the frames are in `KernelBreak.HeapBreak.DecrementBrk`.
- KernelBreak.HeapBreak.IncrementBrk: growth into slot 1023 (from 0xFFC00000 on), where mapping a page overwrites a directory entry and `sbrk` has no check, is excluded; of the pages below the first break, which boot mapped on frames of the allocator, nothing is claimed.
- KernelBreak.MapHeapPage: the same for its page.
- KernelBreak.HeapBreak.DecrementBrk: the same, and a heap start below the first megabyte of the kernel's half is excluded; the image lies there.
- FrameAllocator.FrameSource.FreePage: pages below 1 MB are excluded; their bits stay set for good.
- AddressSpace.Mmu.PageMap: addresses in slot 1023, the window itself, are excluded.
- AddressSpace.Mmu.PageUnmap: likewise.
- The magic-number and flag checks before the memory map is read: they only abort.
- `brk`, `vmm_page_map_range`, `vmm_virt_to_phys`, timer-event installation and the other string functions: they would only add easy members.
- Accessed and dirty bits, and TLB fills by speculation between the writes of one `vmm_page_map`: the TLB changes inside a call only through the accesses of that call.
- HeapRuns.RunCanonical: leaves out krealloc, whose in-place shrink breaks the canonical form; `HeapBlocks.ShrinkCanonicalIff` says exactly when.
- Memory maps whose entry walk wraps around 4 GB: `WellFormed` excludes them; entries that reach 4 GB are outside `FramesInitFor` (`ExactIff` says what goes wrong).
- Arguments of the wrong type or too few of them for a format: undefined in C, excluded by `Matching`.
