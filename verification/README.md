# SINS

SINS is a small i386 kernel. This project models its memory management, scheduling, process tree,
timers, dentry cache and path walk, Minix file read, 64-bit division and formatted output, and proves
what these parts promise. The machine has one processor: every section between `irq_save` and
`irq_restore` is one atomic step, and a context switch changes which task is current.

The C code that changes state is modelled by classes whose methods make the same changes in the same
order; a value-level specification says what a state means, and small lemmas carry the invariants. A
loop of the source is a loop here. A `BUG_ON` of the source is an assertion, or a fact that the
invariant excludes. Lists of the kernel are sequences; IntrusiveList.dfy proves the pointer operations
of include/list.h against sequences once.

| files | part of the kernel |
|---|---|
| Words, Arith, PageMath, Sequences | word sizes, powers of two and aligned blocks, page orders, lists as sequences |
| BuddyModel, Zone, PageAlloc | the buddy allocator: one zone, then all zones with page and address lookup |
| HighMem, Slab, PageTable | high-memory windows, kmalloc and user page tables on top of the buddy contracts |
| SchedModel, SchedOrder, Scheduler, Semaphore | the two-list epoch scheduler, the order in which it runs tasks, wait queues, semaphores |
| ProcModel, Process | process tree, pids, exit and reaping |
| Timer | the timer wheel against a map of deadlines |
| DentryModel, Dentry | the dentry cache and its reference counts |
| PathModel, PathWalk | path lookup as a function of the cache, and the code of lookup, chdir and chroot |
| Minix | block map and file read |
| Div64, Numerals, Vsnprintf, PrintfStandard, PrintfLaws | 64-bit division, digits and parsing, bounded formatting, formatting against the standard and for its reader |
| IntrusiveList | circular doubly linked lists on the heap |

Places where the code does less than its names or comments suggest are stated with the exact
condition instead of being left out:

- `kmalloc` hands out the class below for a multiple of 16 that is not 16 times a power of two
  (`Slab.ClassHoldsRequest`).
- `kmalloc` has a class for 1008 bytes but none for 513: a size that is no multiple of 16 must be below 512
  (`Slab.ClassExists`).
- The address test of `load_page` wraps and admits the last page of the address space
  (`PageTable.RangeTest`).
- `get_order(0)` is 20 (`PageMath.GetOrder`).
- `div64_u64` is one too large for some dividends exactly if it shifts nonzero bits out of the divisor
  (`Div64.ExactIff`).
- A Minix read drops a hole that reaches the end of the file but moves the position over it
  (`Minix.PositionIff`).
- A Minix read returns zeros for what lies behind an indirect block that cannot be read; exactly then
  its bytes need not be the file's (`Minix.ContentIff`, `Minix.LostIndirect`).
- find_entry compares a cached name only as far as the name asked for goes, so a cached longer name hides
  a shorter one (`PathModel.RightIff`, `PathModel.LongerNameHides`).
- `simple_strtoull` with base 0 does not know a prefix with a capital X (`Numerals.MissesLargeHex`).
- Against section 7.19.6.1 of ISO/IEC 9899:1999, with the exact condition in
  `PrintfStandard.NumberConformsIff`: "#" puts "0x" before a zero (`HexZeroExample`); "#" puts another zero
  before an octal number that begins with one already (`OctalZeroExample`), unless that zero is one of
  those that fill the field; a zero with precision 0 has a digit (`NoDigitExample`); "0" fills with zeros
  although a precision is given (`ZeroFlagExample`).
- A negative precision argument counts as 0 and not as none (`PrintfStandard.PrecisionConformsIff`,
  `NegativePrecisionExample`).
- `vsnprintf` does not cut its output at all if the buffer starts at address 0, also with size 0, which
  section 7.19.6.5 allows (`Vsnprintf.CutIff`, `Vsnprintf.NullBuffer`).
- A `kernel_thread` that fails for want of a page directory uses its pid up; before there is an init that
  is pid 1 (`Process.Processes.KernelThread`).
- `get_free_pages` never falls back to ZONE_DMA when the mask also has GFP_NORMAL
  (`PageAlloc.PageAllocator.GetFreePages`).
- A task with a root but no working directory would look up relative paths from droot; lookup's
  promise needs that a task without a working directory has no root either (`PathWalk.Walker.Valid`).

## Model

| member | source | states |
|---|---|---|
| `BuddyModel.BuddyFacts` | kernel/mm/page_alloc.c:328-345 | the buddy of an aligned block is the other half of the block one order up; being a buddy is mutual |
| `BuddyModel.ProbesFindBuddy` | kernel/mm/page_alloc.c:350-360 | the three flag probes succeed exactly when the page is the head of a free block of exactly the order asked for |
| `BuddyModel.FreeRunInOneBlock` | kernel/mm/page_alloc.c:402-438 | in a coalesced zone an aligned run of free pages lies in one free block at least as large |
| `BuddyModel.FreeRunIff` | kernel/mm/page_alloc.c:402-438 | a free block of order k or more exists exactly when some aligned run of 2^k pages is wholly free |
| `BuddyModel.LiveApart` | kernel/mm/page_alloc.c:402-478 | outstanding blocks stay inside the zone and never overlap |
| `BuddyModel.UsedOutstanding` | kernel/mm/page_alloc.c:402-478 | a page is in use exactly if it lies in an outstanding block |
| `BuddyModel.Canonical` | kernel/mm/page_alloc.c:402-478 | two zones reached in any way with the same outstanding allocations have the same blocks |
| `BuddyModel.CanonicalFreeLists` | kernel/mm/page_alloc.c:402-478 | and the same free list contents for every order |
| `Zone.MemZone.constructor` | kernel/mm/page_alloc.c:48-81 | building a zone leaves the invariant: blocks partition the zone, no two free buddies, flags and lists agree, nothing outstanding; later blocks stand first on their lists |
| `Zone.MemZone.Build` | kernel/mm/page_alloc.c:48-69 | the initial carving by falling orders never leaves two free buddies and covers the zone exactly |
| `Zone.MemZone.AddToFreeArea` | kernel/mm/page_alloc.c:298-304 | a block in hand with no free buddy becomes a free block of its order; all else stays |
| `Zone.MemZone.RemoveFromFreeArea` | kernel/mm/page_alloc.c:320-325 | exactly the named free block leaves its list |
| `Zone.MemZone.PopFromFreeArea` | kernel/mm/page_alloc.c:306-318 | fails exactly when no free block of this order exists, otherwise takes the first of the list |
| `Zone.MemZone.GetBuddy` | kernel/mm/page_alloc.c:328-363 | answers the buddy exactly when it is a free block of exactly this order inside the zone |
| `Zone.MemZone.Reduce` | kernel/mm/page_alloc.c:370-380 | halving keeps the invariant: the left half stays in hand, the right half is free, nothing outside changes |
| `Zone.MemZone.Expand` | kernel/mm/page_alloc.c:382-398 | joining two buddies in hand gives the block one order up |
| `Zone.MemZone.AllocPages` | kernel/mm/page_alloc.c:402-438 | fails exactly when the zone has no aligned free run of 2^order pages; success adds exactly one outstanding block: the first free block of the smallest order that has one, cut so that of each order in between one right half becomes the free block |
| `Zone.MemZone.DeallocPages` | kernel/mm/page_alloc.c:441-478 | removes exactly this outstanding block, keeps maximal coalescing, and changes the free lists in nothing but the buddies that leave and the grown block in front of its list |
| `Zone.MemZone.AllocThenFree` | kernel/mm/page_alloc.c:402-478 | an allocation followed by its release restores every block and every free list in its order |
| `Zone.MemZone.FreeThenAlloc` | kernel/mm/page_alloc.c:402-478 | a released block that finds no free buddy is the next one of its order to be handed out, and then everything is as before |
| `Zone.MemZone.SplitTo` | kernel/mm/page_alloc.c:213-226 | a used block becomes used blocks of the smaller order, nothing else changes |
| `Zone.MemZone.AllocRegion` | kernel/mm/page_alloc.c:112-149 | in one zone: if the pages are free and the blocks they touch end strictly inside the zone, exactly the pages of the region become used single pages |
| `Zone.MemZone.DeallocRegion` | kernel/mm/page_alloc.c:172-174 | in one zone: exactly the pages of the region are released |
| `Zone.CarvedRegion` | kernel/mm/page_alloc.c:113-139 | the touched blocks are exactly the free pages between the recorded minimum and maximum |
| `Zone.RegionEnds` | kernel/mm/page_alloc.c:113-149 | the recorded minimum and maximum are the ends of the first and the last block touched |
| `PageAlloc.OnlyZone` | kernel/mm/page_alloc.c:253-295 | a page belongs to one zone only, and its address lies in that zone |
| `PageAlloc.PhysInjective` | kernel/mm/page_alloc.c:276-282 | different pages have different addresses |
| `PageAlloc.PageAllocator.PhysToPage` | kernel/mm/page_alloc.c:229-251 | finds a page exactly for addresses in some zone; it is the page whose frame holds the address |
| `PageAlloc.PageAllocator.PhysToZone` | kernel/mm/page_alloc.c:253-274 | finds the zone exactly for addresses in some zone |
| `PageAlloc.PageAllocator.PageToPhys` | kernel/mm/page_alloc.c:276-282 | the page-aligned 32-bit address of the page |
| `PageAlloc.PageAllocator.PageToZone` | kernel/mm/page_alloc.c:284-295 | finds the zone exactly for pages of some zone |
| `PageAlloc.PageAllocator.AllocPages` | kernel/mm/page_alloc.c:402-438 | over all zones of a type: NULL exactly when the order is too large or no zone of the type has an aligned free run; a failure changes nothing; success takes the best fit of the first zone of the type that has one; behind a single page there is another one exactly if there were two |
| `PageAlloc.PageAllocator.DeallocPages` | kernel/mm/page_alloc.c:441-478 | over all zones: exactly this outstanding block is released |
| `PageAlloc.PageAllocator.SameLiveSameZones` | kernel/mm/page_alloc.c:402-478 | between any two states with the same outstanding allocations every zone has the same blocks |
| `PageAlloc.PageAllocator.AllocRegion` | kernel/mm/page_alloc.c:90-151 | by physical addresses: exactly the pages with an address in the region become outstanding single pages, whatever else is outstanding stays |
| `PageAlloc.PageAllocator.DeallocRegion` | kernel/mm/page_alloc.c:158-175 | by physical addresses: exactly the pages with an address in the region are given back |
| `PageAlloc.PageAllocator.ReserveImage` | kernel/mm/page_alloc.c:181-193 | after the boot-time initialisation exactly the pages of the kernel image are outstanding, as single pages |
| `PageAlloc.PageAllocator.GetFreePages` | kernel/mm/page_alloc.c:480-495 | for every order: ZONE_NORMAL decides alone if the mask has it; NULL exactly when the order is too large or that zone type has no free run, otherwise the address of exactly one new block, below 896 MiB |
| `PageAlloc.PageAllocator.FreePages` | kernel/mm/page_alloc.c:497-500 | exactly the block at this address is given back |
| `PageAlloc.PageAllocator.GetFreePage` | kernel/mm/page_alloc.c:480-495 | the same for single pages, as a page-aligned frame that nobody had |
| `PageAlloc.PageAllocator.AllocPageAt` | kernel/mm/page_alloc.c:402-438 | one page as an address: fails exactly if the type has no free page; the frame lies in a zone of the type and other types are not touched |
| `PageAlloc.PageAllocator.KindRange` | kernel/mm/page_alloc.c:229-251 | the zone types are the addresses below 16 MiB, from there to 896 MiB, and above |
| `PageAlloc.PageAllocator.FreePageAt` | kernel/mm/page_alloc.c:497-500 | for a single page: exactly the frame at this address leaves the frames handed out |
| `PageMath.GetOrder` | include/sins/page.h:100-111 | the smallest order whose block holds the size, for every 32-bit size but 0; 0 gives 20 |
| `PageMath.GetOrderFloor` | include/sins/page.h:113-125 | the largest order whose block fits in the size |
| `HighMem.VirtRoundTrip` | kernel/mm/highmem.c:288-302 | every address in a window's page leads back to the window's entry |
| `HighMem.EntryLeadsTo` | kernel/mm/highmem.c:304-347 | entry i of a window is present and writable and leads to page i of the wanted frames |
| `HighMem.HighMap.WindowShows` | kernel/mm/highmem.c:304-347 | every byte behind a window's address, through the page-table entry of that address, shows the byte as far behind the wanted physical address |
| `HighMem.HighMap.MapPages` | kernel/mm/highmem.c:304-347 | kmap and ioremap: NULL exactly when no run of windows is free; a new window shows exactly the wanted frames and no live window changes |
| `HighMem.HighMap.Kunmap` | kernel/mm/highmem.c:322-326 | exactly this window goes; the others still show their frames |
| `HighMem.HighMap.Ioremap` | kernel/mm/highmem.c:328-347 | a window of the smallest order that holds the size, NULL exactly if no run of that order is free; NULL for size 0 |
| `Slab.SlotBounds` | kernel/mm/kmalloc.c:45-62 | slots of a page lie behind its header, inside the page, and do not overlap |
| `Slab.SlotsExist` | kernel/mm/kmalloc.c:45-62 | every class has room for at least one object on a page |
| `Slab.SlotsCount` | kernel/mm/kmalloc.c:45-62 | a page has every object that fits behind its header, one right behind the other |
| `Slab.KmallocIndex` | kernel/mm/kmalloc.c:64-80 | the shift loop computes the class by bit length |
| `Slab.ClassHoldsRequest` | kernel/mm/kmalloc.c:64-80 | an object holds the bytes asked for exactly if the size is no multiple of 16 or 16 times a power of two |
| `Slab.ClassExists` | kernel/mm/kmalloc.c:64-80 | a size has a class exactly if it is a multiple of 16 below 1024 or another size below 512 |
| `Slab.ClassIsSmallest` | kernel/mm/kmalloc.c:64-80 | the class below would not hold the request, and it is less than twice the class size |
| `Slab.ClassBelowExample` | kernel/mm/kmalloc.c:64-80 | a request for 48 bytes gets an object of 32 |
| `Slab.ObjectsDisjoint` | kernel/mm/kmalloc.c:95-160 | live objects do not overlap and lie inside one page of their class |
| `Slab.SlabAllocator.InitPage` | kernel/mm/kmalloc.c:45-62 | the free list of a new page holds exactly its objects, the last one first |
| `Slab.SlabAllocator.Kmalloc` | kernel/mm/kmalloc.c:95-135 | NULL exactly if the front page of the class is full or missing and ZONE_NORMAL has no page; otherwise exactly one new live object of the class appears, the first free one of the front page or of the new page; every page held keeps at least one live object |
| `Slab.SlabAllocator.Kfree` | kernel/mm/kmalloc.c:137-160 | exactly this object goes, to the front of its page's free list, and its page to the front of its class; the page goes back to the buddy system exactly if it was the last object |
| `Slab.SlabAllocator.FreeThenKmalloc` | kernel/mm/kmalloc.c:95-160 | an object given back while its page has others is the next one of its class to be handed out |
| `PageTable.EntryRoundTrip` | include/sins/page.h:72-94 | an entry made from an aligned address is present, writable and open to the user, and leads back to it |
| `PageTable.EntryIsOr` | include/sins/page.h:72-79 | for a page address and 12 protection bits, or-ing them is adding them |
| `PageTable.IndicesAreFields` | include/sins/page.h:33-36 | directory index, table index and offset are the fields of a linear address that the processor uses, and make it up |
| `PageTable.RangeTest` | kernel/mm/page_table.c:74-76 | the address test admits exactly the user pages and, because the sum wraps, the last page of the address space |
| `PageTable.TranslationsAfter` | kernel/mm/page_table.c:59-106 | with one new mapping the processor translates the addresses of one page to the frame, offset by offset, and all others as before |
| `PageTable.NoFrameMappedTwice` | kernel/mm/page_table.c:59-106 | no user frame is mapped twice, in one address space or in two |
| `PageTable.TakenDisjoint` | kernel/mm/page_table.c:19-106 | live address spaces share no directory, table or data page |
| `PageTable.PageTables.CopyEmptyPageDir` | kernel/mm/page_table.c:19-29 | a new directory equal to the kernel's, owning one page; fails exactly if ZONE_NORMAL has no page, and then changes nothing |
| `PageTable.PageTables.GetAvailPage` | kernel/mm/page_table.c:7-17 | a frame of high memory if there is one, else of normal, else of DMA memory; fails exactly if there is none |
| `PageTable.PageTables.LoadPage` | kernel/mm/page_table.c:59-106 | on success the processor translates every address of the page to the new frame, and every other address of this and every other directory as before; with the table present it succeeds exactly if some zone type has a page; without it, and with a page of high memory, exactly if ZONE_NORMAL has one; without both, exactly if ZONE_NORMAL has two; a failure leaves the tables, the outstanding allocations and every block of every zone as they were |
| `PageTable.PageTables.FreePageDir` | kernel/mm/page_table.c:31-54 | gives back exactly the directory, table and data pages taken since the directory was made |
| `SchedModel.ExactlyOneList` | kernel/sched.c:200-328 | each live task is on exactly one of run_list, ready_list and the wait queues as its state says; a zombie on none |
| `SchedModel.NextKeepsPlacement` | kernel/sched.c:200-328 | spawn, tick, yield, wait, both wakes, exit and release keep the placement invariant, with current on run_list and positive slices |
| `SchedModel.IdleStays` | kernel/sched.c:228 | the empty-run_list BUG_ON of schedule cannot fire |
| `SchedModel.RunPlaced` | kernel/sched.c:200-328 | the invariant holds in every state of every run |
| `SchedModel.ListsStep` | kernel/sched.c:200-328 | between refills only the current task leaves run_list and nothing leaves ready_list; at a refill the ready tasks become the run_list |
| `SchedModel.StaysOnRun` | kernel/sched.c:200-236 | a task on run_list stays there until it has been current or run_list is refilled |
| `SchedModel.NoStarvation` | kernel/sched.c:200-288 | a task that is ready at a refill is current before the next refill |
| `SchedModel.BudgetStep` | kernel/sched.c:200-288 | no step between refills adds to the slices of the tasks off ready_list, and a tick uses one up |
| `SchedModel.EpochBounded` | kernel/sched.c:200-288 | the ticks between two refills are at most those slices, whatever else happens |
| `SchedModel.WaitersStep` | kernel/sched.c:290-328 | the exact effect of every step on every wait queue |
| `SchedOrder.WokenRunsNext` | kernel/sched.c:296-328 | after a wake-up the task that went to sleep last is the next to run |
| `SchedOrder.SleeperReturns` | kernel/sched.c:290-315 | a task that sleeps and is woken at once runs again next |
| `SchedOrder.ExpiredNext` | kernel/sched.c:209-231 | when the slice of the current task is used up the next of run_list runs, and it heads ready_list with a new slice |
| `SchedOrder.LastStays` | kernel/sched.c:209-231 | the last task of run_list stays current at a refill, with the ready tasks behind it |
| `SchedOrder.UsesItsSlice` | kernel/sched.c:200-288 | a task stays current for exactly the ticks of its slice |
| `SchedOrder.EpochOrder` | kernel/sched.c:200-288 | left to the clock the tasks of run_list run in its order, each for its slice, and gather on ready_list in reverse |
| `SchedOrder.WholeEpoch` | kernel/sched.c:200-288 | and when all slices are used run_list is the reverse of itself in front of the ready tasks |
| `SchedOrder.SpawnedRuns` | kernel/sched.c:192-236 | a thread created by the only task of run_list runs after its creator has used its slice twice at most |
| `Scheduler.Scheduler.constructor` | kernel/sched.c:83-130 | only the idle task, current and on run_list |
| `Scheduler.Scheduler.Schedule` | kernel/sched.c:200-236 | the list operations implement the step of the model for an expired, sleeping or dead current task |
| `Scheduler.Scheduler.SchedTick` | kernel/sched.c:279-288 | one tick of the model |
| `Scheduler.Scheduler.Wait` | kernel/sched.c:290-299 | the current task goes to the head of the queue and another one runs |
| `Scheduler.Scheduler.WakeOne` | kernel/sched.c:301-315 | the head of the queue goes to the head of run_list |
| `Scheduler.Scheduler.WakeUpAll` | kernel/sched.c:317-328 | the whole queue goes to the head of run_list in its order |
| `Semaphore.OtherStepsKeep` | kernel/semaphore.c:3-23 | no step on other queues disturbs a semaphore |
| `Semaphore.Semaphore.Down` | kernel/semaphore.c:3-13 | with nobody holding it the caller becomes the only holder; otherwise it sleeps; count equals holders plus waiters, at most one holder, waiters only while there is one |
| `Semaphore.Semaphore.Up` | kernel/semaphore.c:15-23 | ownership passes directly to the woken waiter, or the semaphore becomes free |
| `ProcModel.OnOneChildList` | kernel/sched.c:186-268 | every task but idle is on exactly one child list, that of its current parent, zombies on the zombie list |
| `ProcModel.OutsideKeeps` | kernel/sched.c:279-328 | clock ticks, yields and other wait queues do not disturb the process tree |
| `ProcModel.ForkedKeeps` | kernel/sched.c:132-198 | kernel_thread keeps tree, pids and sleepers |
| `ProcModel.ForkedEffect` | kernel/sched.c:132-198 | the new thread is the first active child of its creator, has no children, and heads ready_list with a full slice; nobody else changes |
| `ProcModel.SleptKeeps` | kernel/exit.c:45-60 | a task that finds no such zombie may sleep: tree, pids and sleepers are kept, so no sleeper has the zombie it waits for |
| `ProcModel.ExitedKeeps` | kernel/exit.c:9-33 | an exit keeps tree, pids and sleepers |
| `ProcModel.ExitedEffect` | kernel/exit.c:9-33 | after an exit the task is the first zombie of its parent with its code stored, and nobody sleeps on the parent's wait_exit queue |
| `ProcModel.ReapedKeeps` | kernel/sched.c:238-275 | releasing a zombie keeps tree, pids and sleepers, also when orphans pass to init |
| `ProcModel.ReapedEffect` | kernel/sched.c:247-267 | of a release every other task sees at most a new parent: orphans get init, nobody else moves |
| `ProcModel.ReapedLists` | kernel/sched.c:247-267 | the orphans come first on init's lists, in their order; the released task leaves its parent's list; other lists stay |
| `ProcModel.OneSleeper` | kernel/exit.c:45-60 | only the task itself sleeps on its wait_exit queue, so one wake is enough |
| `Process.Processes.constructor` | kernel/sched.c:83-130 | the idle task has pid 0 |
| `Process.Processes.GetTaskByPid` | kernel/sched.c:45-55 | the pid hash agrees with a search of all tasks |
| `Process.Processes.FindUsablePid` | kernel/sched.c:63-81 | the first unused pid from pid_start on, also if that wraps; the very first one is 1 |
| `Process.Processes.KernelThread` | kernel/sched.c:132-198 | a new ready child of the current task with a pid no task has; a failure changes neither tasks nor lists; if it comes after the pid was chosen and before there is an init, pid 1 is lost, and only then |
| `Process.Processes.SysExit` | kernel/exit.c:9-33 | the step of the model, from any state the invariant allows |
| `Process.Processes.KthreadRelease` | kernel/sched.c:238-275 | the step of the model; the zombie is gone |
| `Process.Processes.SysWaitChld` | kernel/exit.c:55-77 | sleeps exactly if there is no zombie child; otherwise reaps the first one and returns its pid and code |
| `Process.Processes.SysWaitPid` | kernel/exit.c:37-53 | fails exactly if no child has the pid; sleeps while the child lives; reaps it and returns its code otherwise |
| `Timer.DueIsMultiple` | kernel/timer.c:57 | the c-th deadline is start + c * expires |
| `Timer.FiresExactly` | kernel/timer.c:13-63 | a timer fires exactly at the multiples of expires after its start, as often as times says, also if expires is a multiple of 60 |
| `Timer.FiresAllTimes` | kernel/timer.c:13-63 | after its last deadline a timer has fired all its times and is idle |
| `Timer.LaterArmedFirst` | kernel/timer.c:23-63 | of two timers due in the same tick the one that stands further in front of their bucket, armed later, is called first |
| `Timer.TimerWheel.AddTimer` | kernel/timer.c:41-63 | arms the deadline jiffies + expires in front of its bucket, fires at once for expires 0, does nothing for times 0; no other timer changes |
| `Timer.TimerWheel.DelTimer` | kernel/timer.c:65-72 | exactly this timer is disarmed; an idle one stays idle |
| `Timer.TimerWheel.DoTimer` | kernel/timer.c:13-39 | each tick fires exactly the timers whose deadline is now, each once, in the order of their bucket, and every timer takes the step of the deadline map; the missed-deadline BUG_ON cannot fire |
| `Timer.TimerWheel.Ticks` | kernel/timer.c:13-39 | after n ticks every timer is where n steps of the deadline map lead, and the log has its calls exactly at the ticks of that map |
| `Timer.TimerWheel.AddThenTick` | kernel/timer.c:13-63 | a timer that is added and left alone for n ticks is called exactly at the multiples of expires in them, as often as times allows |
| `DentryModel.ReferencedKeeps` | fs/dentry.c:91-95 | dref keeps counts, tree, hash and mounts consistent |
| `DentryModel.InsertedKeeps` | fs/dentry.c:68-86 | so does a new dentry under a key that was not cached |
| `DentryModel.ReleasedKeeps` | fs/dentry.c:97-103 | so does a dput that leaves other references |
| `DentryModel.UnlinkedKeeps` | fs/dentry.c:103-109 | so does unlinking a dentry whose last reference went |
| `DentryModel.FreedKeeps` | fs/dentry.c:110-113 | and so does freeing it after its parent's turn |
| `DentryModel.PutUndoesReferenced` | fs/dentry.c:91-116 | dput undoes dref: the cache is what it was |
| `DentryModel.MountedKeeps` | fs/super.c:64-138 | a mount pins the covered dentry and the new root and links them |
| `DentryModel.RootAbove` | fs/super.c:91-99 | droot is above every dentry, so every upward walk ends |
| `DentryModel.LiveIffNeeded` | fs/dentry.c:58-116 | the dentries that exist are exactly those above some outside reference |
| `DentryModel.ChainIsUnneeded` | fs/dentry.c:97-116 | the chain one dput frees is exactly the set of dentries above no remaining reference |
| `DentryModel.AboveFrame` | fs/dentry.c:58-116 | a dentry that survives any operations keeps its ancestors |
| `Dentry.DentryCache.constructor` | fs/super.c:91-99 | droot alone, its own parent, referenced three times |
| `Dentry.DentryCache.Dcache` | fs/dentry.c:16-38 | the bucket search answers the entry with this key if there is one and otherwise adds the given one in front |
| `Dentry.DentryCache.Ddecache` | fs/dentry.c:40-56 | exactly the given entry leaves its bucket |
| `Dentry.DentryCache.Dref` | fs/dentry.c:91-95 | one more reference; the BUG_ON cannot fire for an existing dentry |
| `Dentry.DentryCache.Dget` | fs/dentry.c:58-89 | the cached dentry with this inode and parent exactly if any dentry has the key, else a new one with one reference, or NULL without memory; count equals children plus holders |
| `Dentry.DentryCache.Dput` | fs/dentry.c:97-116 | the cache is exactly what the recursive release makes of it: one reference less, the unreferenced chain gone, the fields of all others as they were; the recursion ends and its BUG_ONs cannot fire |
| `Dentry.DentryCache.Mount` | fs/super.c:64-138 | the mount step |
| `PathModel.ComponentsOfJoin` | fs/namei.c:217-284 | splitting a path undoes joining its components |
| `PathModel.ComponentsStep` | fs/namei.c:217-284 | one round of the scan takes exactly the next component |
| `PathModel.ComponentsIdle` | fs/namei.c:222-236 | slashes that follow each other count as one and "." does not move the walk |
| `PathModel.UpBelow` | fs/namei.c:250-254 | a step up from below the root stays below it, across mount edges |
| `PathModel.OwnMore` | fs/namei.c:195-293 | taking a reference adds exactly one to what the walk may give back |
| `PathModel.OwnLess` | fs/namei.c:195-293 | giving one back cannot take a reference of somebody else |
| `PathModel.ObtainedKeeps` | fs/namei.c:189-192 | a dentry got from disk is a child of the searched directory, has the inode on disk and the name asked for, and holds one reference |
| `PathModel.EntryKeeps` | fs/namei.c:161-193 | find_entry nets one reference on a child of the directory where the mounts lead, none for NULL |
| `PathModel.StepStands` | fs/namei.c:237-284 | every component leaves the walk with exactly one reference, below the root, or with none when it fails; ".." never fails |
| `PathModel.NameThenUp` | fs/namei.c:237-284 | a name and ".." behind it lead back to the directory, or to what is mounted on it |
| `PathModel.WalkStands` | fs/namei.c:217-284 | so does any sequence of components: no path leads above the root or leaks a reference |
| `PathModel.LandedStands` | fs/namei.c:195-293 | a lookup ends below the root on a dentry that nothing is mounted on, with one reference, or fails with none |
| `PathModel.StepFailsIff` | fs/namei.c:265-284 | a component stops the walk exactly if it is a name and the walk stands on no directory, or nothing in memory or on disk has the name, or a new dentry is needed and kmalloc fails |
| `PathModel.LandedFailsIff` | fs/namei.c:195-293 | a lookup gives NULL exactly if some name of the path stops it for one of the three reasons |
| `PathModel.LandedUp` | fs/namei.c:195-293 | a path without names leads up the tree as it was, stopping at the root, and then to what is mounted there |
| `PathModel.StepCoherent` | fs/namei.c:161-193 | no step makes the names and inodes of cached dentries disagree with the disk |
| `PathModel.RightIff` | fs/namei.c:174-192 | find_entry gives the disk's answer exactly if the first child whose name begins with the name asked for is a link to the same file, and kmalloc had room if it was needed |
| `PathModel.LongerNameHides` | fs/namei.c:180 | a cached "ab" is found for "a", which is not on disk |
| `PathModel.NewestFirst` | fs/namei.c:174-189 | a dentry just got from disk is found for every beginning of its name, before all older ones |
| `PathModel.FoundAgain` | fs/namei.c:174-192 | the same search again finds the same dentry |
| `PathModel.WalkResolves` | fs/namei.c:195-293 | over a cache that agrees with the disk every name on the way of any path is resolved as on disk, if no file has a longer name that begins with it |
| `PathWalk.Walker.constructor` | fs/super.c:101-111 | the first task stands in droot, with its references counted |
| `PathWalk.Walker.Select` | fs/namei.c:174-190 | the search finds exactly the first child in memory that passes the test, else the dentry of the inode on disk, cached or new, and leaves exactly the cache of the reference search |
| `PathWalk.Walker.FindEntry` | fs/namei.c:161-193 | result and cache are exactly those of the reference step |
| `PathWalk.Walker.StepUp` | fs/namei.c:237-264 | "..": result and cache are exactly those of the reference step, also for a task without a root at droot |
| `PathWalk.Walker.StepInto` | fs/namei.c:265-284 | a name: result and cache are exactly those of the reference step |
| `PathWalk.Walker.Finish` | fs/namei.c:285-292 | result and cache are exactly those of following the mounts |
| `PathWalk.Walker.LandingStands` | fs/namei.c:195-293 | for every path and every state of a task: where it leads is below the root, it fails exactly if a name stops it, and a path without names leads to one known dentry |
| `PathWalk.Walker.ShortPaths` | fs/namei.c:197-216 | the empty path leads to the working directory and "/" to the root, or to droot where there is none, and from there to what is mounted |
| `PathWalk.Walker.AbsolutePath` | fs/namei.c:205-208 | a path behind a slash leads where it leads for a task that stands in this one's root |
| `PathWalk.Walker.RelativePath` | fs/namei.c:197-214 | for a path without a leading slash two tasks with the same working directory and limit get the same |
| `PathWalk.Walker.PathFromDroot` | fs/namei.c:210-214 | from droot a path leads where it leads for a task whose root and working directory are droot |
| `PathWalk.Walker.ParentOfRoot` | fs/namei.c:240-247 | "/.." leads where "/" leads |
| `PathWalk.Walker.Lookup` | fs/namei.c:195-293 | result and cache are exactly those of walking the components of the path one by one and following the mounts at the end; one reference and below the root on success, none on failure; NULL exactly if a name stops it |
| `PathWalk.Walker.BelowRoot` | fs/namei.c:42-53 | the check of chdir against the root always passes |
| `PathWalk.Walker.SysChdir` | fs/namei.c:32-66 | succeeds exactly if the lookup finds a directory, which then is the working directory; the cache afterwards is exact in all cases; a refusal changes no reference; the root stays above the working directory |
| `PathWalk.Walker.SysChroot` | fs/namei.c:68-89 | succeeds exactly if the lookup from droot finds a directory, which then is root and working directory with two references; the cache afterwards is exact in all cases; a refusal changes no reference |
| `Minix.DataOnDisk` | fs/minix/block.c:9-31 | a Minix block is its 1024 bytes of the device |
| `Minix.PathInjective` | fs/minix/block.c:55-115 | no two file blocks share an entry of the block map |
| `Minix.PathsInOrder` | fs/minix/block.c:55-115 | file blocks go through the seven direct zones, then through the entries of the indirect block in order, then through the inner blocks in order, each from its first entry on |
| `Minix.ZoneOfLayout` | fs/minix/block.c:55-115 | for a file laid out on disk with any list of zones the block map gives exactly this list |
| `Minix.ContentOfLayout` | fs/minix/read.c:6-53 | the content of such a file without holes is the data of its zones one after the other, up to its size |
| `Minix.Reader.GetMinixBlock` | fs/minix/block.c:9-31 | the block's bytes, counted as held; nothing held if it cannot be read |
| `Minix.Reader.Bmap` | fs/minix/block.c:55-115 | the zone the three-level map gives for a file block, 0 for a hole at any level or an indirect block that cannot be read; every block is put back |
| `Minix.Reader.Round` | fs/minix/read.c:16-49 | one round of the copy loop: a hole, an unreadable block or data, with the bytes of the file in the buffer |
| `Minix.Reader.FileRead` | fs/minix/read.c:6-53 | the buffer gets the bytes of the file at the old position as far as the disk can be read, holes as zeros, and nothing behind them changes; -EIO exactly for no bytes; no block stays held |
| `Minix.ContentIff` | fs/minix/read.c:6-53 | what a read returns is what the file holds on the whole device, whatever the missing blocks contain, exactly if no indirect block on the way to a returned byte is missing |
| `Minix.LostIndirect` | fs/minix/read.c:16-49 | on a disk with a missing indirect block zeros are returned that the file need not hold |
| `Minix.ReadShape` | fs/minix/read.c:15-52 | how far any read gets and where it leaves the position, by the first gap in the file |
| `Minix.FullReadIff` | fs/minix/read.c:15-52 | when a read returns all it can |
| `Minix.PositionIff` | fs/minix/read.c:28-48 | when the position moves by the returned count |
| `Minix.HoleAtEnd` | fs/minix/read.c:40-48 | a hole that ends the file is not returned, yet the position moves behind it |
| `Minix.HoleFreeRead` | fs/minix/read.c:6-53 | without holes a read returns the smaller of the size and the rest of the file |
| `Minix.ReadsJoin` | fs/minix/read.c:6-53 | reads of a hole-free file return it without gaps and overlaps |
| `Minix.ReadToEnd` | fs/minix/read.c:6-53 | once a read of at least one byte gives -EIO, the reads before have returned all the rest |
| `Div64.Div64By32` | lib/div64.c:27-58 | n = q * base + r with r < base for every 64-bit n and 32-bit base, without overflow |
| `Div64.DoDiv64` | include/div64.h:71-81 | quotient and remainder, on the fast path too |
| `Div64.DivU64` | include/div64.h:83-104 | the exact quotient by a 32-bit divisor |
| `Div64.Div64By64` | lib/div64.c:78-92 | the quotient or one more; exact for 32-bit divisors |
| `Div64.ApproximateQuotient` | lib/div64.c:78-92 | the error of the shifted division is at most one and never downwards |
| `Div64.ExactIff` | lib/div64.c:78-92 | a divisor gives exact quotients for all dividends exactly if the bits shifted out of it are zeros |
| `Div64.IterDiv` | include/div64.h:117-134 | remainder and 32-bit wrapped quotient by repeated subtraction |
| `Numerals.DigitsValue` | lib/vsprintf.c:165-171 | the digits printed denote the number |
| `Numerals.DigitsLength` | lib/vsprintf.c:132-171 | a 64-bit number has at most 64 digits, so the buffer of 66 is enough |
| `Numerals.DigitInTable` | lib/vsprintf.c:134-138 | the digits are those of the source's tables, small or capital |
| `Numerals.ParsesUnique` | lib/vsprintf.c:75-98 | a string parses in one way |
| `Numerals.SimpleStrtoull` | lib/vsprintf.c:75-98 | the value modulo 2^64 of the longest row of digits behind the prefix, and its end |
| `Numerals.SimpleStrtoll` | lib/vsprintf.c:106-111 | the negated or plain value as a 64-bit signed number, and where parsing ended |
| `Numerals.UndoesDigits` | lib/vsprintf.c:75-98 | parsing undoes printing for every 64-bit value and base 2 to 16 and stops at the end |
| `Numerals.UndoesOctal` | lib/vsprintf.c:79-88 | base 0 undoes a leading 0 |
| `Numerals.UndoesHex` | lib/vsprintf.c:79-88 | base 0 undoes a leading 0x |
| `Numerals.UndoesDecimal` | lib/vsprintf.c:79-88 | base 0 undoes plain decimal |
| `Numerals.MissesLargeHex` | lib/vsprintf.c:79-88 | base 0 does not undo a leading 0X |
| `Vsnprintf.NumberWidth` | lib/vsprintf.c:130-225 | a number takes its field width, or what sign, prefix and digits need if that is more |
| `Vsnprintf.StrtoullUndoesNumber` | lib/vsprintf.c:75-225 | simple_strtoull undoes number() for every 64-bit value and base 2 to 16 |
| `Vsnprintf.NumberInts` | lib/vsprintf.c:130-225 | the counters of number() stay ints while its output is shorter than 2^31 - 3 |
| `PrintfStandard.NumberConformsIff` | lib/vsprintf.c:130-225 | number() prints the text of section 7.19.6.1 of ISO/IEC 9899:1999 exactly under a condition on flags, value, width and precision |
| `PrintfStandard.ConversionConformsIff` | lib/vsprintf.c:403-451 | so do the conversions d, i, o, u, x and X with the arguments and qualifiers they read |
| `PrintfStandard.PrecisionConformsIff` | lib/vsprintf.c:296-309 | a precision is read as the standard reads it exactly if it is not a negative argument |
| `PrintfStandard.NegativePrecisionNumber` | lib/vsprintf.c:173-174 | for numbers a negative precision argument makes no difference |
| `PrintfStandard.NegativePrecisionText` | lib/vsprintf.c:345-369 | for a text it makes none exactly if the text is blank and fits its field |
| `PrintfStandard.HexZeroExample` | lib/vsprintf.c:188-200 | "%#x" of 0 prints a prefix |
| `PrintfStandard.OctalZeroExample` | lib/vsprintf.c:188-192 | "%#o" of 0 prints two zeros |
| `PrintfStandard.NoDigitExample` | lib/vsprintf.c:164-166 | "%.0u" of 0 prints a digit |
| `PrintfStandard.ZeroFlagExample` | lib/vsprintf.c:202-208 | "%03.1u" pads with zeros although a precision is given |
| `PrintfStandard.NegativePrecisionExample` | lib/vsprintf.c:302-308 | "%.*s" with -1 prints nothing of the text |
| `Vsnprintf.StoreDigits` | lib/vsprintf.c:165-171 | the temporary buffer holds the digits in reverse and does not overflow |
| `Vsnprintf.SkipAtoi` | lib/vsprintf.c:113-120 | the value of the longest row of decimal digits, if it stays an int, and what follows it |
| `Vsnprintf.ReadDirective` | lib/vsprintf.c:269-320 | flags, width, precision and qualifier are read as the reference parser reads them |
| `PrintfStandard.RenderedParsed` | lib/vsprintf.c:269-320 | whatever flags, width, precision and qualifier are written before a conversion are what is read |
| `Vsnprintf.Printer.Put` | lib/vsprintf.c:263-267 | a character behind the end is counted but not stored |
| `Vsnprintf.Printer.Number` | lib/vsprintf.c:130-225 | prints the padded number of the reference; nothing for a base below 2 or above 36 |
| `Vsnprintf.Printer.Convert` | lib/vsprintf.c:325-451 | every conversion prints the text of the reference |
| `Vsnprintf.Printer.Print` | lib/vsprintf.c:262-452 | the whole format prints the text of the reference and stores its counts for "%n" |
| `Vsnprintf.Vsnprintf` | lib/vsprintf.c:237-462 | for every address and size: the buffer gets the unbounded text cut to the room the code takes with a NUL behind it, and the result is the length of the unbounded text |
| `Vsnprintf.CutIff` | lib/vsprintf.c:254-260 | the output is cut to the size for every text exactly if the buffer does not start at address 0 |
| `Vsnprintf.NullBuffer` | lib/vsprintf.c:254-260 | with a null buffer and size 0 the whole text and its NUL are written from address 0 on |
| `Vsnprintf.FormattedExtends` | lib/vsprintf.c:262-452 | what was printed before does not influence the text of the rest |
| `Vsnprintf.LiteralText` | lib/vsprintf.c:262-267 | text without a percent sign is printed as it is |
| `Vsnprintf.StrtoullUndoesFormat` | lib/vsprintf.c:75-462 | base 0 of simple_strtoull undoes "%llu", "%#llo" and "%#llx" for every 64-bit value |
| `PrintfLaws.SignShown` | lib/vsprintf.c:144-157 | a signed number begins with a minus sign exactly if it is negative, else with a plus sign or a space exactly as the flags say |
| `PrintfLaws.StrtollUndoesFormat` | lib/vsprintf.c:106-462 | simple_strtoll undoes "%d" for every int and "%lld" for every long long |
| `PrintfLaws.IntegerMeans` | lib/vsprintf.c:433-449 | the argument is cut to the width of its qualifier and read as signed or unsigned |
| `PrintfLaws.CharText` | lib/vsprintf.c:326-343 | "%c" prints the low byte of its argument |
| `PrintfLaws.StringText` | lib/vsprintf.c:345-369 | "%s" prints its text, or `<NULL>` for a null pointer, cut to the precision, in its field |
| `PrintfLaws.FieldText` | lib/vsprintf.c:352-368 | a text in a field stands on the side asked for, with spaces on the other |
| `PrintfLaws.PointerText` | lib/vsprintf.c:371-379 | "%p" prints all eight hexadecimal digits of its argument |
| `PrintfLaws.CountStored` | lib/vsprintf.c:382-395 | "%n" stores how many characters came before it and prints nothing |
| `PrintfLaws.PercentText` | lib/vsprintf.c:397-401 | "%%" prints a percent sign and takes no argument |
| `PrintfLaws.UnknownConversion` | lib/vsprintf.c:420-431 | a conversion that does not exist prints itself and takes no argument |
| `PrintfLaws.LonePercent` | lib/vsprintf.c:420-431 | a percent sign at the end of the format prints itself |
| `PrintfLaws.OtherSpellings` | lib/vsprintf.c:403-418 | "%X" is "%x" in capitals and "%i" is "%d" |
| `PrintfLaws.ArgumentsInOrder` | lib/vsprintf.c:262-452 | every other conversion takes one argument, and the next directive the next one |
| `PrintfLaws.StarWidth` | lib/vsprintf.c:286-294 | a width argument is read like the same number in the format, a negative one like "-" and its absolute value |
| `PrintfLaws.StarPrecision` | lib/vsprintf.c:302-306 | a precision argument that is not negative is read like the same number in the format |
| `PrintfLaws.BufferHolds` | lib/vsprintf.c:453-457 | as a C string the buffer holds the text, or what leaves room for the NUL, and behind that what it held before |
| `IntrusiveList.Insert` | include/list.h:38-46 | the new entry is joined to both neighbours |
| `IntrusiveList.ListAdd` | include/list.h:56-59 | the entry comes first; only it, the head and the first entry are touched |
| `IntrusiveList.ListAddTail` | include/list.h:70-73 | the entry comes last |
| `IntrusiveList.ListDel` | include/list.h:94-97 | exactly this entry leaves its list |
| `IntrusiveList.ListDelInit` | include/list.h:126-130 | exactly this entry leaves and becomes an empty list |
| `IntrusiveList.ListMove` | include/list.h:137-141 | the entry leaves its list and comes first in another |
| `IntrusiveList.ListMoveToFront` | include/list.h:137-141 | the entry comes first in its own list |
| `IntrusiveList.ListSpliceInit` | include/list.h:288-295 | all entries go in front of those of the other list; the old head is empty |
| `IntrusiveList.ListCutPosition` | include/list.h:229-241 | the entries up to the given one go to the new head, in order; an empty list leaves the new head untouched |
| `IntrusiveList.ListEmpty` | include/list.h:170-173 | whether the sequence is empty |
| `IntrusiveList.ListIsSingular` | include/list.h:198-201 | whether the sequence has one entry |
| `IntrusiveList.ForEach` | include/list.h:339-341 | the walk visits the entries in order, each once |

## Left out

- Hardware and assembly (boot, descriptor tables, interrupt controller, port I/O, context switch), drivers, user tools: no machine model.
- Boot-time sizing in kernel/mm/init.c: well-formed, disjoint, page-aligned zones below 2^32 that do not straddle a type limit are the allocator's precondition; page contents are not modelled.
- page_to_virt and virt_to_page: a frame is named by its physical address throughout.
- PageTable.PageTables.LoadPage: the address 0xFFFFF000, which RangeTest shows to be admitted, and an address whose page is already mapped (a BUG_ON of the source) are excluded.
- HighMem: the two halves of the file that repeat the buddy algorithm are the operations of a zone; highmem_init is not modelled.
- Slab.SlabAllocator.Kmalloc: a size whose class index is -1 (0 or too large) is a BUG_ON of the source and excluded.
- Scheduler: tasks are names, so two tasks never share a list node; the order of irq_save nesting is not modelled.
- Process.Processes.KernelThread: signals, open files, the inherited root and pwd and the kernel stack are not modelled.
- Process.Processes.KthreadRelease: the dput of root and pwd and the release of the page directory belong to the other modules; the stray semicolon after the test of task->root (kernel/sched.c:269) is not modelled.
- Process.Processes.SysExit: closing files and the SIGCHLD of a user-mode task are not modelled.
- Process.Processes.SysWaitPid: one round of the wait loop; the source keeps the pointer it looked up, the model looks the pid up again.
- Timer.TimerWheel.DoTimer: callbacks only append to a log, so they neither add nor delete timers; jiffies does not wrap.
- Timer.TimerWheel.AddTimer: the combination of expires 0 with endless repetition is a BUG_ON of the source and excluded.
- Dentry: inode reference counts and the use_list of a super block are not modelled.
- Dentry.DentryCache.Mount: only the successful mount; do_mount leaves the reference and the mount pointer behind when no file system accepts the device.
- Dentry.DentryCache.Dget: the parent is not droot, whose child list is never initialised; the call without a parent is part of Mount.
- PathWalk.Walker.Lookup: the content of directories is a parameter that stays fixed during one lookup, so minix_lookup is outside; the disk lookup does not let other tasks run in between, and it finds names only that fit a directory entry, so that the name it copies is the one asked for.
- PathWalk.Walker.SysChdir: a task without a working directory is excluded, because the source would pass NULL to dput.
- sys_getcwd and open_namei: they use the same upward walk and lookup.
- Minix.Reader.GetMinixBlock: a failing kmalloc is not modelled; the source then keeps the block it read.
- Minix.Reader.FileRead: positions at or above the limit of the block map hit a BUG_ON and are excluded; writing and readdir are not modelled.
- div_s64_rem, simple_strtoul and simple_strtol: variants of members that are modelled.
- Vsnprintf.Vsnprintf: arguments that are missing or of the wrong kind read as zero; the length modifiers hh, j, z and t of the standard, which the source does not know, are no part of the comparison with it.
- vsscanf, raw block-device reads, sys_dup2, signal masking and irq nesting: their natural contracts do not hold or they add nothing harder.
