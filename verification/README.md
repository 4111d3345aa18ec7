# A verified model of the kernel's memory manager, scheduler and tools

The project models the 32-bit x86 teaching kernel under `source/` and proves what its memory manager, scheduler,
mutexes, semaphores, lists, number formatting and ELF loader do.

**Memory.** Physical memory is one array of frames; directories, page tables, stacks and data all live in it. A bitmap
hands out frames. `Paging.dfy` says what a state is (`World`) and gives the invariant `Inv`: every frame in use has one
owner, every reference in a table of the kernel or of a user half is to a frame owned for that purpose, and all directories
share the kernel's lower half. `Memory.dfy` has the operations as methods that update the array in place; their contracts
are relations between worlds (`Spaces.dfy`, `Teardown.dfy`). `Budget.dfy` counts frames: it gives the exact condition, on
the state before the call, for each operation to succeed, and for it to leak. `Shortage.dfy` shows the leaks on concrete
states. `Ownership.dfy` takes the operations over whole runs. `Boot.dfy` makes the first kernel map, from which runs
start. `Bytes.dfy`, `Access.dfy`, `UserCopy.dfy` and `Args.dfy` read and write memory byte by byte through page tables, up
to the arguments of a new program; `Strays.dfy` has concrete states in which such a store misses its target.

**Scheduling.** `Tasks.dfy` has each step as a function on states, `TaskManager.dfy`, `Mutex.dfy` and `Semaphore.dfy` the
code that updates the lists, proved equal to those functions. A task can be switched out in the middle of
`task_time_tick`; the set `walking` records who still owes the second half, and the step `Resume` does it.
`Scheduling.dfy` is the transition system over all of it, `Kernel.dfy` shows that the code makes its steps, and
`Effects.dfy` says what each step does without the functions that compute it. `Timing.dfy`, `Sleeping.dfy`, `Effects.dfy`
and `Handoff.dfy` are the theorems over runs. `AtomicAlloc.dfy` puts the frame allocator on top, split into single reads
and writes that any other step may come between.

**Tools.** `List.dfy` (intrusive lists), `RunLists.dfy` (the scheduler's moves on these lists), `Kitoa.dfy` (number
formatting), `Bitmap.dfy`, `ElfFormat.dfy` (the layout of ELF files), `Elf.dfy` (segment loader).

`dafny verify dfyconfig.toml` checks everything.

## Where the code and its intent differ

- `memory_destroy_uvm` starts at the slot of the directory's own address (memory.c:389) although its comment and its
  sibling mean the first user slot. `DestroyUvmAsWritten` is the code; `SourceWalkOverreaches` and `WalkIsExactIff` say
  what is wrong with it. The other operations use `DestroyUvm`, which starts at the user half.
- `memory_create_map` has no return statement on success (memory.c:173); 0 stands for it.
- `memory_alloc_for_page_dir` returns 0 when it fails, and its rollback names a virtual address (memory.c:314-324), so
  nothing is given back. `AllocForPageDir` says exactly when it fails and when a frame leaks; `AllocLeaks` and
  `AllocLeakInput` show it.
- A request for more than 0xFFFFF000 bytes is rounded up to none, and nothing is mapped: `RequestedBytes`.
- `memory_copy_uvm2` leaks a frame when `memory_create_map` fails after it was taken: `CopyUvm2` says exactly when;
  `ForkLeaks` and `ForkLeakInput` show it.
- `sys_fork` tests the unsigned result of the copy for being below 0 and so never sees a failure: `ForkFailureUnseen`.
- `memory_get_paddr` does not look at the present bit of the page entry: `PaddrMissesUnmapped` is the exact condition for
  its result to be right. `memory_copy_uvm_data` then writes to frame 0 and reports success: `CopySucceedsIff`,
  `CopyGoesAstray`, `StrayCopyInput`.
- `bitmap_alloc_nbits` looks at one bit too few for runs of two or more: `RunIsWhole` is the exact condition. The kernel
  asks for one bit only.
- `sys_sleep` drops its caller for 0 ms and where the rounding wraps: `SleepLosesExactly`.
- `copy_args` writes its pointer table through one physical address: `TableEntryExact` is the exact condition for an
  entry, `PassArg` says what the first entry outside of it does, and `StrayEntryInput` is a call with one.

## Model

| member | source | states |
|---|---|---|
| `Bitmaps.Bitmap.constructor` | source/kernel/tools/bitmap.c:12-18 | the first `count` bits all have the initial value; bytes behind the bitmap stay as they were |
| `Bitmaps.Bitmap.GetBit` | source/kernel/tools/bitmap.c:36-41 | reads one bit of the row of bits that the bytes stand for |
| `Bitmaps.BitIsShifted` | source/kernel/tools/bitmap.c:36-41 | bit k is the one that shifting its byte right by k % 8 brings to the end |
| `Bitmaps.Bitmap.SetBit` | source/kernel/tools/bitmap.c:23-32 | sets exactly the bits of the range that lie inside the bitmap, whatever the count |
| `Bitmaps.Bitmap.AllocNbits` | source/kernel/tools/bitmap.c:52-85 | for any count and bit 0 or 1: the answer is the first run of the bits really examined, and the new bits are the old ones with the run set; -1 leaves the bitmap alone |
| `Bitmaps.SingleBit` | source/kernel/tools/bitmap.c:52-85 | for one bit the answer is the least index holding it, and -1 iff none does |
| `Bitmaps.RunIsWhole` | source/kernel/tools/bitmap.c:67-81 | for every count: the answer is the first whole run, or -1 when there is none, if and only if the first run of count - 1 bits, should there be one, is followed by one more such bit: a condition on the bits alone, always met for one bit |
| `Bitmaps.LookAheadMissesLastBit` | source/kernel/tools/bitmap.c:69-70 | a request for two bits that is granted although the second is in use, and that misses the whole run further on |
| `Allocator.PageAllocator.constructor` | source/kernel/core/memory.c:19-25 | the pool starts with no frame in use |
| `Allocator.PageAllocator.AllocPage` | source/kernel/core/memory.c:32-48 | hands out the lowest frame not in use and records exactly it; 0 iff all are in use |
| `Allocator.PageAllocator.FreePages` | source/kernel/core/memory.c:55-62 | frees exactly the range; frames below the pool wrap around in unsigned arithmetic and free nothing |
| `Allocator.LeastFree` | source/kernel/core/memory.c:38-43 | the bitmap's answer, read as a frame number, is the least free frame, and setting its bit adds exactly that frame to the set |
| `Allocator.FreeRange` | source/kernel/core/memory.c:58-59 | clearing a range of bits removes exactly those frames from the set |
| `Mmu.AddressIndices` | source/kernel/include/cpu/mmu.h:56-72 | the directory index, table index and offset of an address put together from them (32-bit paging, Intel SDM volume 3A, section 4.3) |
| `Mmu.IndicesAddress` | source/kernel/include/cpu/mmu.h:56-72 | an address is put together from its own indices and offset |
| `Mmu.EntryFields` | source/kernel/include/cpu/mmu.h:63-86 | the frame number, present bit and low ten bits of an entry are those it was made of |
| `Boot.CreateKernelTable` | source/kernel/core/memory.c:177-206 | for every list of identity maps in order: afterwards each page of a map is mapped to itself with the map's permissions and no other page is, if the pool has more than 512 frames; only tables are taken from the pool |
| `Boot.MapsByAddress` | source/kernel/core/memory.c:196-205 | a page is mapped to itself with the rights of a map exactly if it holds an address of the map, counted from the page of its start; an end in the last page of the address space wraps around |
| `Boot.KernelMapsIdentity` | source/kernel/core/memory.c:185-191 | with the source's four maps every frame of a pool between 1 MB and 127 MB is mapped to itself |
| `Boot.StartMemory` | source/kernel/core/memory.c:230-258 | boot: the new manager's invariant holds and only tables are in use; with a pool of more than 512 frames between 1 MB and 127 MB, the kernel's stack, its data and the memory from 1 MB to 127 MB are mapped to themselves writable, its text read-only, and nothing else is mapped; this is where runs start |
| `Boot.TablesLeaveRoom` | source/kernel/core/memory.c:130-134 | the tables of one directory cannot use up a pool of more than 512 frames |
| `Memory.MemoryManager.constructor` | source/kernel/core/memory.c:244-258 | an empty pool over the bits given and an empty kernel directory satisfy the invariant; allocator and bitmap are new objects |
| `Memory.MemoryManager.AllocPage` | source/kernel/core/memory.c:350-353 | a frame that nothing refers to, the lowest one, or 0 iff the pool is full |
| `Memory.MemoryManager.FreePage` | source/kernel/core/memory.c:357-362 | a kernel stack goes back to the pool and nothing else changes hands |
| `Memory.MemoryManager.FindPte` | source/kernel/core/memory.c:110-147 | an existing table is found and nothing changes; a missing one is created, zeroed, or not found because that was not asked for or the pool is full |
| `Spaces.NewTableGrows` | source/kernel/core/memory.c:133-142 | creating a table changes no translation of any space, that of its own directory included |
| `Memory.MemoryManager.CreateMap` | source/kernel/core/memory.c:150-174 | functional update: the first n pages of the span are mapped to their frames, every other entry of every directory is as before, no data changes; n is the whole count, and the result 0, exactly if there are as many free frames as slots of the span without a table |
| `Memory.MemoryManager.AddPage` | source/kernel/core/memory.c:311-328 | one turn of the loop, each outcome by what is free before it: no frame; one frame and no table, with the frame taken and lost; or the page mapped |
| `Memory.MemoryManager.CreateUvm` | source/kernel/core/memory.c:211-227 | a new directory with the kernel half shared and an empty user half, all other spaces and data as before; 0 iff the pool is full |
| `Memory.MemoryManager.AllocStack` | source/kernel/core/task.c:38-42 | a kernel stack is a frame of its own |
| `Memory.MemoryManager.Kmemcpy` | source/kernel/tools/klib.c:67-77 | the bytes read through the space in use arrive in the data frame in order, all other memory is the same; a null source copies nothing |
| `Memory.MemoryManager.AllocForPageDir` | source/kernel/core/memory.c:304-331 | all pages are mapped exactly if the free frames before the call are at least the pages plus the slots of the span without a table; otherwise the pages before the first missing frame are, the result is 0 all the same, and one frame leaks exactly if that missing frame was for a table |
| `Memory.RequestedBytes` | source/kernel/core/memory.c:304-331 | the request in bytes: from a page boundary on, up to 0xFFFFF000 bytes are all mapped, with the rights asked for, if and only if the free frames cover the pages that they touch and the missing tables; no page from va + size on is touched. A larger request rounds to no page and changes nothing |
| `Budget.SpanBudget` | source/kernel/core/memory.c:304-331 | pages mapped one by one until a frame is missing: all are mapped exactly if the frames free at the start suffice for the pages and the missing tables, and what is left is the difference |
| `Shortage.AllocLeaks` | source/kernel/core/memory.c:311-328 | one free frame and no table for the first page: nothing is mapped, the result is 0, and that frame is lost |
| `Shortage.AllocLeakInput` | source/kernel/core/memory.c:311-328 | such a state and request, in full |
| `Memory.MemoryManager.Rollback` | source/kernel/core/memory.c:322 | freeing by virtual address gives no frame back |
| `Memory.MemoryManager.DestroyUvmAsWritten` | source/kernel/core/memory.c:388-415 | as written: it frees exactly the directory and what its slots from that of its own address on reach |
| `Teardown.SourceWalkOverreaches` | source/kernel/core/memory.c:389 | as written it is never exact: the whole pool from the directory's 4-MByte block upwards is freed, whoever owns it |
| `Teardown.WalkIsExactIff` | source/kernel/core/memory.c:388-415 | a walk from a lower slot frees exactly the frames of the directory if and only if the kernel has no table between that slot and the user half |
| `Teardown.UserWalkIsExact` | source/kernel/core/memory.c:394-414 | a walk over the user half frees each frame of the directory and no other |
| `Memory.MemoryManager.DestroyUvm` | source/kernel/core/memory.c:388-415 | started at the user half it frees exactly the frames owned by the space, reads no table after freeing it, and keeps the invariant |
| `Memory.MemoryManager.CopyUvm2` | source/kernel/core/memory.c:474-522 | fork: it succeeds exactly if the free frames are at least the mapped user pages plus the user slots that have one; then the user halves agree page by page in mapping, low ten bits and all 4096 bytes, and only the new space has grown. Otherwise the result is 0xFFFFFFFF, the new directory is gone and nothing else has changed, but for one leaked frame exactly if the first frame missing was for a table |
| `Budget.StopsShort` | source/kernel/core/memory.c:497-520 | a copy that stops has fewer free frames than pages and slots to copy, and where it stops, so whether a frame leaks, follows from the state before it |
| `Shortage.ForkLeaks` | source/kernel/core/memory.c:498-508 | if the first frame missing is one for a table, fork fails and loses a frame |
| `Shortage.ForkLeakInput` | source/kernel/core/memory.c:498-508 | such a state, in full: one user page, one free frame |
| `Spaces.CopyStep` | source/kernel/core/memory.c:497-511 | one page copied, at any point of the walk, extends the copied part by that page and disturbs no page copied before |
| `Teardown.GrowthUndone` | source/kernel/core/memory.c:516-519 | destroying a space that grew from an empty user half leaves the frames in use exactly as before its creation, less the directory |
| `Teardown.LeakUndone` | source/kernel/core/memory.c:498-508 | after the new directory is destroyed, the frames in use are those from before its creation and the one that leaked, no other |
| `Ownership.InvOneOwner` | source/kernel/core/memory.c:32-62 | a frame is in use iff exactly one thing refers to it: one PDE, one user PTE, or what is recorded for it: a directory, a stack, or a caller's hand |
| `Ownership.ForkedSpace` | source/kernel/core/memory.c:474-514 | fork seen by a program: at every user address the new space has the same rights and byte as the old one, in another frame; the old space and all others keep their translations and bytes |
| `Ownership.ForkFailureUnseen` | source/kernel/core/task.c:459-461 | sys_fork's test for a result below 0 never holds, also when the copy fails, and then neither the number that the child gets for its page directory nor the one it had names a directory |
| `Ownership.SpacesDisjoint` | source/kernel/core/memory.c:474-514 | two directories share no user page and no user table |
| `Ownership.TablesOpen` | source/kernel/core/memory.c:131-133 | in every state of a run each page-directory entry grants all rights, so the rights of a page are those of its own entry |
| `Ownership.IdentityEverywhere` | source/kernel/core/memory.c:139-141 | physical addresses of the pool are valid pointers to themselves in every address space |
| `Ownership.StepSafe` | source/kernel/core/memory.c:304-522 | each operation keeps the ownership invariant, and every space that it does not work on |
| `Ownership.Perform` | source/kernel/core/memory.c:211-522 | the methods of the memory manager do, for every operation but a store, exactly what the steps of a run allow |
| `Ownership.CopyIsWrite` | source/kernel/core/memory.c:268-293 | the stores of memory_copy_uvm_data are a store operation of a run, those that go astray to frame 0 included |
| `Ownership.ArgsIsWrite` | source/kernel/core/task.c:597-624 | so are those of copy_args, on pages of the new space and on the kernel stack |
| `Ownership.OwnershipOverRuns` | source/kernel/core/memory.c:211-522 | after any run of create, allocate, fork, destroy, stack and write operations every frame in use has exactly one owner and all directories agree with the kernel's lower half |
| `Ownership.IsolationOverRuns` | source/kernel/core/memory.c:211-522 | over any run, a space that no operation targets keeps all translations and all bytes |
| `Ownership.DestroyUndoesBuild` | source/kernel/core/memory.c:211-227 | create, any growth, destroy: the frames in use are what they were and every other space is as it was |
| `UserCopy.GetPaddr` | source/kernel/core/memory.c:525-532 | the model of the address translation, present bit of the page entry ignored |
| `UserCopy.PaddrTranslates` | source/kernel/core/memory.c:525-532 | for a mapped address the result is its translation |
| `UserCopy.PaddrMissesUnmapped` | source/kernel/core/memory.c:525-532 | for a user address, the result is 0 exactly for unmapped addresses if and only if the address has no table, or a present entry, or offset 0; elsewhere the result is the offset, an address in frame 0 |
| `UserCopy.CopyUvmData` | source/kernel/core/memory.c:268-293 | for any start offset, scattering of frames and missing mappings: the bytes copied are where the target tables lead, frame 0 for a missing entry, no other byte changed, and the copy stops with -1 at the first page whose translation is 0 |
| `UserCopy.CopyToMapped` | source/kernel/core/memory.c:268-293 | with the target mapped the copy never stops, read through the target tables the bytes are the source's, and only pages of the target space changed |
| `UserCopy.CopySucceedsIff` | source/kernel/core/memory.c:268-293 | success is reported exactly if every target address is mapped, but for the first page when its slot has a table and the target starts inside the page |
| `UserCopy.CopyGoesAstray` | source/kernel/core/memory.c:268-293 | in that case the first chunk overwrites frame 0, the target space gets none of it, and the copy goes on |
| `Strays.StrayCopyInput` | source/kernel/core/memory.c:268-293 | such a state and request, in full |
| `Access.VaInjective` | source/kernel/core/memory.c:268-293 | two mapped user addresses of a space that have the same byte of memory are the same address |
| `Args.CopyArgs` | source/kernel/core/task.c:597-624 | if the entries of the pointer table lie as far apart in memory as in the address space: the block decodes through the new tables to argc, the table's address and, entry by entry, the original strings; only pages of the new space and the local structure change |
| `Args.NextDest` | source/kernel/core/task.c:601-620 | the strings lie behind the pointer table and each other without a gap |
| `Args.PassArg` | source/kernel/core/task.c:608-618 | one turn of the loop, after turns that went well: string and entry arrive, or, if the entry is the first that is not together with the table, it keeps its old word and the pointer overwrites a word of another frame |
| `Args.ArrivedString` | source/kernel/core/task.c:611-613 | a string that has arrived is NUL-terminated at the same length |
| `Args.TableEntryExact` | source/kernel/core/task.c:607-617 | an entry of the pointer table is stored where the new program will read it if and only if the entry's page lies as far behind the block's first page in memory as in the address space |
| `Args.OnePageTable` | source/kernel/core/task.c:604-607 | a table within one page meets that condition for every entry |
| `Strays.StrayEntryInput` | source/kernel/core/task.c:604-617 | a state and a call with 1022 arguments for which the first 1021 entries are in place and the last one would overwrite the kernel stack of another task |
| `Args.Kstrlen` | source/kernel/tools/klib.c:37-50 | the length up to the NUL, 0 for a null pointer |
| `TaskManagers.TaskManager.constructor` | source/kernel/core/task.c:164-230 | the first task runs and is alone on the ready list; it and the idle task have a slice of 10 |
| `TaskManagers.TaskManager.SetReady` | source/kernel/core/task.c:240-247 | any task but idle goes to the back of the ready list |
| `TaskManagers.TaskManager.SetBlocked` | source/kernel/core/task.c:251-257 | the task is cut out of the ready list, wherever it is |
| `TaskManagers.TaskManager.Dispatch` | source/kernel/core/task.c:260-309 | the head of the ready list runs, or the idle task |
| `TaskManagers.TaskManager.Yield` | source/kernel/core/task.c:275-291 | with two or more ready tasks the caller goes to the back and the second one runs; otherwise nothing changes |
| `TaskManagers.TaskManager.TimeTick` | source/kernel/core/task.c:314-341 | the whole tick up to a switch; a task switched out by it is recorded as still owing the sleep-list walk |
| `TaskManagers.TaskManager.ResumeTick` | source/kernel/core/task.c:328-341 | the rest of the tick when that task runs again |
| `TaskManagers.TaskManager.WalkSleepList` | source/kernel/core/task.c:328-338 | the loop that removes nodes while it walks equals taking one tick from every sleeper and moving those at zero, in order, to the ready list |
| `TaskManagers.TaskManager.Sleep` | source/kernel/core/task.c:345-371 | sleep keeps the shape; the number of ticks is rounded up on 32 bits |
| `TaskManagers.TaskManager.Exit` | source/kernel/core/task.c:708-721 | the running task is off the ready list for good, and the second one runs, or the idle task |
| `TaskManagers.TaskManager.Start` | source/kernel/core/task.c:155-161 | the new task is behind all ready tasks with a slice of 10 and no ticks to sleep; the running task and all other fields are as before |
| `Tasks.TickedShape` | source/kernel/core/task.c:314-341 | the tick, whichever way it goes, keeps the running task at the head of the ready list and every list free of repetitions |
| `Tasks.ResumedShape` | source/kernel/core/task.c:328-341 | so does the resumed half, and the task that resumed goes on running |
| `Tasks.SleepLosesExactly` | source/kernel/core/task.c:345-365 | sys_sleep drops its caller from every list if and only if ms is 0 or the rounding wraps around |
| `Scheduling.NextKeeps` | source/kernel/core/task.c:240-371 | every step of the transition system keeps the invariant of scheduler, mutexes and semaphores together |
| `Effects.NextEffect` | source/kernel/core/task.c:155-371 | what each of the ten steps does in every reachable state, list by list and field by field, as a relation without the functions that compute it: who moves where, whose slice and ticks change, and that nothing else does |
| `Effects.NeverStuck` | source/kernel/core/task.c:155-371 | in every reachable state the clock can tick or a pending tick can be finished, and a task that runs outside of a tick can make every call |
| `Effects.StartedRuns` | source/kernel/core/task.c:155-161 | on every run a started task runs before 10 ticks have gone by for each task that was ready before it |
| `Scheduling.InvOneHome` | source/kernel/core/task.c:240-371 | every started task is on exactly one list, or has exited or been dropped |
| `Scheduling.ShapeOverRuns` | source/kernel/core/task.c:240-371 | after any run the running task is the head of the ready list, or idle with that list empty, and every task has one home |
| `Scheduling.NobodyLost` | source/kernel/core/task.c:361-371 | no task is dropped in a run whose sleeps all last at least a tick |
| `Scheduling.InitialInv` | source/kernel/core/task.c:202-230 | the initial system satisfies the invariant, with any number of mutexes and semaphores |
| `Kernels.Kernel.constructor` | source/kernel/core/task.c:164-230 | the objects of task manager, mutexes and semaphores start as the initial system of a run |
| `Kernels.Kernel.Perform` | source/kernel/core/task.c:155-371 | from every state with the invariant the code of each step leads to the state that the transition system has, on the objects themselves |
| `Scheduling.GoneForGood` | source/kernel/core/task.c:708-721 | a task that has exited, or that a sleep of no ticks has dropped, never runs again, whatever the others do |
| `Effects.ExitedNeverRuns` | source/kernel/core/task.c:708-721 | a task that calls sys_exit never runs again |
| `Timing.SliceEnds` | source/kernel/core/task.c:316-325 | a tick that ends a slice sends the task to the back with a full slice and puts the walk off; any other tick leaves it running |
| `Timing.WaitFalls` | source/kernel/core/task.c:240-257 | for a waiting ready task the slices ahead of it fall by exactly one on every tick and never rise on any other step |
| `Timing.BoundedWaiting` | source/kernel/core/task.c:314-325 | a task at position k of the ready list runs before 10 * k ticks have gone by, whatever the others do |
| `Sleeping.TickAccounting` | source/kernel/core/task.c:314-341 | on every run, ticks = walks done + walks owed by tasks switched out in the middle of a tick |
| `Sleeping.SleepsOn` | source/kernel/core/task.c:328-338 | a sleeper with n walks to go stays asleep while fewer than n walks are done, whatever else happens |
| `Sleeping.WakesOnTime` | source/kernel/core/task.c:314-371 | it becomes ready on exactly the n-th walk, and the ticks it slept differ from n by the walks owed at both ends, so by no more than the number of ready tasks |
| `Sleeping.SleepBegins` | source/kernel/core/task.c:361-371 | sys_sleep of ms milliseconds asks for ms / 10 walks, rounded up |
| `Effects.SleepsBehind` | source/kernel/core/task.c:345-353 | a task that falls asleep is behind all sleepers |
| `Effects.WakeInOrder` | source/kernel/core/task.c:328-338 | over every run, two sleepers whose time is up on the same walk become ready in the order in which they fell asleep |
| `Mutexes.Mutex.Acquire` | source/kernel/ipc/mutex.c:12-30 | the step on mutex and task lists together; both invariants kept |
| `Mutexes.Mutex.Release` | source/kernel/ipc/mutex.c:32-54 | only the owner's release counts; the last one hands over to the first waiter directly |
| `Mutexes.AcquiredKeeps` | source/kernel/ipc/mutex.c:12-30 | acquire keeps: count 0 iff no owner, waiters only while owned, the owner never waits |
| `Mutexes.ReleasedKeeps` | source/kernel/ipc/mutex.c:32-54 | release keeps the same, and its caller goes on running |
| `Handoff.CountIsBalance` | source/kernel/ipc/mutex.c:12-54 | on every run the count of the owner is its acquire calls less its releases, and a waiting task has exactly its one call open |
| `Handoff.MutualExclusion` | source/kernel/ipc/mutex.c:12-54 | on every run the tasks between a returned acquire and its release are exactly the owner: never two |
| `Handoff.AcquireReturnsToOwner` | source/kernel/ipc/mutex.c:21-26 | a task that waited owns the mutex with count 1 when it runs again |
| `Handoff.MutexIsFifo` | source/kernel/ipc/mutex.c:38-48 | on every run those who had to wait gain the mutex in the order in which they called |
| `Semaphores.Semaphore.Wait` | source/kernel/ipc/sem.c:11-27 | the step on semaphore and task lists together; both invariants kept |
| `Semaphores.Semaphore.Notify` | source/kernel/ipc/sem.c:30-46 | the step on semaphore and task lists together, also from an interrupt while idle |
| `Semaphores.WaitedKeeps` | source/kernel/ipc/sem.c:11-27 | a wait keeps: count not negative, and no waiters while it is positive |
| `Semaphores.NotifiedKeeps` | source/kernel/ipc/sem.c:30-46 | a notify keeps the same, and its caller goes on running |
| `Handoff.SignalsConserved` | source/kernel/ipc/sem.c:5-46 | on every run initial count + notifies = count + waits granted; no signal is lost |
| `Handoff.SemIsFifo` | source/kernel/ipc/sem.c:24-38 | on every run waiting tasks are served in the order of their calls |
| `AtomicAlloc.PoolNextKeeps` | source/kernel/core/memory.c:32-62 | with search, read and write of a byte as separate steps and any other step in between: a task is inside exactly if it owns the mutex, once, or waits for it and has done nothing yet, and what the owner has read is still true |
| `AtomicAlloc.TakesEffectAtOnce` | source/kernel/core/memory.c:32-62 | each effective step does what an allocator without preemption does: least free frame, failure only if none is free, or exactly one frame freed; no other step changes the pool |
| `AtomicAlloc.OneEffectPerCall` | source/kernel/core/memory.c:32-62 | over every run, between a task's entry into the allocator and its leaving exactly one step is effective; it is for what the task entered for, and yields the result the task leaves with |
| `AtomicAlloc.CallsDoTheirWork` | source/kernel/core/memory.c:32-62 | over every run that one step frees exactly the frame that the call named, or hands its caller the least free frame, or nothing because none is free |
| `AtomicAlloc.CallsGoOn` | source/kernel/core/memory.c:32-62 | a task that runs can always take the next step of the call that it is in |
| `AtomicAlloc.FreeWhenUnused` | source/kernel/core/memory.c:32-62 | the allocator's mutex is free whenever no task is inside |
| `AtomicAlloc.EmptyPoolStarts` | source/kernel/core/memory.c:19-25 | the empty pool of the initial system satisfies the invariant |
| `AtomicAlloc.NeverHandedOutTwice` | source/kernel/core/memory.c:32-62 | in every interleaving a frame handed out twice was freed in between |
| `Lists.List.InsertFront` | source/kernel/tools/list.c:9-23 | prepends; all links consistent; only the node and the old first node are touched |
| `Lists.List.InsertBack` | source/kernel/tools/list.c:26-40 | appends; all links consistent; only the node and the old last node are touched |
| `Lists.List.RemoveFront` | source/kernel/tools/list.c:44-63 | takes the first member off, with its links cleared; null iff empty |
| `Lists.List.Remove` | source/kernel/tools/list.c:67-87 | cuts a member out anywhere, links cleared, only its neighbours touched |
| `Lists.Requeue` | source/kernel/core/task.c:333-335 | a node goes from one list to the back of another, and a third list over other nodes is untouched |
| `Lists.SharedNode` | source/kernel/include/tools/list.h:4-7 | lists that share a node are the same list: a node can be on one list only |
| `RunLists.SetBlocked` | source/kernel/core/task.c:251-257 | on the linked lists themselves: unlinking the task's node, without a search, is the step on task sequences |
| `RunLists.WalkSleepList` | source/kernel/core/task.c:328-338 | on the linked lists themselves: the walk that follows each next pointer read before its node is unlinked and requeued is the walk on task sequences |
| `Kitoa.Itoa` | source/kernel/tools/klib.c:109-151 | the buffer holds the formatted number and a NUL, and nothing behind it is written |
| `Kitoa.ReverseInPlace` | source/kernel/tools/klib.c:144-150 | the swaps from both ends are a reversal of exactly that part of the buffer |
| `Kitoa.LowestReversed` | source/kernel/tools/klib.c:126-140 | digits lowest first, reversed, are the numeral |
| `Kitoa.RoundTrip` | source/kernel/tools/klib.c:109-151 | reading the text back gives the number; in bases 2, 8 and 16 a negative one comes back with 2^32 added |
| `Kitoa.FormattedShape` | source/kernel/tools/klib.c:109-151 | no leading zero, at most 32 characters, empty iff the base is not supported |
| `Kitoa.TableDigit` | source/kernel/tools/klib.c:110-128 | the table around index 15 yields the digit for remainders of either sign |
| `Elf.ReloadElfFile` | source/loader/loader_32.c:35-66 | refused with 0 and no write without the four magic bytes. Otherwise, for the header and program headers encoded in the file, the result is e_entry, each address of a segment with p_type 1 has the byte of the file or zero that the last such segment has for it, and all other memory is as it was |
| `ElfFormat.HeaderIsAt` | source/comm/elf.h:15-30 | the 52 bytes of a header, all fields in order and lowest byte first, lie at an address exactly if each field is read back at its offset (System V gABI, chapter 4, ELF Header) |
| `ElfFormat.ProgramHeaderIsAt` | source/comm/elf.h:34-43 | the same for the 32 bytes of a program header (System V gABI, chapter 5, Program Header) |
| `Elf.HeaderFields` | source/loader/loader_32.c:36-45 | of an encoded header the loader reads e_entry, e_phoff, e_phnum and the magic bytes |
| `Elf.SegmentFields` | source/loader/loader_32.c:45-58 | of the i-th encoded program header it reads p_type, p_offset, p_paddr, p_filesz and p_memsz |
| `Elf.EveryFile` | source/loader/loader_32.c:35-45 | every file that the loader accepts is such an encoding |
| `Elf.FileAccepted` | source/loader/loader_32.c:35-62 | every encoding whose headers and segments lie inside the file, with p_filesz at most p_memsz and not loaded over itself, is accepted |
| `Elf.ImageOfSegments` | source/loader/loader_32.c:44-62 | segments that do not overlap each hold their bytes of the file, then zeros, and all other memory is as it was (System V gABI, chapter 5, Program Header) |
| `Elf.ExtentIsMemsz` | source/loader/loader_32.c:50-61 | a segment is loaded to p_memsz bytes iff p_filesz is not above it; the unsigned wrap-around of the other case fits in no memory |
| `Elf.LoadedBy` | source/loader/loader_32.c:44-62 | where segments overlap the last one decides |
| `Elf.SameHeaders` | source/loader/loader_32.c:44-47 | the headers, read anew in every round, are those of the file as it was |
| `Elf.LoadSegment` | source/loader/loader_32.c:50-61 | one segment copied and its tail zeroed, nothing else changed |

## Left out

- Memory.MemoryManager.CopyUvm2: uses the teardown that starts at the user half when it fails, not the one as written.
- Memory.MemoryManager.FreePage: covers kernel addresses (a stack, or a frame in hand); the branch for user addresses has an inverted assertion.
- Memory.MemoryManager.CreateMap: a map over pages that are mapped already is excluded, as by the assertion of the source.
- Memory.MemoryManager.AllocForPageDir: pages that are mapped already and spans that leave the user half are excluded; the callers ask for neither.
- Args.CopyArgs: `argc` is given; `strings_count` is not modelled, and so argument pointers are not null. Of a pointer table whose entries are not all together, what happens is stated up to and including the first such entry (`Args.PassArg`), because its store may hit any frame, a page table too.
- Elf.ReloadElfFile: files whose headers or segments reach outside of the buffer, and segments that are loaded over the buffer itself or past the end of memory, are excluded.
- Memory.MemoryManager.Kmemcpy: covers destinations within one frame that do not overlap the source, as its callers in the memory manager have them.
- Ownership.InvOneOwner: the references to directories, stacks and frames in hand are held by task structures and by local variables, which are not part of the model; the owner record stands for them.
- UserCopy.CopyUvmData: sources that are not mapped, for which the processor faults, sources that overlap the target, and targets in the kernel half are excluded.
- TaskManagers.TaskManager: keeps its lists as sequences of tasks; on linked nodes are `RunLists.SetBlocked` and `RunLists.WalkSleepList`, and the two kinds of insertion and removal in `List.dfy`.
- AtomicAlloc: the search and the change of a byte are steps on the row of bits; the C code of the bitmap is modelled in `Bitmap.dfy`, without preemption.
- The bytes of the bitmap are an array of their own, not part of physical memory; so are the task structures and their lists.
- The accessed and dirty bits that the processor sets in page tables, and the TLB.
- Page faults: kernel code that follows a user pointer finds it mapped.
- `sys_fork`: only its memory part is modelled, and its test of the result (`Ownership.ForkFailureUnseen`).
- `sys_execve`, `load_elf_file`, `load_phdr`: thin glue, and the latter two stop after the first loadable segment.
- `memory_copy_uvm`: unused sibling of `memory_copy_uvm2`.
- The `state` field of a task: one of its assignments is a comparison (task.c:351), so lists say where a task is.
- Wrap-around of `locked_count` and of the count of a semaphore, which are taken as unbounded.
- Context switch through TSS and far jump, `irq_enter_protection` and `irq_leave_protection`: a stretch of code with interrupts off is one step.
- Task table, GDT, system call dispatch, devices, boot sector, file system, logging: no content for these proofs, or hardware.
- `kstrcpy`, `kstrncpy`, `kstrncmp`: their loops do not implement the usual contracts, and nothing here needs them.
