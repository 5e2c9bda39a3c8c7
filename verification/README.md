# Verification of the kernel's memory, scheduling, processes and device tree

This project models the logic of an AArch64 hobby kernel in Dafny and proves
properties of it. `dafny verify dfyconfig.toml` checks all of it. Each module
follows one component:

- **Memory.** Physical pages and their chain (`Frames`), the 64-bit words of
  translation tables (`Descriptors`, `TableWords`), four-level trees of them over real table
  pages (`PageTree`, `Paging`, `TableDestroy`), the bitmap and region
  allocators (`Bitmap`, `Region`), virtual memory (`Vmm`, `MapOwned`, `Fork`),
  address spaces (`AddressSpaces`), and the kernel with any number of them over
  its one memory (`KernelMemory`, `Kernels`). Main results: mapping and
  unmapping change exactly the translations asked for; a fork is an exact and
  isolated copy; over every run no page is lost, owned twice, or free and in
  use.
- **Scheduling.** The scheduler as a state machine over any number of CPUs
  (`Scheduling`, `SchedulerRuns`), what each of its steps does (`SchedulerEffects`),
  the code that refines it (`Schedulers`), and the intrusive lists it is built
  on (`IntrusiveLists`). Main results, over all interleavings: tasks are where
  their states say, all asserts hold, waiting and waking keep order, and a
  round-robin bound.
- **Processes.** fork, exit, wait4 and the cleanup task (`Lifecycle`,
  `Processes`). Main results: no parent waits in vain, every exit is accounted
  for once with the status it passed, every address space is destroyed once.
- **Locks.** Spinlocks with interrupt masking (`Spinlocks`), semaphores and
  mutexes (`Semaphores`, `Mutexes`). Main results: mutual exclusion, panics on
  misuse only, no wake-up lost.
- **Files.** Reference counts and descriptor tables (`FileReferences`,
  `FdTables`). Main result: counts are references, and every file is closed
  once.
- **Heap.** The first-fit free list (`HeapBlocks`, `FreeLists`). Main result:
  freeing everything, in any order, restores the maximal blocks.
- **Device tree.** Writer, readers and validator of flattened device trees
  (`FdtFormat`, `Fdt`, `FdtRo`, `FdtSw`, `FdtCheck`, `FdtLookup`,
  `FdtRoundTrip`, `FdtTree`, `FdtPaths`), against the Devicetree Specification.
  Main results: the validator accepts exactly the well-formed blobs; a written
  tree is read back and determined by its blob, and looking up a path and a
  property in the blob gives what the tree has there.
- **Loading.** The segments of executables (`Elf`) and their loading into an
  address space, byte by byte (`PageBytes`, `ElfLoad`). Main result: after a
  load every address of every segment translates to the file's byte or to
  zero, with the segment's permissions, and no frame is lost on the way.
- **Terminal.** The UTF-8 decoder (`Utf8`) and the framebuffer overlay
  (`Overlay`). Main results: exactly the well-formed sequences are decoded, and
  queue and grid together show one screen.

Code that updates state in place is a class or a method over arrays, proved
against functions on values; what the code promises over many calls is proved
of those functions. Ghost parameters name what the caller of a routine knows:
the tables of a tree, the pages it maps, the tokens of a blob.

## Model

| member | source | states |
|---|---|---|
| `Descriptors.DecodeEncode` | kernel/mm/paging.h:45-88 | reading a table or page word back through its bit fields gives the fields that were written |
| `Descriptors.EncodeDecode` | kernel/mm/paging.h:45-88 | every 64-bit word is the encoding of the fields it is read as, so no bit is lost either way |
| `TableWords.PageEntryWord` | kernel/mm/paging.h:22-88 | the word of a mapped page bit by bit: bits 0, 1 and 10 set, each field at its place with its number, all other bits zero |
| `TableWords.TableEntryWord` | kernel/mm/paging.c:307-328 | the word of a table entry is the address of the table and its two lowest bits |
| `TableWords.WalkIsLeaf` | kernel/mm/paging.c:264-330 | the four-level walk of the processor over the words themselves ends at the frame that the tree maps, and fails exactly where the tree maps nothing |
| `Frames.Machine.PmmAlloc` | kernel/mm/pmm.c:64-74 | hands out the head of the free chain zeroed, or fails exactly when the chain is empty; no other page changes |
| `Frames.Machine.PmmFree` | kernel/mm/pmm.c:76-89 | puts a held page at the head of the chain; no other page changes |
| `Frames.Machine.PmmFreeRange` | kernel/mm/pmm.c:112-121 | frees exactly the whole pages of a range, in the order in which they will be handed out |
| `PageTree.LookupZeroIffUnmapped` | kernel/mm/paging.c:243-262 | exactly when a lookup answers 0, and that a mapped address translates to its frame with its offset in the page |
| `PageTree.UnmapUndoesMap` | kernel/mm/paging.c:169-241 | unmapping what was just mapped gives every translation in the address space back |
| `Paging.PagingMap` | kernel/mm/paging.c:169-215 | after mapping, exactly the pages of the range translate to consecutive frames; each leaf word, bit by bit, is valid, a page and accessed, with the given permissions, type and shareability and nothing else set; every other translation is as before, and only missing tables left the free list |
| `Paging.PagingUnmap` | kernel/mm/paging.c:217-241 | after unmapping, exactly the pages of the range have no translation; tables and the free list are as before |
| `Paging.PagingLookupDesc` | kernel/mm/paging.c:243-246 | finds the leaf word of an address through four levels exactly when the leaf table exists |
| `Paging.PagingLookup` | kernel/mm/paging.c:254-262 | the physical address that the translation tree gives, with nothing changed |
| `TableDestroy.PagingDestroyTable` | kernel/mm/paging.c:58-82 | destroying a tree releases every table and every page still mapped, each exactly once |
| `TableDestroy.FreesOnlyTablesIffUnmapped` | kernel/mm/paging.c:58-82 | it releases just the tables if and only if nothing is mapped any more |
| `Bitmap.ClearUndoesMark` | lib/allocator/bitmap.c:129-163 | marking a free run and clearing it is the identity on the bitmap |
| `Bitmap.AllocBitMap.Alloc` | lib/allocator/bitmap.c:22-32 | takes the lowest run of free pages, or fails exactly when there is none |
| `Bitmap.AllocBitMap.Reserve` | lib/allocator/bitmap.c:38-52 | takes a given run if all of it is free, else nothing |
| `Bitmap.AllocBitMap.Free` | lib/allocator/bitmap.c:54-59 | clears exactly the bits of the run |
| `Bitmap.AllocBitMap.CopyFrom` | lib/allocator/bitmap.c:62-80 | takes over the other bitmap's bits, pages beyond it free, or refuses a larger one and changes nothing |
| `Region.AllocRegion.Find` | lib/allocator/region.c:110-118 | the first slot with the address, or ENOENT exactly when no slot has it |
| `Region.AllocRegion.Alloc` | lib/allocator/region.c:120-137 | takes the lowest free run and the first empty slot; fails exactly when the table is full or no run exists, with nothing changed; bits and table stay in agreement |
| `Region.AllocRegion.Reserve` | lib/allocator/region.c:142-158 | takes a given range, all or nothing, failing exactly when the table is full or a page is taken; bits and table stay in agreement |
| `Region.AllocRegion.Free` | lib/allocator/region.c:160-175 | gives back exactly the entry at the address and its bits; bits and table stay in agreement |
| `Region.AllocRegion.CopyFrom` | lib/allocator/region.c:57-98 | takes over bits and table with addresses moved to this pool, refusing a smaller destination with nothing changed |
| `Region.CopyAgreesIffTailEmpty` | lib/allocator/region.c:57-98 | a copy's bits and table agree if and only if the destination had nothing in the slots beyond the source's |
| `Region.AllocRegion.FreshRegionValidIffZeroed` | lib/allocator/region.c:19-54 | a created region is sound if and only if the storage the heap handed out for its bitmap was zero |
| `Region.FreeUndoesTake` | lib/allocator/region.c:120-175 | freeing what was just taken restores the bits and the table |
| `Ownership.OwnOneMore` | kernel/mm/vmm.c:196-231 | mapping a held frame that is not yet in the tree makes the tree the owner of exactly one more page |
| `Ownership.OwnOneLess` | kernel/mm/vmm.c:260-278 | unmapping a page and freeing its frame takes exactly that page out of the tree's ownership |
| `Vmm.VmAlloc` | kernel/mm/vmm.c:196-231 | allocates the lowest free run, each page mapped to a zeroed frame that was free; all other translations, pages and frames stay; fails exactly when table or run is missing, with nothing changed |
| `Vmm.VmFree` | kernel/mm/vmm.c:260-278 | exactly the pages of the allocation are unmapped and their frames return to the free list; frames are conserved |
| `MapOwned.MapRun` | kernel/mm/address_space.c:185-211 | frames handed over by the caller are mapped in order at a reserved run and belong to the tree from then on; frames are conserved |
| `Fork.CopyAddressSpace` | kernel/mm/address_space.c:42-121 | the copy has every page of the original at the same place with the same permissions and bytes in a frame of its own; the original, its bytes included, is untouched; frames are conserved |
| `Fork.ForkReadsAlike` | kernel/mm/address_space.c:42-121 | walked by the processor, original and copy map the same addresses; the words differ in their frames only, and the pages hold the same |
| `AddressSpaces.AddressSpace.Create` | kernel/mm/address_space.c:14-40 | a new address space holds one table and nothing else, is refused exactly without a free frame, and is sound if and only if its bitmap storage was clear |
| `AddressSpaces.UserWord` | kernel/mm/address_space.c:154-163 | the word of a user page bit by bit: normal memory, inner shareable, never executed by the kernel, with the permissions asked for |
| `AddressSpaces.AddressSpace.Alloc` | kernel/mm/address_space.c:154-163 | allocation keeps tree, pages and region in step, at the lowest free run, and conserves frames |
| `AddressSpaces.AddressSpace.MapOwned` | kernel/mm/address_space.c:185-211 | reserving and mapping happen both or neither; fails exactly when the table is full or a page of the range is taken |
| `AddressSpaces.AddressSpace.CreateFrom` | kernel/mm/address_space.c:127-152 | a fork is an exact and isolated copy, takes one frame for each page plus no more tables than the original has, and leaves the original as it was |
| `AddressSpaces.AddressSpace.Destroy` | kernel/mm/address_space.c:213-226 | every table and page goes back to the free list exactly once, and the count of free frames grows by just their number |
| `Kernels.Kernel.Alloc` | kernel/mm/address_space.c:154-163 | with any number of address spaces, an allocation in one is a step that changes no other and keeps every frame with exactly one owner |
| `Kernels.Kernel.MapOwned` | kernel/mm/address_space.c:185-211 | the same for mapping frames that had been handed out: they pass to the one address space |
| `Kernels.Kernel.Create` | kernel/mm/address_space.c:14-40 | a new address space joins the others without sharing frames or storage with any |
| `Kernels.Kernel.Fork` | kernel/mm/address_space.c:127-152 | so does a fork |
| `Kernels.Kernel.Destroy` | kernel/mm/address_space.c:213-226 | destroying one address space frees its frames and leaves all others sound and as they were |
| `Kernels.Kernel.TakeFrame` | kernel/mm/pmm.c:64-74 | a frame handed out by itself leaves the free list and belongs to no address space |
| `Kernels.Kernel.GiveFrame` | kernel/mm/pmm.c:76-89 | it returns to the free list |
| `KernelMemory.StepKeeps` | kernel/mm/address_space.c:14-226 | every such step keeps each address space sound and every frame free, loose, or owned exactly once |
| `KernelMemory.RunIsSound` | kernel/mm/address_space.c:14-226 | over any run from an empty system, no frame is lost, owned twice, or both free and in use |
| `KernelMemory.DestroyingAllRestores` | kernel/mm/address_space.c:213-226 | when every address space is gone and nothing is loose, the free frames are those of the start |
| `Kernels.AllFreeAgain` | kernel/mm/address_space.c:213-226 | the same for the kernel object: its invariant alone gives all frames back |
| `IntrusiveLists.List.InsertSorted` | lib/ds/intrusivelist.c:21-53 | links the node in front of the first that is to come later, behind equal ones |
| `IntrusiveLists.List.InsertAt` | lib/ds/intrusivelist.c:85-123 | inserts at an index, refused exactly when the list is shorter |
| `IntrusiveLists.List.Remove` | lib/ds/intrusivelist.c:125-142 | unlinks exactly the node, the others in order, the node's links cleared |
| `IntrusiveLists.RemoveUndoesInsert` | lib/ds/intrusivelist.c:21-142 | taking out what was put in gives the list back |
| `SchedulerRuns.AfterKeeps` | kernel/sched/scheduler.c:35-341 | every scheduler step keeps the invariant that ties task states, run queues, wait queues and CPUs |
| `SchedulerRuns.TraceInv` | kernel/sched/scheduler.c:35-341 | so it holds in every state of every run from boot, over any number of CPUs and any interleaving |
| `SchedulerRuns.EveryTaskIsWhereItsStateSays` | kernel/sched/scheduler.c:35-341 | a ready task is in its own CPU's run queue and no other, a running one is current on one CPU, a blocked one is in the queue it waits on, once |
| `SchedulerRuns.SwitchAssertsHold` | kernel/sched/scheduler.c:234-341 | in every run, all that is asserted at a switch about the previous and the next task holds |
| `SchedulerRuns.CleanupAssertsHold` | kernel/core/task_manager.c:232-274 | what the cleanup task frees is dead, waits for nothing and is linked in no queue |
| `SchedulerRuns.WakeAllAppendsInOrder` | kernel/sched/scheduler.c:174-193 | waking all empties the queue and appends each CPU's waiters to its run queue in the order they came |
| `SchedulerRuns.TickWakesExactlyTheDue` | kernel/sched/scheduler.c:95-125 | a tick wakes the sleepers whose deadline has come, no others, in deadline order, on their CPU only |
| `SchedulerRuns.RoundRobinBound` | kernel/sched/scheduler_policy.c:9-25 | with at most k tasks in front, a task runs within k + 1 picks on its CPU in every run, unless its process starts to exit |
| `SchedulerRuns.SleepersInDeadlineThenArrivalOrder` | kernel/sched/scheduler.c:66-90 | in every run sleepers stand by deadline, equal deadlines by arrival |
| `SchedulerEffects.WaitersInArrivalOrder` | kernel/sched/scheduler.c:131-193 | in every run, whoever stands in front of another in a wait queue entered it earlier |
| `SchedulerEffects.WakeDoes` | kernel/sched/scheduler.c:156-169 | the head of the queue, the longest waiting, is ready and last in the run queue of its CPU; nothing else changes |
| `SchedulerEffects.YieldDoes` | kernel/sched/scheduler.c:234-341 | an ordinary task that yields goes to the end of the run queue; the CPU goes to the cleanup task when one is due, else to the first task whose process is not exiting, those in front of it dying, else to the idle task; every other task, queue and CPU is as it was |
| `SchedulerEffects.CleanupDoes` | kernel/core/task_manager.c:232-274 | the first dead task of the list is gone, or, with none left, the CPU goes to the next |
| `SchedulerEffects.ExitingIsNeverPicked` | kernel/sched/scheduler.c:195-215 | in no run does a switch pick a task whose process is exiting |
| `Schedulers.SortedInsertFindsEarlier` | kernel/core/task.c:98-103 | the place found by the intrusive list's sorted insertion is that of the queue of sleepers |
| `Schedulers.Scheduler.PickNext` | kernel/sched/scheduler.c:195-215 | the loop's pick is the first task in the queue that is not exiting, exiting ones dying on the way, the idle task if there is none |
| `Schedulers.Scheduler.Switch` | kernel/sched/scheduler.c:234-341 | the switch as it runs is the one whose effect `SchedulerEffects.YieldDoes` and its neighbours tell; its asserts hold |
| `Schedulers.Scheduler.WakeAll` | kernel/sched/scheduler.c:174-193 | all waiters are ready, at the end of the run queues of their CPUs in the order they stood in; the queue is empty and nothing else changes |
| `Schedulers.Scheduler.WakeSleepers` | kernel/sched/scheduler.c:95-125 | the sleepers whose deadline has come, and no others, are ready with their deadline forgotten and queued in deadline order |
| `Schedulers.Scheduler.SleepCurrent` | kernel/sched/scheduler.c:66-90 | the task is blocked among the sleepers, behind all deadlines up to its own, and its CPU goes to the next |
| `Schedulers.Scheduler.BlockOn` | kernel/sched/scheduler.c:131-151 | the task is blocked at the end of the wait queue, and its CPU goes to the next |
| `Schedulers.Scheduler.TaskExit` | kernel/core/task.c:80-86 | the task is dead and its CPU goes to the cleanup task; nothing else changes |
| `Schedulers.Scheduler.CleanupRound` | kernel/core/task_manager.c:232-274 | the first dead task of the list is freed, or, with none left, the CPU goes to the next |
| `Lifecycle.DoKeeps` | kernel/syscall/sys_process.c:12-138 | fork, exit, wait4 and cleanup keep the invariant that ties families, threads, wait queues and books |
| `Lifecycle.NoParentWaitsInVain` | kernel/syscall/sys_process.c:33-138 | in no run does a parent stay blocked in wait4 while it has a zombie child or no child |
| `Lifecycle.EveryExitIsAccountedFor` | kernel/syscall/sys_process.c:33-138 | in every run each exited process is a zombie or has been returned, once, with its own exit code, never both |
| `Lifecycle.DestructionAssertsHold` | kernel/core/process_manager.c:239-262 | in every run the asserts at the destruction of a process hold, and a collected child is returned if and only if the copy to the caller succeeded |
| `Lifecycle.EverySpaceIsDestroyedOnce` | kernel/core/task_manager.c:232-274 | in every run each process's address space is destroyed once, and before the process is returned |
| `Lifecycle.LostIsNeverReturned` | kernel/syscall/sys_process.c:109-124 | a child whose exit code could not be copied out stays a zombie in every later state |
| `Lifecycle.ForkedStaysListed` | kernel/core/process_manager.c:172-183 | in every run a forked process stays on its parent's list until wait4 collects it or the parent is gone |
| `Lifecycle.ExitCodeIsStatus` | kernel/syscall/sys_process.c:33-42 | in every run what is recorded of an exit is the status that the process itself passed to exit, at an earlier step |
| `Lifecycle.ReturnedCodeIsStatus` | kernel/syscall/sys_process.c:87-138 | so is every code that wait4 returned |
| `Processes.InvSuffices` | kernel/syscall/sys_process.c:12-138 | what the system calls rely on follows from that invariant |
| `Processes.ProcessManager.SysFork` | kernel/syscall/sys_process.c:12-31 | the new process is no zombie, has no children, one ready thread last in the run queue, and the caller as its parent, on whose list of children it is last; every other process and task is as it was |
| `Processes.ProcessManager.SysExit` | kernel/syscall/sys_process.c:33-51 | the caller is a zombie with the status as its exit code and its thread dead; all who waited for a child of the parent are ready in the order they came; every other process, task and queue is as it was |
| `Processes.ProcessManager.SysWait4` | kernel/syscall/sys_process.c:87-138 | the first zombie child is taken off the list and returned with its exit code, or lost if the copy fails; without children there is nothing to wait for; with none a zombie the caller is blocked at the end of its own queue; all else is as it was |
| `Processes.ProcessManager.CleanupRound` | kernel/core/task_manager.c:232-274 | the dead task is freed and its process has no thread left; if that is exiting, its address space is destroyed, once |
| `FdtFormat.OffsetPtrIsBounds` | thirdparty/libfdt/fdt.c:139-158 | the overflow-proof range check in 32-bit arithmetic is the check that unbounded arithmetic would make |
| `FdtFormat.WordIsBigEndian` | thirdparty/libfdt/libfdt_env.h:29-57 | the words of a blob are big-endian |
| `FdtFormat.TokenSpelled` | thirdparty/libfdt/fdt.h:53-59 | the bytes of every token: its number, 1, 2, 3, 4 or 9, then name or length, name offset and value |
| `Fdt.NextTag` | thirdparty/libfdt/fdt.c:160-218 | returns the token that the bytes spell and where the next begins, or the error when they spell none |
| `Fdt.SpellsUnique` | thirdparty/libfdt/fdt.c:160-218 | a structure block can be read as tokens in one way only |
| `FdtCheck.CheckHeader` | thirdparty/libfdt/fdt.c:89-137 | accepts a header exactly when magic, versions, size and all blocks are in order |
| `FdtCheck.CheckFull` | thirdparty/libfdt/fdt_check.c:13-98 | accepts a blob exactly when its header is sound, its reserve map ends and its structure block is well formed |
| `FdtRo.GetString` | thirdparty/libfdt/fdt_ro.c:33-97 | finds the string that stands at an offset of the string table, and fails only when none does |
| `FdtRo.GetName` | thirdparty/libfdt/fdt_ro.c:301-337 | answers the node's name exactly when a node begins at the offset |
| `FdtRo.NumMemRsv` | thirdparty/libfdt/fdt_ro.c:188-198 | the number of reserve entries before the empty one, or truncated exactly when there is no empty one |
| `FdtRo.GetMemRsv` | thirdparty/libfdt/fdt_ro.c:174-186 | the entry at an index, or bad offset exactly when it is outside |
| `FdtRo.GetPropByOffset` | thirdparty/libfdt/fdt_ro.c:460-491 | name and value of the property that starts at an offset |
| `FdtLookup.GetProp` | thirdparty/libfdt/fdt_ro.c:493-497 | the first property of the node with that name, and not found exactly when it has none |
| `FdtLookup.NextNode` | thirdparty/libfdt/fdt.c:244-282 | the next node in the order of the block with its depth, or where the walk ends; from a negative offset, the first node |
| `FdtLookup.SubnodeOffset` | thirdparty/libfdt/fdt_ro.c:224-240 | the first direct subnode whose name matches, unit address optional, and not found exactly when none does |
| `FdtPaths.PathOffset` | thirdparty/libfdt/fdt_ro.c:248-294 | an absolute path leads to the node that its names lead to one after the other, and fails exactly when they lead to none |
| `FdtPaths.SearchFindsChild` | thirdparty/libfdt/fdt_ro.c:224-240 | in a written tree a subnode search finds exactly the first subtree whose name matches |
| `FdtPaths.PathFindsNode` | thirdparty/libfdt/fdt_ro.c:248-294 | in a written tree a path leads exactly to the node that its names lead to in the tree |
| `FdtPaths.ReadProperty` | thirdparty/libfdt/fdt_ro.c:248-497 | in a written tree, the lookup of a path and then of a property of the node found answers exactly the tree's own value, or nothing where the tree has none |
| `FdtSw.Writer.Create` | thirdparty/libfdt/fdt_sw.c:109-141 | starts a blob, with the exact errors |
| `FdtSw.Writer.AddReservemapEntry` | thirdparty/libfdt/fdt_sw.c:187-205 | appends one entry, or fails exactly without room and changes nothing |
| `FdtSw.Writer.FinishReservemap` | thirdparty/libfdt/fdt_sw.c:207-216 | closes the reserve map, or fails exactly without room and changes nothing |
| `FdtSw.Writer.BeginNode` | thirdparty/libfdt/fdt_sw.c:218-233 | records one more call in the bytes, or fails exactly without room and changes nothing |
| `FdtSw.Writer.EndNode` | thirdparty/libfdt/fdt_sw.c:235-247 | records one more call in the bytes, or fails exactly without room and changes nothing |
| `FdtSw.Writer.FindAddString` | thirdparty/libfdt/fdt_sw.c:275-290 | the offset of a place where the name stands, an old one if there is any, and 0 exactly when a new one has no room |
| `FdtSw.Writer.Property` | thirdparty/libfdt/fdt_sw.c:292-334 | records the property with its name in the string table, or fails exactly without room, a name just added taken out again |
| `FdtSw.Writer.Finish` | thirdparty/libfdt/fdt_sw.c:336-383 | after closing and moving the string table every call is still recorded, every name offset corrected; the blob is finished |
| `FdtSw.RoomTestIsRight` | thirdparty/libfdt/fdt_sw.c:249-264 | the room test for a name in 32-bit arithmetic is right if and only if the name fits beside the names already there |
| `FdtSw.LongNameIsNotRefused` | thirdparty/libfdt/fdt_sw.c:249-264 | an input for which it is wrong |
| `FdtRoundTrip.CallReadsBack` | thirdparty/libfdt/fdt_ro.c:301-491 | every call recorded in a finished blob is read back by the readers as it was made |
| `FdtRoundTrip.AcceptedIffNested` | thirdparty/libfdt/fdt_check.c:13-98 | the validator accepts a written blob if and only if the calls nest |
| `FdtRoundTrip.BlobDeterminesCalls` | thirdparty/libfdt/fdt_sw.c:187-383 | two sequences of calls that give the same blob are the same |
| `FdtTree.TreeNests` | thirdparty/libfdt/fdt_check.c:13-98 | the calls that write a tree nest if and only if its root has an empty name |
| `FdtTree.TreeRoundTrip` | thirdparty/libfdt/fdt_sw.c:187-383 | a written tree is accepted if and only if its root has an empty name, no other tree gives the same blob, and every call is read back |
| `FdtTree.LookupFindsProperty` | thirdparty/libfdt/fdt_ro.c:394-417 | a lookup in a written tree finds the property of that name, with its value |
| `FdtTree.LookupFindsNothingElse` | thirdparty/libfdt/fdt_ro.c:394-417 | and nothing under a name the node does not have |
| `HeapBlocks.CanonicalUnique` | lib/allocator/freelist.c:80-159 | the free bytes determine the sorted, fully merged free list |
| `HeapBlocks.InsertedCanonical` | lib/allocator/freelist.c:80-159 | freeing keeps the list sorted and fully merged, and adds exactly the block's bytes |
| `FreeLists.RunSound` | lib/allocator/freelist.c:12-159 | over any run live and free blocks partition the regions, header by header, with no overlap |
| `FreeLists.LiveWasServed` | lib/allocator/freelist.c:21-78 | in every run each live block was handed out by an allocation that asked for no more than it holds behind its header |
| `FreeLists.PayloadsApart` | lib/allocator/freelist.c:21-78 | in every run the bytes that two allocations asked for share nothing, lie in the regions, and meet no free block or header |
| `FreeLists.AllFreedRestores` | lib/allocator/freelist.c:80-159 | once everything is freed, in whatever order, the list is that of the maximal regions |
| `FreeLists.FreeUndoesAlloc` | lib/allocator/freelist.c:21-116 | freeing what was just allocated gives the list back |
| `FreeLists.FreeList.constructor` | lib/allocator/freelist.c:12-19 | an initialised heap is sound if and only if the memory given to it had a null link where the first block's is |
| `FreeLists.NeededIsEnoughIff` | lib/allocator/freelist.c:21-40 | the block looked for holds the header and the bytes asked for if and only if their sum is below 2^64 |
| `FreeLists.HugeSizeNeedsLittle` | lib/allocator/freelist.c:21-40 | a size for which it does not |
| `FreeLists.FreeList.Alloc` | lib/allocator/freelist.c:21-78 | on success one block is new, with its header in front of the pointer and at least the bytes asked for behind it, fewer than a header more; it was free, no longer is, and all other blocks stay; it fails exactly when no block is large enough |
| `FreeLists.FreeList.Free` | lib/allocator/freelist.c:80-116 | the links after a free are those of the merged list: the block's bytes are free, all others as they were, and the other live blocks stay |
| `FreeLists.FreeList.AddRegion` | lib/allocator/freelist.c:118-145 | so are those after a region is added, which joins the regions |
| `FileReferences.DoKeeps` | kernel/core/fd_table.c:80-327 | every operation keeps each file's count equal to the slots and holders that refer to it |
| `FileReferences.NewFileIsHeld` | fs/file.c:5-32 | a new file has one reference, held by whoever made it |
| `FileReferences.ReleaseIsCounted` | fs/file.c:50-53 | giving a reference up takes one away, and closes the file exactly if it was the last |
| `FileReferences.CountsAreReferences` | kernel/sync/refcount.c:15-56 | over any run a file is alive exactly while somebody refers to it |
| `FileReferences.EveryFileIsClosed` | fs/file.c:34-53 | a file that nobody refers to any more has been closed, once |
| `FileReferences.ReservedSlotIsTaken` | kernel/core/fd_table.c:278-327 | replacing takes a slot that somebody has reserved, and the file meant for it can no longer be installed |
| `FileReferences.ReservedStaysIff` | kernel/core/fd_table.c:133-327 | a reserved slot stays reserved if and only if the operation neither installs there, closes the table, nor replaces that slot by an open file |
| `FdTables.DoIsLocal` | kernel/core/fd_table.c:80-327 | what an operation does to one table and the counts does not depend on the other tables |
| `FdTables.FileCounts.FilePut` | fs/file.c:50-53 | takes one from the file's count, closing the file with the last, or reports a drop too many; every other count stays |
| `FdTables.FDTable.Reserve` | kernel/core/fd_table.c:133-150 | the lowest free slot from a minimum on is reserved, without a file; every other slot stays; the exact errors |
| `FdTables.FDTable.InstallAt` | kernel/core/fd_table.c:155-170 | the reserved slot refers to the file, whose held reference it takes over; every other slot stays; the exact errors, with nothing changed |
| `FdTables.FDTable.GetFile` | kernel/core/fd_table.c:188-197 | hands out the file with its count one higher and one more reference held; all other counts and every slot stay |
| `FdTables.FDTable.CloseFile` | kernel/core/fd_table.c:202-220 | the slot is empty and its file's count one lower, the file closed with the last; all other slots and counts stay |
| `FdTables.FDTable.SetCloseOnExec` | kernel/core/fd_table.c:222-240 | the flag of the open slot is set; its file and every other slot stay |
| `FdTables.FDTable.Dup` | kernel/core/fd_table.c:245-273 | the lowest free slot refers to the same file, without the close-on-exec flag, and the file's count is one higher; all other slots and counts stay |
| `FdTables.FDTable.DupAt` | kernel/core/fd_table.c:278-327 | the given slot refers to the same file with the given flag; the file is counted once more, and the one replaced there once less; all other slots and counts stay |
| `FdTables.FDTable.CloseAll` | kernel/core/fd_table.c:80-104 | every slot is empty; each file has lost as many references as there were slots open to it, and is closed if those were all |
| `FdTables.FDTable.CreateFrom` | kernel/core/fd_table.c:109-128 | the copy has the same slots, and each file's count is higher by the number of slots open to it |
| `Spinlocks.MutualExclusion` | kernel/sync/spinlock.c:23-78 | over any interleaving at most one CPU holds a lock, and the lock names no other |
| `Spinlocks.PanicsOnlyOnMisuse` | kernel/sync/spinlock.c:23-78 | acquiring panics exactly when the CPU holds the lock, releasing exactly when it does not, although the owner field is read without the lock |
| `Spinlocks.DepthCountsLocks` | kernel/irq/irq_controller.c:113-146 | the disable depth counts the locks of its CPU, and interrupts are off while it is positive |
| `Spinlocks.FlagIsRestored` | kernel/irq/irq_controller.c:113-146 | whatever the order of releases, interrupts are at the end as before the first acquisition |
| `Spinlocks.AcquireTakes` | kernel/sync/spinlock.c:23-53 | an acquire of a free lock that nobody comes between takes it, names the CPU there and masks interrupts; nothing else changes |
| `Spinlocks.SpinsUntilFree` | kernel/sync/spinlock.c:40-50 | while the lock is taken whoever wants it spins; the exchange that finds it free takes it |
| `Spinlocks.ReleaseFrees` | kernel/sync/spinlock.c:55-78 | a release by the holder frees the lock, and with the last one interrupts are as at the first; nothing else changes |
| `Semaphores.NoWakeUpIsLost` | kernel/sync/semaphore.c:14-69 | over any run units are conserved, the assert at a release holds, and while anybody waits at least as many tasks have been woken and not yet tried again as units are free |
| `Semaphores.AtMostInitialUnits` | kernel/sync/semaphore.c:14-69 | over any run, the tasks told that they have a unit, less the releases, are at most the initial units, and the count is the rest |
| `Semaphores.Semaphore.AcquireTurn` | kernel/sync/semaphore.c:14-33 | told so, the task has a unit and the count is one lower; else there was none, and it is last in the queue |
| `Semaphores.Semaphore.Release` | kernel/sync/semaphore.c:51-69 | the count is one higher, and the first waiter, if any, is taken off the queue to be woken |
| `Mutexes.NoWakeUpIsLost` | kernel/sync/mutex.c:15-77 | over any run waiters imply an owner or a woken waiter that has not tried again |
| `Mutexes.MutualExclusion` | kernel/sync/mutex.c:15-77 | over any run, of those who were told that they have the mutex and have not released it there is at most one, and it is the owner |
| `Mutexes.OwnsUntilRelease` | kernel/sync/mutex.c:15-77 | over any run, whoever is told that it has the mutex owns it until it releases it |
| `Mutexes.Mutex.AcquireTurn` | kernel/sync/mutex.c:15-34 | told so, the task is the owner of a mutex that had none; else the owner stays and the task is last in the queue |
| `Mutexes.Mutex.Release` | kernel/sync/mutex.c:54-77 | the mutex has no owner, and the first waiter, if any, is taken off the queue to be woken |
| `Utf8.WellFormedIsDecoded` | thirdparty/Flanterm/src/flanterm.c:1981-2062 | from any state a well-formed sequence is decoded to its code point, after at most one replacement for what it interrupts |
| `Utf8.GlyphEndsItsEncoding` | thirdparty/Flanterm/src/flanterm.c:1981-2062 | a code point is looked up only at the end of its own well-formed encoding |
| `Utf8.OnlyWellFormedIsDecoded` | thirdparty/Flanterm/src/flanterm.c:1981-2062 | no overlong form, surrogate or value above the range is ever looked up, whatever the input |
| `Utf8.GivenUpAtOnce` | thirdparty/Flanterm/src/flanterm.c:2002-2024 | which sequences are given up at the second byte, and that a replacement is shown for exactly those that are not above the range |
| `Utf8.AboveTheRangeIsSilent` | thirdparty/Flanterm/src/flanterm.c:2002-2024 | an input for which none is shown |
| `Elf.AcceptedIff` | kernel/exec/elf.c:41-64 | the checks in wrapping arithmetic accept exactly the segments whose file part lies in the file and whose memory part ends below the end of the user range; where it begins is not checked |
| `Elf.PagesInRangeIff` | kernel/exec/elf.c:41-106 | the pages of an accepted segment, all of which are handed to the reservation, are in the user range if and only if the segment is empty or does not begin below it |
| `Elf.PageZeroIsAccepted` | kernel/exec/elf.c:41-106 | an accepted segment for which they are not |
| `Elf.LoadableIff` | kernel/exec/elf.c:66-137 | for an accepted segment every copy stays in its page if and only if its last page starts no later than its file part ends |
| `Elf.LongZeroPartIsNotLoadable` | kernel/exec/elf.c:66-137 | an accepted segment for which it does not |
| `Elf.ImageByteIs` | kernel/exec/elf.c:66-137 | the byte that a segment has at each address: the file's, in order, and zero behind its file part |
| `Elf.SegmentPagesAre` | kernel/exec/elf.c:66-95 | the pages that a segment is given are exactly those that it overlaps |
| `PageBytes.BytesComeBack` | kernel/exec/elf.c:110-133 | a page of memory, seen as words by the translation tables, holds whatever bytes are copied into it |
| `PageBytes.LowestByteFirst` | kernel/exec/elf.c:110-133 | the bytes of a page are those of its words, the lowest first |
| `ElfLoad.PageInPool` | kernel/mm/address_space.c:185-202 | the user range consists of exactly the pages that the reservation of an address space may be asked for |
| `ElfLoad.MapNewPage` | kernel/exec/elf.c:98-108 | a zeroed frame joins the address space at the page; it fails exactly when there is no frame, no entry or the page is taken, and then the frame goes back and a program sees no difference |
| `ElfLoad.LoadPage` | kernel/exec/elf.c:97-134 | one page more is seen, with the segment's bytes and permissions, and every other page is seen as before |
| `ElfLoad.MapSection` | kernel/exec/elf.c:66-137 | all pages of an accepted segment are added and no others; it is refused exactly when the checks fail |
| `ElfLoad.Load` | kernel/exec/elf.c:139-172 | a successful load has accepted every segment and added exactly their pages, no two sharing one; a failed one has a rejected segment, no frame or entry left, or a page that is taken; either way all that was there stays, and frames only move between the free list and this address space |
| `ElfLoad.EveryByteIsLoaded` | kernel/exec/elf.c:66-172 | after a successful load the processor, walking the tables, reads the segment's byte at every address of every loaded segment |
| `ElfLoad.FlagsAreObeyed` | kernel/exec/elf.c:66-95 | the word of its page is open to programs, writable exactly with the write flag, executable by programs exactly with the execute flag, and never by the kernel |
| `Overlay.FullQueueCovers` | thirdparty/Flanterm/src/flanterm_backends/fb.c:818-843 | the queue is never full when a new item is needed, so no change is dropped |
| `Overlay.PushShows` | thirdparty/Flanterm/src/flanterm_backends/fb.c:802-843 | through grid and queue a push is an assignment to one cell of the screen |
| `Overlay.ScrolledUpLines` | thirdparty/Flanterm/src/flanterm_backends/fb.c:874-899 | scrolling line by line: between the margins each line takes the one below it, the last is empty, all others stay |
| `Overlay.ScrolledDownLines` | thirdparty/Flanterm/src/flanterm_backends/fb.c:845-872 | and the other way |
| `Overlay.Framebuffer.Push` | thirdparty/Flanterm/src/flanterm_backends/fb.c:818-843 | the same for the arrays, coordinates off the screen ignored |
| `Overlay.Framebuffer.MoveCharacter` | thirdparty/Flanterm/src/flanterm_backends/fb.c:948-967 | copies one cell of the screen |
| `Overlay.Framebuffer.Scroll` | thirdparty/Flanterm/src/flanterm_backends/fb.c:874-899 | the lines between the margins move up by one, the last is blank, all others stay |
| `Overlay.Framebuffer.Revscroll` | thirdparty/Flanterm/src/flanterm_backends/fb.c:845-872 | the lines between the margins move down by one, the first is blank, all others stay |
| `Overlay.Framebuffer.Clear` | thirdparty/Flanterm/src/flanterm_backends/fb.c:901-918 | every cell looks like character 32 in the current colours |
| `Overlay.Framebuffer.SetCursorPos` | thirdparty/Flanterm/src/flanterm_backends/fb.c:920-939 | the cursor is then on the screen, at the place nearest to the given coordinates read as signed numbers; coordinates on the screen are kept |
| `Overlay.Framebuffer.RawPutchar` | thirdparty/Flanterm/src/flanterm_backends/fb.c:1101-1127 | the screen scrolls exactly when the cursor is behind the line above the bottom margin and may wrap and scroll; where the cursor goes in every case; the character stands there in the current colours, and every other cell is as it was |
| `Overlay.Framebuffer.Flush` | thirdparty/Flanterm/src/flanterm_backends/fb.c:1038-1099 | the screen is the same, the queue empty, and what is drawn looks like the grid at every cell but the cursor's, whose colours are exchanged |

## Findings

Properties that the code does not have for every input. Each is proved to fail
for an input, and exactly when it holds.

| member | input | holds exactly when |
|---|---|---|
| `Region.AllocRegion.FreshRegionValidIffZeroed`, `AddressSpaces.AddressSpace.Create` | heap storage that is not zero: `region_create` (lib/allocator/region.c:19-54) does not clear the bitmap it allocates | the storage is zero |
| `Region.CopyAgreesIffTailEmpty` | a destination with ranges of its own in slots beyond the source's: they stay in the table while their bits are cleared | those slots are empty |
| `PageTree.LookupZeroIffUnmapped` | the inside of an unmapped page that shares its leaf table with others: the lookup answers the offset, not 0 | the address is page aligned or has no leaf table |
| `TableDestroy.FreesOnlyTablesIffUnmapped` | a table destroyed while pages are mapped: those pages are freed with it | nothing is mapped |
| `FreeLists.FreeList.constructor` | pool memory whose first block has a link left in it: `freelist_init` (lib/allocator/freelist.c:12-19) sets the size only | that word is zero |
| `FdtSw.RoomTestIsRight`, `FdtSw.LongNameIsNotRefused` | a name of 200 bytes for a buffer of 100: the unsigned difference wraps, and the name is not refused | the name fits beside the names already there |
| `Elf.LoadableIff`, `Elf.LongZeroPartIsNotLoadable` | one page of file and more than two pages of memory: the copy length of the third page wraps | the last page starts no later than the file part ends |
| `Elf.PagesInRangeIff`, `Elf.PageZeroIsAccepted` | a segment of one page at address 0: the checks (kernel/exec/elf.c:41-64) pass it, and reserving the page fails the assert of `bm_addr_to_page` (lib/allocator/bitmap.c:170-176) | the segment is empty or begins at the base of the user range or above |
| `FreeLists.NeededIsEnoughIff`, `FreeLists.HugeSizeNeedsLittle` | a size of 2^64 - 1: with the header added (lib/allocator/freelist.c:21-28) it wraps, and a block of 15 bytes seems enough | size and header together are below 2^64 |
| `Utf8.GivenUpAtOnce`, `Utf8.AboveTheRangeIsSilent` | F4 90 80 80: nothing is shown, although the comment in the code (thirdparty/Flanterm/src/flanterm.c:2002-2004) promises one replacement; the model follows the code | the sequence is not above the range |
| `FileReferences.ReservedSlotIsTaken`, `FileReferences.ReservedStaysIff` | dup3 onto a slot that another thread has reserved for an open | no open file is put at that slot |
| `Lifecycle.DestructionAssertsHold`, `Lifecycle.LostIsNeverReturned` | wait4 with a bad address for the exit code: the child is off the list and never destroyed | the copy to the caller succeeds |

## Left out

- FdtSw.Writer.Property: requires that a name that has to be added fits beside the names already there, which by `RoomTestIsRight` is exactly when the source's room test can be relied on; beyond it the source writes in front of the buffer.
- FdtSw.Writer.FindAddString: requires the same of a name that is not in the table yet; so does AddString of every name.
- FdtRo.NumMemRsv: requires a total size of at least one reserve entry, as the source's own subtraction does; so does GetMemRsv, for an index whose offset is within the total size.
- FdtCheck.CheckFull: requires a header of version 16 or later; the header sizes of older versions are not part of this model.
- FdtPaths.PathOffset: does not model a path that starts with an alias.
- ElfLoad.Load: requires accepted segments to meet the conditions of `Elf.LoadableIff` and `Elf.PagesInRangeIff`; for others the source copies beyond a page or panics.
- ElfLoad.Load: requires, while any table on the way to a segment is missing, frames for the missing tables and the segments' pages, as mapping does; the header of the file and its entry address are not modelled.
- Paging.PagingMap: requires as many free pages as tables are missing, since the source asserts success and has no way back; so do Vmm.VmAlloc and the operations on address spaces, and a fork requires as many as the original holds.
- Paging.PagingMap: does not model address bits above the 48 that are translated, or physical addresses above them.
- AddressSpaces.AddressSpace.CreateFrom: does not model the failure of kernel allocations for the new region, or the way back from there.
- Kernels.Kernel.Create: requires clear bitmap storage, which by `AddressSpaces.AddressSpace.Create` is exactly when the new address space is sound.
- FreeLists.FreeList.Alloc: requires a heap with at least one block left and a size above zero, as the source asserts, and a size that with its header is below 2^64 (`NeededIsEnoughIff`); so does freeing require a non-empty list.
- Spinlocks.MutualExclusion: takes the compare-and-exchange loop and each store as one atomic step of a sequentially consistent memory.
- Lifecycle.DoKeeps: does not model the exit of a process with a child that still runs, whose own exit would then reach for a parent that may be gone; takes each system call as one step on one CPU, with one thread for each process as `proc_manager_create_exec_from` makes them; the copy to user memory is a parameter that may fail.
- SchedulerRuns.RoundRobinBound: counts picks, not time; timer frequency and running time of a slice are not modelled.
- FdtSw.Writer.Create: the header is a record beside the buffer, so reading and writing its ten words in the buffer is not modelled.
- Utf8.WellFormedIsDecoded: glyphs are looked up by a function that is not part of this model; widths and insert mode are left out.
- Overlay.Framebuffer.Flush: what is drawn at a cell is one value; its pixels are left out.
- Switching tables and stacks, cache and TLB maintenance, exceptions, system call entry and user memory access: machine code, not part of this model.
- Mappings that an address space does not own, and kernel and device mappings: they share the mapping code proved here.
- The kernel heap's wrapper (kernel/mm/kheap.c), other containers, block devices and the console: they would add easy members.
- Escape sequences of the terminal, fdt_resize, overlays and string lists of device trees, the header of an executable: parsing that would add easy members.
