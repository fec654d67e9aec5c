# TinyShell OS in Dafny

A model of the TinyShell OS kernel (a freestanding i386 kernel in C and assembly) with proofs of
what its memory management, scheduler, queues, file system and shell promise. The state machines
of the kernel are modelled with their own arrays, sequence numbers, limits and error paths;
operations that work in place are classes with `modifies` clauses, proved against functions on
values, and the properties of whole runs are lemmas about those functions.

- `Words`, `Bits`, `Counting`, `Strings`: machine words, bit operations on naturals, set sizes, C strings.
- `HeapBlocks`, `HeapMemory`, `Heap`, `HeapRuns`: the first-fit heap, from block lists over in-band
  headers in a 65536-word arena to every run of kmalloc, kcalloc, kfree and client stores.
- `Vmm`: the two-level page tables, the table pool and the side index against the hardware walk
  (sections 4.3 and 4.6 of Intel SDM volume 3A) and a map of pages.
- `Scheduler`, `SchedulerRuns`, `ContextSwitch`, `ContextRuns`: the round-robin tables, and the
  stacks and registers under them, instruction by instruction for `task_context_switch`.
- `Keyboard`, `KeyboardInterleaving`: scan codes, and the 64-slot queue with every load and store a
  separate step.
- `Pmm`, `Multiboot`, `BootMemory`, `BootImage`: the page allocator, the memory map of the Multiboot
  Specification (section 3.3 of version 0.6.96), the boot sequence that joins them, and the same
  over the bytes the boot loader leaves.
- `Ipc`, `IpcRuns`, `TaskFlow`: message endpoints, and the producer/consumer/observer flow over the
  scheduler.
- `RamFs`, `Command`, `LineEditor`, `Shell`, `ShellRuntime`, `ShellRuns`, `ShellCommands`: the shell as a
  refinement of an interpreter over a map of files, and what each line typed means to the files.
- `MainLoop`: the loop kernel_main ends in, from decoded keys through the queue to the shell.

Modelling choices. Integers are mathematical and carry explicit ranges; where the C code wraps, the
model uses `Add32` and `Sub32`. Masks are written with division and remainder, or with the bit
functions of `Bits`. Pointers are 32-bit addresses, 0 for NULL; NULL arguments that no caller in the
kernel passes are not modelled. The heap arena is an array of words and a client store is a store of
one byte in a word. Interrupt enabling is the IF bit of EFLAGS. What a
context runs between scheduler calls is arbitrary, except that it writes neither another context's
stack nor a saved stack pointer. Each load and store of the keyboard
queue is atomic and they are seen in program order. Paging caches are not modelled. The Multiboot buffers are read as one unchanging value. Bytes of files
and characters of text have one type, since the casts between them change nothing. C strings are
sequences read up to their first NUL, and a read past the end of a sequence is a proof failure.

## Model

| member | source | states |
|---|---|---|
| `Heap.KernelHeap.InspectHeap` | kernel/mm/heap.c:68-180 | on arbitrary arena contents the validator terminates, reads only inside the arena and answers true exactly when linked, legally sized, coalesced blocks tile it; it then measures exactly that block list |
| `Heap.KernelHeap.InspectBlock` | kernel/mm/heap.c:94-160 | one round of the walk: a rejected header means no block list at all is represented; an accepted one extends the scanned prefix or completes the tiling |
| `Heap.KernelHeap.FinishInspection` | kernel/mm/heap.c:162-179 | the sum and count checks after the walk are implied by the tiling and never reject |
| `Heap.AlignRequest` | kernel/mm/heap.c:56-66 | accepts exactly the representable nonzero sizes and rounds to the next multiple of 16 |
| `Heap.KernelHeap.KheapInit` | kernel/mm/heap.c:205-230 | leaves one free block covering the arena, whatever was there before |
| `Heap.KernelHeap.KMalloc` | kernel/mm/heap.c:232-270 | for any arena: refuses without change, or takes the first fit, splits it and changes only header words; the block granted holds the request and wastes less than 48 bytes |
| `Heap.KernelHeap.FindFit` | kernel/mm/heap.c:241-267 | finds the lowest free block that fits, and fails only when none does |
| `Heap.KernelHeap.SplitBlock` | kernel/mm/heap.c:244-262 | writes the remainder's header and relinks the neighbours, nothing else |
| `Heap.KernelHeap.InvalidateBlock` | kernel/mm/heap.c:182-189 | clears an absorbed header and touches no other word |
| `Heap.KernelHeap.MergeWithNext` | kernel/mm/heap.c:191-203 | a block absorbs its right neighbour and the one after it is linked back |
| `Heap.KernelHeap.KFree` | kernel/mm/heap.c:294-328 | accepts exactly a live payload pointer; then frees and merges on both sides; otherwise changes nothing |
| `Heap.KernelHeap.FindPayload` | kernel/mm/heap.c:309-317 | finds the one block whose payload starts at the pointer, if any |
| `Heap.ForeignPointerIsNotLive` | kernel/mm/heap.c:301-307 | misaligned pointers and pointers outside the arena are never live, so the early refusals lose nothing |
| `Heap.OnlyOneBlockPerPointer` | kernel/mm/heap.c:309-313 | a pointer is the payload of at most one block |
| `Heap.KernelHeap.KCalloc` | kernel/mm/heap.c:272-292 | refuses overflowing products, otherwise allocates and zeroes exactly count * size bytes |
| `Heap.OverflowGuardIsExact` | kernel/mm/heap.c:278-280 | the division guard of kcalloc refuses exactly the products that do not fit 32 bits |
| `Heap.KernelHeap.KheapGetStats` | kernel/mm/heap.c:330-340 | reports the measures of the represented block list |
| `Heap.KernelHeap.KheapValidate` | kernel/mm/heap.c:342-345 | true exactly on a ready, well-formed heap |
| `HeapBlocks.PayloadAndHeadersFillTheArena` | kernel/mm/heap.c:162-174 | payloads and headers of a tiling add up to the arena |
| `HeapBlocks.LargestFreeIsAttained` | kernel/mm/heap.c:129-144 | the largest-free measure bounds every free block and is the size of one of them |
| `HeapBlocks.FragmentationBound` | kernel/kernel.c:234-250 | free bytes never exceed largest free block * (allocated blocks + 1) |
| `HeapBlocks.MallocAccounts` | kernel/mm/heap.c:244-262 | what an allocation does to block count, block size, free total, allocated total and allocated count |
| `HeapBlocks.FreeAndAllocatedMakeThePayload` | kernel/mm/heap.c:129-144 | free and allocated granules are all the payload there is |
| `HeapBlocks.NothingAllocatedIsInitial` | kernel/mm/heap.c:205-230 | a coalesced tiling with nothing allocated is the single initial block |
| `HeapBlocks.RequestFitsIffLargest` | kernel/mm/heap.c:241-267 | a request can be served exactly when it is no larger than the largest free block |
| `HeapBlocks.MallocKeepsTiling` | kernel/mm/heap.c:241-267 | allocating keeps tiling and coalescing |
| `HeapBlocks.FreeByStepsIsFreeAt` | kernel/mm/heap.c:319-326 | merging left, then right, step by step, is the two-sided merge |
| `HeapBlocks.FreeKeepsTiling` | kernel/mm/heap.c:319-326 | freeing keeps tiling and coalescing |
| `HeapBlocks.FreeUndoesMalloc` | kernel/mm/heap.c:232-328 | freeing a fresh allocation at once restores the very block list |
| `HeapMemory.RepresentationIsUnique` | kernel/mm/heap.c:68-180 | an arena determines its block list |
| `HeapMemory.PayloadsAreDisjoint` | kernel/mm/heap.c:16-54 | no payload word is a header word or a word of another payload |
| `HeapMemory.PayloadWriteIsHarmless` | kernel/mm/heap.c:51-180 | a store inside a payload cannot make validation fail |
| `HeapRuns.StepKeepsInv` | kernel/mm/heap.c:232-328 | every operation, and every client store inside its own allocation, keeps the arena represented and the live table exact |
| `HeapRuns.EveryRunIsSafe` | kernel/mm/heap.c:182-328 | in every state of every run live payloads are 16-aligned, in the arena, large enough by less than 48 bytes, disjoint from each other and from headers; with nothing live the heap is the initial block |
| `HeapRuns.RunKeepsContent` | kernel/mm/heap.c:182-328 | over any run a live allocation keeps every byte the client does not itself store to |
| `HeapRuns.StepKeepsContent` | kernel/mm/heap.c:182-328 | no single operation changes a byte of another live payload |
| `HeapRuns.FreeKeepsInv` | kernel/mm/heap.c:294-328 | kfree succeeds exactly on pointers the client holds |
| `HeapRuns.FirstFitIsExact` | kernel/mm/heap.c:232-328 | a representable request fails exactly when it exceeds the largest free block, otherwise takes the lowest fit, and freeing it restores the list |
| `HeapRuns.AllocationFailsExactly` | kernel/mm/heap.c:232-270 | kmalloc fails, changing nothing, exactly on size 0, on sizes that rounding would wrap, and when no free block has room |
| `HeapRuns.AllocationIsExact` | kernel/mm/heap.c:241-267 | it takes the lowest block with room, cuts it to the request exactly when the rest can hold a header and a granule, and leaves exactly the other free bytes and allocated blocks |
| `HeapRuns.CallocIsExact` | kernel/mm/heap.c:272-292 | kcalloc fails exactly on empty, oversized or unplaceable products; otherwise every byte asked for reads zero |
| `HeapRuns.StatsDescribeBlocks` | kernel/mm/heap.c:129-144 | free bytes, allocated bytes and headers are the arena; the largest free size is attained and exceeded by none; the count is the number of allocated blocks |
| `HeapRuns.EveryRunIsCounted` | kernel/mm/heap.c:330-340 | in every state of every run the statistics count as many allocated blocks as the client holds allocations |
| `HeapRuns.CallocCallIsStep` | kernel/mm/heap.c:272-292 | a kcalloc call is a step of the run |
| `Vmm.EncodedBits` | kernel/mm/vmm.c:56-67 | an encoded entry decodes to the mapping it was made from |
| `Vmm.WalkOfEncoded` | kernel/mm/vmm.c:150-196 | under a writable directory entry that admits users when the page does, the effective rights are the page's own flags |
| `Vmm.AddressSpace.Init` | kernel/mm/vmm.c:97-148 | the identity range without page 0, and no dynamic page; a second call changes no mapping |
| `Vmm.AddressSpace.FillIdentityTable` | kernel/mm/vmm.c:130-141 | a table maps its 4 MiB onto themselves, page 0 excepted |
| `Vmm.AddressSpace.ClearTable` | kernel/mm/vmm.c:40-47 | clears one table and no other |
| `Vmm.AddressSpace.WalkAgreesWithMap` | kernel/mm/vmm.c:97-274 | in every valid state the two-level hardware walk of any address, rights included, is the simple map's translation |
| `Vmm.AddressSpace.IdentityStays` | kernel/mm/vmm.c:119-142 | in every valid state the hardware walk of [4 KiB, 128 MiB) is the writable supervisor identity and page 0 faults |
| `Vmm.AddressSpace.Translate` | kernel/mm/vmm.c:240-274 | the side-index translation agrees with the map and with the hardware walk; on failure the caller's address is untouched |
| `Vmm.AddressSpace.MapPage` | kernel/mm/vmm.c:150-196 | accepted exactly for aligned, flag-legal dynamic pages on which the hardware faults, with a table to be had; then the hardware translates each byte of the page to the same byte of the frame, writable and user exactly as VMM_WRITABLE and VMM_USER ask, and every other address as before; a refusal changes nothing |
| `Vmm.AddressSpace.UnmapPage` | kernel/mm/vmm.c:198-238 | accepted exactly for aligned dynamic pages the hardware translates; returns the frame; then the hardware faults on each byte of the page and translates every other address as before; a refusal changes nothing, the caller's address included |
| `Vmm.TranslatedAfterMap` | kernel/mm/vmm.c:188-195 | a new page changes the translation of its 4096 bytes and of no other |
| `Vmm.TranslatedAfterUnmap` | kernel/mm/vmm.c:218-237 | a removed page faults on its 4096 bytes and changes no other |
| `Vmm.RequestedRights` | kernel/mm/vmm.c:56-67 | the entry made from the flags VMM_WRITABLE and VMM_USER grants exactly those rights |
| `Vmm.AddressSpace.FindFreeTable` | kernel/mm/vmm.c:69-82 | finds a free dynamic table, or reports that all are in use |
| `Vmm.AddressSpace.TableIsEmpty` | kernel/mm/vmm.c:84-95 | true exactly when no entry of the table is present |
| `Vmm.AddressSpace.AttachTable` | kernel/mm/vmm.c:169-182 | gives a region a cleared table of its own without changing any mapping |
| `Vmm.AddressSpace.EnterPage` | kernel/mm/vmm.c:188-195 | adds one mapping, widening the directory entry for users when needed |
| `Vmm.AddressSpace.RetireTable` | kernel/mm/vmm.c:230-234 | an emptied table goes back to the pool and its directory entry is cleared |
| `Vmm.AddressSpace.TableInUseIffServing` | kernel/mm/vmm.c:69-95 | a dynamic table is in use exactly when some page of its region is mapped |
| `Vmm.AddressSpace.TablesServeRegions` | kernel/mm/vmm.c:69-95 | no two entries of the side index name the same table, and a dynamic region has one exactly when a page of it is mapped |
| `Vmm.AddressSpace.PoolIsFullIffAllRegionsTaken` | kernel/mm/vmm.c:69-82 | the pool is exhausted exactly when 32 regions are occupied |
| `Scheduler.TaskTable.FindNextReady` | kernel/task/task.c:107-125 | computes the cyclic search NextReady |
| `Scheduler.NextReadyIsNearest` | kernel/task/task.c:107-125 | the search finds a READY task whenever there is one, the nearest after the cursor |
| `Scheduler.DispatchShortensTheWait` | kernel/task/task.c:107-141 | dispatching another task brings the cursor strictly closer to a waiting one |
| `Scheduler.TaskTable.ActivateTask` | kernel/task/task.c:127-141 | activates exactly a READY task with budget left, and spends one dispatch |
| `Scheduler.TaskTable.SystemInit` | kernel/task/task.c:203-229 | ignored while the scheduler runs; otherwise every slot unused, no entry point, counters zero |
| `Scheduler.TaskTable.CreateTask` | kernel/task/task.c:231-262 | refuses exactly when uninitialized, running, without entry point or full; otherwise the lowest unused slot becomes READY with that entry point |
| `Scheduler.FirstUnusedIsUnused` | kernel/task/task.c:241-253 | the slot taken is the lowest unused one, and a refusal means there is none |
| `Scheduler.TaskTable.Run` | kernel/task/task.c:264-298 | dispatches exactly when initialized, idle, funded and some task is READY; otherwise nothing changes and the answer is true exactly when initialized, idle and no task is READY |
| `Scheduler.TaskTable.FinishRun` | kernel/task/task.c:300-305 | true exactly when no READY task is left |
| `Scheduler.TaskTable.YieldTask` | kernel/task/task.c:307-344 | hands over to the nearest READY task or to the bootstrap context; never stops |
| `Scheduler.TaskTable.ExitTask` | kernel/task/task.c:346-379 | marks the task finished and hands over; stops only when called outside a task |
| `Scheduler.CreateKeepsInv` | kernel/task/task.c:231-262 | creation keeps the accounting invariant |
| `Scheduler.RunKeepsInv` | kernel/task/task.c:264-292 | task_run dispatches exactly when initialized, idle, funded and some task is READY, and keeps the invariant |
| `Scheduler.HandOverKeepsInv` | kernel/task/task.c:307-379 | yield and exit keep one RUNNING task and the finished count, never reach task_stop, and return to the bootstrap only when the budget is spent or nobody is READY |
| `SchedulerRuns.EveryStateIsInv` | kernel/task/task.c:192-379 | in every state of every run at most one task is RUNNING, it is the current one exactly while the scheduler runs, and finished_count counts the FINISHED tasks |
| `SchedulerRuns.BoundedWaiting` | kernel/task/task.c:107-141 | a READY task waits for at most 7 dispatches of others, across task_run calls and task creation |
| `SchedulerRuns.BudgetIsSpentExactly` | kernel/task/task.c:264-379 | dispatches made plus dispatches left are the budget, and task_run ends incomplete only after spending all of it |
| `SchedulerRuns.FinishedStaysFinished` | kernel/task/task.c:203-229 | a finished task stays finished until the idle scheduler is reset; a reset by a running task is ignored |
| `ContextSwitch.SwitchExchangesFrames` | boot/context_switch.S:14-31 | the instruction sequence stores the caller's frame and loads the target's registers, return address and EFLAGS, and touches nothing else |
| `ContextSwitch.SwitchKeepsInv` | kernel/task/task.c:192-201 | a switch resumes the target with exactly the registers it was suspended with and records the caller's |
| `ContextSwitch.RestoreUndoesCli` | kernel/task/task.c:54-91 | a scheduler call that does not switch leaves EFLAGS as they were |
| `ContextSwitch.InitialEflagsBits` | kernel/task/task.c:143-151 | a new task inherits every flag except TF, DF, NT and VM, and bit 1 is set |
| `ContextSwitch.CliClearsInterrupts` | kernel/task/task.c:54-75 | turning interrupts off clears bit 9 of EFLAGS and no other |
| `ContextRuns.CreatePreparesFrame` | kernel/task/task.c:167-190 | the prepared stack is a frame that starts the trampoline, aligned for the i386 ABI, with task_exit below it |
| `ContextRuns.StepKeepsMachine` | kernel/task/task.c:153-379 | every scheduler call keeps each suspended context's saved stack pointer at the frame it was suspended with |
| `ContextRuns.RunKeepsMachines` | kernel/task/task.c:153-379 | the same in every state of every run |
| `ContextRuns.ContextsResumeWhereTheyLeft` | kernel/task/task.c:294-379 | a context that gives the CPU away next runs with its own registers, return point, EFLAGS and stack contents, whatever others did meanwhile short of resetting the idle scheduler |
| `ContextRuns.StacksLast` | kernel/task/task.c:192-379 | while a context waits for the CPU no word of its stack changes |
| `ContextRuns.NewTaskStartsFresh` | kernel/task/task.c:143-190 | a created task first runs at the trampoline with zeroed registers, task_exit as the only word on its stack, and its creator's EFLAGS of the time of creation, bit 1 set and TF, DF, NT and VM cleared |
| `ContextRuns.FinishedNeverReturns` | kernel/task/task.c:346-379 | a finished task never regains the CPU until the idle scheduler is reset |
| `ContextRuns.HolderIsRunning` | kernel/task/task.c:153-165 | whoever holds the CPU is the RUNNING current task or the bootstrap, so no task_stop is reached |
| `Keyboard.Keys.Init` | kernel/arch/x86/keyboard.c:113-122 | empties the queue and the modifier state |
| `Keyboard.Keys.QueuePush` | kernel/arch/x86/keyboard.c:97-111 | appends to the history unless 64 characters are unread, through wrap-around; otherwise counts a drop |
| `Keyboard.Keys.PopChar` | kernel/arch/x86/keyboard.c:200-220 | hands out the oldest unread character; false, with the caller's character untouched, exactly when there is none |
| `Keyboard.Keys.FeedScancode` | kernel/arch/x86/keyboard.c:135-198 | shift, caps lock and the extended prefix change as the scan code says, at most the decoded character is enqueued, and a full queue counts one drop |
| `Keyboard.Keys.TrackModifiers` | kernel/arch/x86/keyboard.c:142-172 | the bytes that only move modifiers, and exactly how they move them |
| `Keyboard.LettersLieInRows` | kernel/arch/x86/keyboard.c:50-81 | the letter keys are the three QWERTY rows and no other code is a letter |
| `Keyboard.EveryLetterHasOneKey` | kernel/arch/x86/keyboard.c:50-81 | each of the 26 letters has exactly one key |
| `Keyboard.ShiftAndCapsCancel` | kernel/arch/x86/keyboard.c:173-182 | a letter is upper case exactly when one of shift and caps lock applies; other keys ignore caps lock |
| `Keyboard.OtherKeys` | kernel/arch/x86/keyboard.c:183-198 | digits and their shifted signs, Enter, backspace and space; nothing else yields a character |
| `Keyboard.DecodedIsTypeable` | kernel/arch/x86/keyboard.c:173-198 | every decoded character is one the line editor acts on |
| `Keyboard.ShiftKeys` | kernel/arch/x86/keyboard.c:142-172 | the press and release codes of both shift keys, meaningless after the prefix |
| `KeyboardInterleaving.PoppedIsPrefixOfAccepted` | kernel/arch/x86/keyboard.c:97-111 | under every interleaving of loads and stores, popped characters are a prefix of accepted ones |
| `KeyboardInterleaving.PoppedIsPrefixFromTheStart` | kernel/arch/x86/keyboard.c:113-122 | the same for every interleaving from keyboard_init on |
| `KeyboardInterleaving.StepRefinesQueue` | kernel/arch/x86/keyboard.c:200-220 | every load or store is one atomic queue operation or none |
| `KeyboardInterleaving.RefusalsAreJustified` | kernel/arch/x86/keyboard.c:97-111 | a drop happens only with 64 unread when read_sequence was loaded, an empty answer only with none waiting when write_sequence was loaded |
| `KeyboardInterleaving.InterruptIsAtomicPush` | kernel/arch/x86/keyboard.c:124-133 | an interrupt between any two steps of the consumer is one atomic push |
| `Pmm.Bitmap.Put` | kernel/mm/pmm.c:65-87 | setting or clearing one bit adds or removes exactly that page |
| `Pmm.ClipToPhysical` | kernel/mm/pmm.c:126-163 | refuses exactly overflowing ranges; clipping loses no page of the 32-bit space |
| `Pmm.InwardPageSpan` | kernel/mm/pmm.c:165-197 | exactly the pages wholly inside the range, page 0 excepted |
| `Pmm.OutwardPageSpan` | kernel/mm/pmm.c:199-236 | exactly the pages some byte of the range lies in |
| `Pmm.PageAllocator.MarkPageReserved` | kernel/mm/pmm.c:89-112 | a free page leaves the managed set, an unknown one is marked; counters stay the bitmap populations |
| `Pmm.PageAllocator.MarkPageUsable` | kernel/mm/pmm.c:114-124 | an unknown page other than 0 becomes free; reserved and managed pages stay |
| `Pmm.PageAllocator.Reset` | kernel/mm/pmm.c:238-251 | nothing managed, page 0 reserved, ownership open |
| `Pmm.PageAllocator.AddUsableRegion` | kernel/mm/pmm.c:253-275 | accepted exactly before the freeze without overflow; the managed pages stay exactly those inside one added region and touching no reserved one |
| `Pmm.PageAllocator.ReserveRegion` | kernel/mm/pmm.c:277-299 | the same for reservations; a refusal changes nothing |
| `Pmm.PageAllocator.AllocPage` | kernel/mm/pmm.c:301-327 | freezes ownership; returns the lowest free page, 0 exactly when none is free |
| `Pmm.PageAllocator.FindFree` | kernel/mm/pmm.c:310-326 | the word scan finds the lowest free page whenever the counter is not 0, so its fall-through is never taken |
| `Pmm.PageAllocator.FreePage` | kernel/mm/pmm.c:329-353 | accepts exactly the outstanding pages |
| `Pmm.PageAllocator.FreePlusOutstanding` | kernel/mm/pmm.c:40-124 | free pages plus outstanding pages are the total, so counters never underflow |
| `Pmm.PageAllocator.FreeIffUsable` | kernel/mm/pmm.c:89-112 | before the freeze a page is free exactly when usable, and the managed-and-allocated branch of mark_page_reserved is unreachable |
| `Pmm.OrderDoesNotMatter` | kernel/mm/pmm.c:253-299 | the page state depends only on the sets of regions added and reserved, not on the order of calls |
| `Multiboot.ValidateInfo` | kernel/boot/multiboot.c:45-75 | accepts exactly a header with both memory flags that names a non-empty map that does not wrap, reading only the header |
| `Multiboot.ReadRecord` | kernel/boot/multiboot.c:94-122 | accepts exactly a whole, well-formed record, reading only inside the map; which bytes are which field is stated by BootImage.LaidOutIsRead |
| `Multiboot.NextRecord` | kernel/boot/multiboot.c:94-124 | one turn of the walk: a whole, well-formed record and room in the counter |
| `Multiboot.CheckMap` | kernel/boot/multiboot.c:77-141 | accepts exactly a tiled map and counts its records |
| `Multiboot.TilingHasCuts` | kernel/boot/multiboot.c:93-131 | an accepted map is cut from start to end into records with no gap, one per listed record |
| `Multiboot.CutsGiveTiling` | kernel/boot/multiboot.c:93-131 | any map that can be cut so is accepted |
| `Multiboot.Parse` | kernel/boot/multiboot.c:143-170 | accepts exactly well-formed buffers and reports their record count; otherwise the caller's summary is untouched |
| `Multiboot.GetOwnedRanges` | kernel/boot/multiboot.c:196-220 | accepts exactly the same buffers and reports the header and map ranges |
| `BootMemory.AddMemoryRegion` | kernel/kernel.c:60-72 | type 1 is added, every other type reserved; refused only after the freeze |
| `BootMemory.ImportMap` | kernel/boot/multiboot.c:77-141 | on a tiled map and an unfrozen allocator the visiting pass cannot stop midway and hands over every record |
| `BootMemory.ForEachRegion` | kernel/boot/multiboot.c:172-194 | nothing is visited unless the whole buffer is well formed |
| `BootMemory.ManagedPagesAreSafe` | kernel/kernel.c:85-113 | every page that can be allocated lies in one type-1 record, meets no record of another type, and avoids low memory, the kernel and the Multiboot buffers |
| `BootMemory.UsablePageIsNotOwned` | kernel/kernel.c:85-113 | allocation_is_reserved is false for every usable page |
| `BootMemory.ReserveKernelRanges` | kernel/kernel.c:602-611 | the four reservations all succeed |
| `BootMemory.SelfTest` | kernel/kernel.c:617-633 | the allocation self-test always passes and leaves the allocator as it was, frozen |
| `BootMemory.BootMemory` | kernel/kernel.c:569-633 | which boot failures can occur and exactly when: pmm-map and pmm-self-test never, pmm-reserve exactly when no page is usable |
| `BootImage.Word32IsLoaded` | kernel/boot/multiboot.c:94-122 | the word read is the one whose four little-endian bytes are there |
| `BootImage.LaidOutIsRead` | kernel/boot/multiboot.c:24-39 | any legal records laid out as bytes (size at 0, base at 4, length at 12, type at 20, any padding) are accepted and read back as those records |
| `BootImage.ReadIsLaidOut` | kernel/boot/multiboot.c:77-141 | every accepted map is such a layout |
| `BootImage.HeaderIsRead` | kernel/boot/multiboot.c:143-170 | flags, memory sizes, map length and map address are the words at 0, 4, 8, 44 and 48 |
| `BootImage.ImageIsRead` | kernel/boot/multiboot.c:45-75 | a laid-out header and map are accepted exactly when magic, address, flag bits 0 and 6 and map range are legal, and give exactly the records laid out |
| `BootImage.AcceptedIsImage` | kernel/boot/multiboot.c:45-141 | nothing else is accepted |
| `BootImage.ManagedExactly` | kernel/kernel.c:60-113 | a page is managed exactly when all its bytes are in one type-1 record and none in a record of another type, the first megabyte, the kernel, the header or the map |
| `BootImage.OwnedCheckIsExact` | kernel/kernel.c:85-113 | allocation_is_reserved holds exactly for the pages that share a byte with an owned range |
| `BootImage.BootFromImage` | kernel/kernel.c:569-633 | for any image each boot report has its exact cause, and when memory is up the pages in hand are exactly the usable ones, all free |
| `Ipc.EndpointTable.Init` | kernel/ipc/ipc.c:33-49 | closes every endpoint |
| `Ipc.EndpointTable.EndpointCreate` | kernel/ipc/ipc.c:51-70 | opens the lowest closed endpoint with an empty history; refuses, changing nothing, exactly when all eight are open |
| `Ipc.FirstClosedIsLowest` | kernel/ipc/ipc.c:55-69 | the endpoint opened is the lowest closed one, and refusal means all are open |
| `Ipc.EndpointTable.IpcSend` | kernel/ipc/ipc.c:72-104 | appends the zero-padded message to the history, counts a rejection, or does nothing, through wrap-around; other endpoints keep theirs |
| `Ipc.CopyPayload` | kernel/ipc/ipc.c:97-100 | copies the payload up to its length and zeroes the tail |
| `Ipc.Delivered` | kernel/ipc/ipc.c:92-101 | sender, kind and length as sent, each payload byte as sent below the length and zero above it |
| `Ipc.EndpointTable.IpcReceive` | kernel/ipc/ipc.c:106-134 | hands out the oldest unreceived message; otherwise false with the buffer untouched |
| `Ipc.EndpointTable.IpcPending` | kernel/ipc/ipc.c:136-145 | accepted minus received, 0 for endpoints that are not open |
| `Ipc.EndpointTable.RejectedCount` | kernel/ipc/ipc.c:147-154 | the rejections counted, 0 for endpoints that are not open |
| `IpcRuns.ReceivedIsPrefixOfSent` | kernel/ipc/ipc.c:72-154 | over every run on all endpoints: received is a prefix of accepted, pending is the difference and at most 8, rejections count exactly valid messages on a full queue |
| `IpcRuns.HistoryOfRun` | kernel/ipc/ipc.c:72-134 | an endpoint's state is the history of its own sends and receives |
| `IpcRuns.EndpointsAreIndependent` | kernel/ipc/ipc.c:51-134 | an endpoint ends as if the calls on all others had not happened |
| `TaskFlow.ThreeTasksIsTrio` | kernel/kernel.c:513-522 | the three tasks get ids 0, 1 and 2, all READY |
| `TaskFlow.HandOverOfThree` | kernel/task/task.c:307-379 | among three tasks the turn passes cyclically to the next unfinished one |
| `TaskFlow.ProducerKeepsStep` | kernel/kernel.c:423-451 | a producer slice finds room, sends one message and passes the turn to the consumer |
| `TaskFlow.ConsumerKeepsStep` | kernel/kernel.c:453-482 | a consumer slice finds exactly the expected message with a zero tail |
| `TaskFlow.ObserverKeepsStep` | kernel/kernel.c:484-499 | an observer slice leaves the exchange alone, however long it takes |
| `TaskFlow.FlowStaysInStep` | kernel/kernel.c:423-542 | for any number of messages, budget and timer behaviour: at most one message pending, no failed receive, no rejected send, no failure flag |
| `TaskFlow.CompletedFlow` | kernel/kernel.c:501-542 | a completed flow delivered everything with exactly messages + 1 slices for producer and for consumer |
| `TaskFlow.FlowCompletesWithinBudget` | kernel/kernel.c:501-542 | after as many slices as the budget the flow has stopped, complete unless the observer alone used up what 2 (messages + 1) slices left over, with exactly 2 (messages + 1) plus the observer's slices as switch count |
| `RamFs.NameIsValid` | kernel/fs/ramfs.c:30-66 | accepts exactly 1 to 31 allowed characters other than "." and ".." |
| `RamFs.NamesEqual` | kernel/fs/ramfs.c:68-82 | equality of names within the limit |
| `RamFs.FindSlot` | kernel/fs/ramfs.c:84-95 | the first slot in use with that name, or none |
| `RamFs.FindEmptySlot` | kernel/fs/ramfs.c:97-108 | the first dead slot, or none |
| `RamFs.CopyName` | kernel/fs/ramfs.c:140-146 | the copied buffer reads back as the same name |
| `RamFs.OverwriteData` | kernel/fs/ramfs.c:176-178 | the new bytes followed by zeros |
| `RamFs.ExtendData` | kernel/fs/ramfs.c:207-209 | the old bytes followed by the new ones |
| `RamFs.FileTable.Init` | kernel/fs/ramfs.c:110-118 | no files |
| `RamFs.FileTable.Create` | kernel/fs/ramfs.c:120-150 | adds an empty file, or says exactly why not: illegal name, existing name, sixteen files |
| `RamFs.FileTable.Write` | kernel/fs/ramfs.c:152-181 | replaces the content, or says exactly why not: illegal name, no such file, over 512 bytes |
| `RamFs.FileTable.Append` | kernel/fs/ramfs.c:183-212 | extends the content up to 512 bytes, or says exactly why not |
| `RamFs.FileTable.Read` | kernel/fs/ramfs.c:214-247 | the whole content at the front of the buffer when it fits; otherwise buffer and length are untouched |
| `Strings.CopyOut` | kernel/fs/ramfs.c:242-244 | the content followed by the rest of the old buffer |
| `RamFs.FileTable.FilesAreOk` | kernel/fs/ramfs.c:120-212 | in every reachable state at most 16 files, legal names, at most 512 bytes each |
| `RamFs.FileTable.Remove` | kernel/fs/ramfs.c:249-268 | removes exactly that file, or says exactly why not |
| `RamFs.FileTable.GetInfo` | kernel/fs/ramfs.c:275-303 | the index-th file in slot order, for exactly the indices below the count; otherwise the caller's record is untouched |
| `RamFs.NthFile` | kernel/fs/ramfs.c:275-303 | the slot with exactly that many files before it |
| `RamFs.ListingIsOneToOne` | kernel/fs/ramfs.c:275-303 | different files have different places in the listing, all below the count |
| `RamFs.Validate` | kernel/fs/ramfs.c:305-353 | on arbitrary contents: true exactly when dead slots are blank, names legal and distinct, lengths in range and the count right |
| `RamFs.NoTwin` | kernel/fs/ramfs.c:343-349 | true exactly when no later slot in use has the same name |
| `RamFs.CheckSlot` | kernel/fs/ramfs.c:318-342 | decides whether one slot is blank or a legal file |
| `RamFs.RepresentsIsWellFormed` | kernel/fs/ramfs.c:305-353 | a table that holds files is well formed |
| `RamFs.FileTable.IsValid` | kernel/fs/ramfs.c:305-353 | validation succeeds in every reachable state |
| `Command.TokensOfWeave` | kernel/shell/command.c:100-151 | however tokens are spaced, splitting finds exactly them |
| `Command.EveryLineIsWoven` | kernel/shell/command.c:100-151 | every line is its tokens with separators between them, so the splitting is the only one |
| `Command.CopyToken` | kernel/shell/command.c:81-98 | copies exactly the next token, failing exactly when it is longer than 31 characters |
| `Command.NextArgument` | kernel/shell/command.c:128-146 | one turn of the argument loop: the end, a ninth argument, a long token, or exactly the next token |
| `Command.ParseArguments` | kernel/shell/command.c:128-147 | the argument loop reports the first error in token order |
| `Command.Parse` | kernel/shell/command.c:100-151 | the command of the tokens, or the first error in token order with the caller's command untouched; what the names and the tokens mean is stated by ShellCommands.EveryLineMeans |
| `Command.VerdictIsFirstError` | kernel/shell/command.c:100-151 | the verdict is the first error a left-to-right scan of the tokens meets |
| `Command.TokensOfJoin` | kernel/shell/command.c:100-151 | any legal token list joined with single spaces splits back into itself |
| `Command.ReparseGivesTheSame` | kernel/shell/command.c:100-151 | printing an accepted command and parsing it again gives the same command |
| `LineEditor.Editor.Init` | kernel/shell/line_editor.c:23-31 | an empty line and no overflow |
| `LineEditor.Editor.Feed` | kernel/shell/line_editor.c:33-70 | edits, submits or ignores, with the event that says which; a submitted line is left alone |
| `LineEditor.Editor.Take` | kernel/shell/line_editor.c:72-94 | puts a submitted line that fits into the caller's buffer as a C string and starts afresh; otherwise editor and buffer are untouched |
| `LineEditor.BackspaceUndoes` | kernel/shell/line_editor.c:42-69 | a character and a backspace leave the line as it was exactly when the line was not full |
| `Shell.BufferAppendChar` | kernel/shell/runtime.c:172-187 | the buffer stays NUL-terminated at its length and holds the text with the character added, or the old text when character and NUL do not fit |
| `Shell.AppendWord` | kernel/shell/runtime.c:221-230 | the buffer ends up holding the text with the whole argument, or exactly as much of it as fits |
| `Shell.JoinArguments` | kernel/shell/runtime.c:189-234 | the buffer holds the space-join with an optional leading space, cut off exactly where the buffer ends; success exactly when all of it and its NUL fit |
| `Shell.ParsedArgumentsFit` | kernel/shell/runtime.c:189-234 | a parsed command never overflows the 256-byte text buffer |
| `Shell.LongestArgumentsFillTheBuffer` | kernel/shell/runtime.c:12-14 | eight arguments of 31 characters fill it to the last byte |
| `Shell.FileSize` | kernel/shell/runtime.c:310-327 | finds a file exactly when it exists, with its size; otherwise the caller's size is untouched |
| `Shell.ExecuteLs` | kernel/shell/runtime.c:329-351 | lists every file exactly once with its size and never reports a broken state |
| `ShellRuntime.ExecuteCat` | kernel/shell/runtime.c:353-373 | reads exactly the file's content |
| `ShellRuntime.ExecuteEcho` | kernel/shell/runtime.c:389-402 | the joined arguments, never too long |
| `ShellRuntime.ExecuteWrite` | kernel/shell/runtime.c:412-428 | replaces the content by the join of the words after the name |
| `ShellRuntime.ExecuteAppend` | kernel/shell/runtime.c:429-450 | appends the join, with a space before it exactly when the file is not empty |
| `ShellRuntime.ExecuteCommand` | kernel/shell/runtime.c:375-474 | the effect of each command on the files is the interpreter's |
| `ShellRuntime.HandleLine` | kernel/shell/runtime.c:534-567 | a submitted line has exactly the interpreter's effect |
| `ShellRuntime.Runtime.Init` | kernel/shell/runtime.c:487-490 | an initialized, not yet started shell with no files |
| `ShellRuntime.Runtime.Start` | kernel/shell/runtime.c:493-502 | starts an initialized shell, once |
| `ShellRuntime.Runtime.HandleChar` | kernel/shell/runtime.c:504-576 | one character is exactly one step of the interpreter; nothing happens before the start |
| `ShellRuntime.Runtime.HandleStream` | kernel/shell/runtime.c:504-576 | any stream of characters is the interpreter's run over it |
| `ShellRuns.StreamKeepsOk` | kernel/shell/runtime.c:504-576 | after any stream: a printable line of at most 127 characters, at most 16 files, legal names, at most 512 bytes each |
| `ShellRuns.LineByLine` | kernel/shell/line_editor.c:33-94 | the files see of a typed line only what its editing left |
| `ShellRuns.ContentIsTheWordsGiven` | kernel/shell/runtime.c:409-453 | after any stream every file's content is the space-join of all words given to it since its last touch or write |
| `ShellCommands.NamesAreUnique` | kernel/shell/command.c:26-62 | eleven commands, each with exactly one name |
| `ShellCommands.EveryLineMeans` | kernel/shell/command.c:100-151 | for all files and every line, however spaced: touch, rm, write and append with fitting words do exactly what they say, every other line leaves the files alone |
| `ShellCommands.TouchLine` | kernel/shell/runtime.c:409-411 | touch n makes an empty file exactly when n is legal, new and there are fewer than sixteen files |
| `ShellCommands.RmLine` | kernel/shell/runtime.c:451-453 | rm n leaves the files without n |
| `ShellCommands.WriteLine` | kernel/shell/runtime.c:412-428 | write n and one to seven fitting words replaces the content of an existing file by their join |
| `ShellCommands.AppendLine` | kernel/shell/runtime.c:429-450 | append n and words extends the content, after a space if there is some, as long as 512 bytes suffice |
| `ShellCommands.OtherLine` | kernel/shell/runtime.c:375-474 | a line that starts with no such word changes no file |
| `ShellCommands.TypedOneMore` | kernel/shell/line_editor.c:33-70 | a key erases, adds a character from space to tilde while there are fewer than 127, or does nothing |
| `ShellCommands.TypedVerbatim` | kernel/shell/line_editor.c:33-70 | up to 127 printable keys stand on the line as typed |
| `ShellCommands.TypedLineRuns` | kernel/shell/runtime.c:504-576 | a printable line and Enter, newline or carriage return, runs exactly that line |
| `ShellCommands.TypedTouch` | kernel/shell/runtime.c:409-411 | the keys of a touch command, from any files |
| `ShellCommands.TypedRm` | kernel/shell/runtime.c:451-453 | the keys of an rm command, from any files |
| `ShellCommands.TypedWrite` | kernel/shell/runtime.c:412-428 | the keys of a write command, from any files |
| `ShellCommands.TypedAppend` | kernel/shell/runtime.c:429-450 | the keys of an append command, from any files |
| `ShellCommands.SessionRuns` | kernel/shell/runtime.c:504-576 | a whole session of lines does what its lines mean, one after the other |
| `MainLoop.ShellFollowsTheKeys` | kernel/kernel.c:723-732 | for every interleaving of IRQ1 with the main loop: the shell is the interpreter run over the characters handed to it, a prefix of the accepted ones, which are the keys pressed without the counted drops, in order |
| `MainLoop.DrainedWithoutDrops` | kernel/kernel.c:723-732 | with the queue drained and nothing dropped, the shell state is the interpreter's for exactly the keys pressed |

## Left out

- Port I/O, the console, the PIC, the PIT, descriptor tables, interrupt entry stubs and the paging
  control registers; console output of the shell is not modelled.
- TLB and paging-structure caches.
- Stack overflow: a scheduler call assumes room for its frame on the caller's own stack.
- Timer progress: how many slices the observer takes depends on when interrupts arrive and is a
  parameter, so whether the fixed budget and minimum of run_task_flow are met is not decided.
- Compiler and hardware reordering of the keyboard queue's loads and stores.
- The boot self-tests other than the page allocator's; they are finite instances of the lemmas.
- system_status.c, the usage and help texts, and the status, clear and about commands, which change no state modelled here.
- Messages for cases proved unreachable: the line that cannot be taken, the text that is too long,
  the listing in a broken state.
- NULL arguments of ipc_send, ipc_receive, the multiboot, RAMFS, parser and editor functions.
- Multiboot.CheckMap: the two passes of walk_memory_map, without and with a visitor, are the two
  methods CheckMap and BootMemory.ImportMap that share NextRecord.
- TaskFlow.FlowStaysInStep: the local sequence variables of producer and consumer are identified with
  produced_messages and consumed_messages, which the tasks advance together with them.
