# Soaplin kernel: a verified model

This project models the parts of the Soaplin kernel whose correctness is least obvious and proves what
they are meant to do. To verify the files, use Dafny 4.11: `dafny verify dfyconfig.toml`.

Five components are modelled. Each has a specification on values, lemmas about all inputs and all runs of
that specification, and, where the kernel works by changing things in place, a class or method that does
the same steps and is proved to compute exactly the specification.

- **Physical pages and virtual memory** (`Words`, `PageStack`, `PageTable`, `AddressSpaces`, `Exhaustion`,
  `MappingCost`, `BootMap`, `Vmm`). Memory is a map from page frames to tables of 512 words. A page table tree is an
  invariant on that map (`Forest`): every table hangs from one slot, except that address spaces may share
  upper-half slots, and no table is on the free stack. The tree is shown to be a flat map from 36-bit page
  number to leaf word.
- **The first-fit heap** (`HeapList`, `HeapLayout`, `HeapRuns`, `HeapAllocator`): bookkeeping for every list,
  and the exact conditions under which blocks stay inside their pages and apart. `SharedStack` mixes the
  calls of heap and page tables on the one stack of free frames that feeds both.
- **The scheduler** (`SchedModel`, `Scheduler`): termination, one running thread, register frames, round robin.
- **nanoprintf** (`NpfDigits`, `NpfSpec`, `NpfFormat`, `NpfReadBack`, `NpfStars`, `NpfManual`, `NpfPrinter`),
  as configured in `kernel/src/tpf/npf.c`: the specification parser, the formatter, reading printed numbers
  back, star arguments and stray precisions, and the truncating buffer. `NpfManual` says a second time what
  each letter prints, from the written specification and the arguments alone.
- **The logger** (`LogProtocol`): `logln` under two spinlocks as interleaved steps of any number of threads.

Conventions. A 64-bit word is an integer below 2^64 (`U64`); addition and subtraction wrap (`Add64`, `Sub64`),
`|` is defined bit by bit (`Or64`), and masks and shifts are written as quotients and remainders. A virtual
address in the direct map is turned into a frame by `VirtualToPhysical` at every access. C strings are
character sequences that end in their first NUL; that an index into one is in bounds is therefore the
statement that nothing behind the NUL is read.

## What the proofs found

Places where a promise does not hold of the code. The code is modelled as it is; each has its exact
condition, and an input that fails.

- The checks of `vmm_new_pagemap` for an empty page stack work only if the direct map has no offset
  (`PHYSICAL_TO_VIRTUAL(NULL)` is otherwise not zero): `AddressSpaces.NullIff`. The walks do not check at
  all. A walk is the update it should be exactly when the tables it is missing are free
  (`PageTable.NextLevelGoodIff`, `PageTable.WalkGoodIff`, `PageTable.SetLeafIsFlatIff`). When they are not, frame
  0 is linked as a table: the table forest survives `vmm_map` exactly when a single table was too many and
  frame 0 was in no use before (`Exhaustion.SetLeafForestIff`, and `Exhaustion.EmptyStackForestIff` for one
  step); `Exhaustion.ExhaustionBreaksForest` is a pair of steps that never keeps it. A caller can rely on three
  free frames for each call (`AddressSpaces.RunHappens`), and on fewer for consecutive pages
  (`MappingCost.MapRangeFrames`).
- `vmm_new_pagemap` copies the upper half so that address spaces share the kernel's mappings. A mapping made
  through the kernel's space shows in another one exactly when both already went through the same table at
  that top-level slot (or the page looked like that anyway): `AddressSpaces.KernelMappingShowsIff`. A slot
  filled before the other space was made is so shared for ever (`AddressSpaces.SharedForever`), one filled
  later is not (`AddressSpaces.LateSlotIsNotShared`).
- `pmm_freepage` trusts its caller: it keeps the free and live frames apart exactly when the frame is live or
  the full stack drops it (`PageStack.FreeKeepsPartitionIff`); a double free is
  `PageStack.DoubleFreeDuplicates`.
- `pmm_free` merges list neighbours that do not touch in memory. `HeapLayout.FreeKeepsLayoutIff` is the exact
  condition, and `HeapRuns.CoalescingAcrossPages` a run that ends with a payload in a free page frame.
- `pmm_alloc` records the size asked for even when a fresh page is smaller: `HeapLayout.AllocKeepsLayoutIff`.
  The kernel does ask for too much: a thread's stack takes 4096 bytes (`kernel/src/arch/x86_64/sched.c:20`),
  `HeapLayout.StackRequestBreaksLayout`. `pmm_alloc` still computes its list afterwards
  (`HeapAllocator.RoomAfterStackRequest`).
- `sched_new` cuts the process chain behind the current process (`SchedModel.NewProcessKeepsIff`,
  `SchedModel.DroppedForever`). The first process made after start-up (`kernel/src/kmain-x86_64.c:96`) so
  drops the idle process: `SchedModel.IdleIsDropped`.
- A DEAD thread stays DEAD and never runs again exactly as long as it is not the one preempted
  (`SchedModel.DeadAfterIff`, and over every run `SchedModel.DeadStaysDead`); marked DEAD while it runs, it is
  revived by the next tick (`SchedModel.PreemptionRevives`). Nothing in the repository sets DEAD, which is only
  read, at `kernel/src/arch/x86_64/sched.c:116`: `Kill` in the model is an event from outside.
- In nanoprintf the `0` flag with a negative `*` width puts zeros behind the number
  (`NpfManual.NumberReadsBack` and `NpfReadBack.PrintedReadsBack` have the exact condition, `NpfReadBack.ZerosBehindNeedStar` says which formats
  and arguments can meet it, `NpfReadBack.NegativeStarWidthMisreads` is an input). Likewise a negative `*`
  width -n prints what the flag `-` and the width n print exactly when the padding is blank or empty
  (`NpfStars.NegativeStarWidthIff`).
- `%.-N` should count as no precision but keeps N: `NpfStars.WrittenMinusPrecisionIff` says when that shows, and
  `%.-3d` of 5 prints `005` (`NpfStars.MinusPrecisionPads`). `NpfStars.MinusPrecisionShowsIff` says the same of
  any precision that is not to count, such as one on `%p`, and
  `NpfStars.CharacterPrecisionShowsIff` one on `%c` and `%%`: they pad with zeros exactly from 2 on.
- A negative `*` precision should count as omitted but still cancels the `0` flag
  (`NpfStars.NegativePrecisionMeans`): `NpfStars.WrittenNegativePrecisionIff` says when that shows, and `%05.*d`
  of -1 and 42 prints three blanks and `42` (`NpfStars.NegativePrecisionBlanks`).
- `pmm_used_mem` is counted down from zero by `pmm_init`, so used and free memory add up to 0 modulo 2^64
  (`PageStack.Allocator.Init`).
- The kernel's `strlen` counts the terminating NUL, so every log line carries two NULs to the serial port
  (`LogProtocol.ProgramSendsLine`, `LogProtocol.TraceCarriesNuls`); cut at them, the trace gives the calls back
  (`LogProtocol.TraceReadsBack`).

## Model

| member | source | states |
|---|---|---|
| Words.TableEntryReadsBack | kernel/src/mm/vmm.c:116-121 | An entry written for a frame is present and `PTE_GET_ADDR` gives the frame back |
| Words.LeafReadsBack | kernel/src/mm/vmm.h:11-13 | A leaf word is its frame plus its flags, and decodes to the frame; it is present if bit 0 is among them |
| Words.HhdmRoundTrip | kernel/src/mm/vmm.h:19-20 | The two address conversions add and take away the offset modulo 2^64 and are inverse in both directions |
| PageStack.Allocator.FreePage | kernel/src/mm/pmm.c:21-35 | Pushes the frame, drops it if the stack is full, does nothing before initialization; the statistics stay 4096 times the top |
| PageStack.Allocator.AllocPage | kernel/src/mm/pmm.c:37-51 | Pops the top frame, NULL if there is none; the statistics stay in step |
| PageStack.Allocator.Init | kernel/src/mm/pmm.c:162-194 | The stack holds the first 32768 frames of the listed ones, in order, or all if there are fewer; used plus free memory is 0 modulo 2^64; the total has grown by the blocks of all entries not reserved |
| PageStack.UsablePageInside | kernel/src/mm/pmm.c:179-191 | Every frame listed lies wholly in a usable entry |
| PageStack.UsablePagesDistinct | kernel/src/mm/pmm.c:179-191 | With disjoint page-aligned entries no frame is listed twice |
| PageStack.UsablePagesInOrder | kernel/src/mm/pmm.c:179-191 | Every whole block of every usable entry is listed, in front of all blocks behind it in the entry and of all later entries |
| PageStack.TotalIsFrames | kernel/src/mm/pmm.c:166-178 | The total counts 4096 bytes for each frame there would be if all that is not reserved were usable |
| PageStack.InitialPartition | kernel/src/mm/pmm.c:162-194 | After `pmm_init` the free frames are distinct |
| PageStack.RunPartitions | kernel/src/mm/pmm.c:21-51 | Over every run of allocations and frees of live frames, free and live frames partition the frames there were at the start |
| PageStack.FreeKeepsPartitionIff | kernel/src/mm/pmm.c:21-35 | A free keeps free and live frames a partition if and only if the frame is live or the stack is full |
| PageStack.DoubleFreeDuplicates | kernel/src/mm/pmm.c:21-35 | A second free of one frame breaks the partition: the frame is on the stack twice |
| PageTable.NextLevelGoodIff | kernel/src/mm/vmm.c:115-122 | A step of a walk keeps the table forest and every lookup from every table, relinks nothing, and takes one frame if and only if it finds its table or a free frame |
| PageTable.WalkGoodIff | kernel/src/mm/vmm.c:129-131 | A walk does so, ends in the leaf table of its page and takes exactly as many frames as tables were missing if and only if that many are free |
| PageTable.Digits | kernel/src/mm/vmm.c:124-127 | The four table indexes are the base-512 digits of the page number, the top-level one first |
| PageTable.SamePageIsPageNumber | kernel/src/mm/vmm.c:124-127 | The four table indexes determine the 36-bit page number and are determined by it |
| PageTable.SameLeafWord | kernel/src/mm/vmm.c:133-133 | Two paths end in the same leaf word exactly if they are for the same page through the same top-level entry |
| PageTable.SetLeafIsFlatIff | kernel/src/mm/vmm.c:123-147 | `vmm_map` and `vmm_unmap` are one update of a flat map from page number to leaf word, for every address space, with no frame lost, if and only if the missing tables are free |
| AddressSpaces.FirstForest | kernel/src/mm/pmm.c:162-194 | The stack `pmm_init` leaves is a table forest without tables |
| AddressSpaces.UnmapUndoesMap | kernel/src/mm/vmm.c:136-147 | Unmapping after mapping takes no frame and restores every lookup of every address space if and only if the page was not mapped before |
| AddressSpaces.NewPagemapForest | kernel/src/mm/vmm.c:70-103 | `vmm_new_pagemap` succeeds with three free frames, keeps the forest and changes no other address space |
| AddressSpaces.NewPagemapStructures | kernel/src/mm/vmm.c:78-79 | Every `pagemap` structure keeps pointing at its own top-level table |
| AddressSpaces.NewPagemapRegions | kernel/src/mm/vmm.c:87-96 | The second word of a new structure points at a region list head of its own, linked to itself |
| AddressSpaces.RegionsStay | kernel/src/mm/vmm.c:70-147 | Over every run that head stays as it was made |
| AddressSpaces.StepIsCall | kernel/src/mm/vmm.c:70-147 | The calls of a run: the page is the address divided by 4096, the word the address OR the flags, 0 for unmapping |
| AddressSpaces.NewPagemapLooks | kernel/src/mm/vmm.c:98-100 | A new address space shows exactly the kernel's upper half and nothing in the lower half |
| AddressSpaces.NullIff | kernel/src/mm/vmm.c:71-92 | NULL is returned if and only if the direct map has no offset and fewer than three frames are free |
| AddressSpaces.ExhaustionNoticedWithoutOffset | kernel/src/mm/vmm.c:71-92 | Without an offset a failing call is rolled back: free frames, tables and address spaces are what they were |
| Exhaustion.ExhaustionBreaksForest | kernel/src/mm/vmm.c:115-122 | With an empty stack, two walks through one table hang the same frame from two slots |
| Exhaustion.EmptyStackForestIff | kernel/src/mm/vmm.c:115-122 | A step that finds an absent entry and an empty stack keeps the forest if and only if frame 0 is not yet part of it (but for the same slot of another top-level table) |
| Exhaustion.SetLeafForestIff | kernel/src/mm/vmm.c:123-147 | `vmm_map` and `vmm_unmap` keep the forest if and only if the missing tables are free, or a single one is not and frame 0 is in no use |
| AddressSpaces.StepKeepsIff | kernel/src/mm/vmm.c:70-147 | A call keeps the invariant and every link, takes what it needs and keeps the number of frames in all roles together if and only if the frames it needs are free |
| AddressSpaces.RunKeeps | kernel/src/mm/vmm.c:70-147 | Over every run of calls whose frames are free the forest holds, no present intermediate entry changes, and no frame is lost or duplicated |
| AddressSpaces.RunHappens | kernel/src/mm/vmm.c:70-147 | Three free frames for each call are enough for any run of calls on existing address spaces |
| AddressSpaces.LowerHalfIsPrivate | kernel/src/mm/vmm.c:98-147 | Over every run a lower-half page holds the last word written through its own address space |
| AddressSpaces.UntouchedPage | kernel/src/mm/vmm.c:115-147 | A page no call names keeps its lookup in every address space |
| AddressSpaces.SharedForever | kernel/src/mm/vmm.c:98-100 | A kernel slot 256 to 511 present at creation gives equal lookups in both address spaces after any further run |
| AddressSpaces.KernelMappingShowsIff | kernel/src/mm/vmm.c:98-134 | A mapping made through the kernel's space shows in another if and only if, before it, both went through the same table at the top level, or the page looked like that already |
| AddressSpaces.LateSlotIsNotShared | kernel/src/mm/vmm.c:98-134 | In a space just made, a mapping through a slot the kernel had not filled then does not show, only in the kernel's space |
| MappingCost.NextPageCost | kernel/src/mm/vmm.c:124-131 | After a page, the next one needs at most one table for each index that carries |
| MappingCost.MapRangeGood | kernel/src/mm/vmm.c:47-58 | A range of pages mapped in order ends with every page at its word, within the bound, all frames taken being tables |
| MappingCost.MapRangeFrames | kernel/src/mm/vmm.c:47-58 | Mapping n consecutive pages takes at most the sum over S = 512, 512^2, 512^3 of (n + S - 2) / S + 1 frames, and with so many free every page ends at its word |
| BootMap.WritesOnce | kernel/src/mm/vmm.c:46-64 | With disjoint ranges no page number is written twice at boot |
| BootMap.BootLookups | kernel/src/mm/vmm.c:46-64 | Every page written at boot looks up to what its own iteration wrote: no later iteration undoes it |
| BootMap.SectionPages | kernel/src/mm/vmm.c:46-58 | Every text, rodata and data page looks up to its load address with the flags of its section |
| BootMap.SectionWords | kernel/src/mm/vmm.c:46-58 | In numbers: load address plus 1 for text, plus bit 63 for rodata, plus 3 and bit 63 for data |
| BootMap.BudgetBound | kernel/src/mm/vmm.c:46-64 | The frames set aside for the boot are at most 4112 and, for each section of n pages, the sum over S = 512, 512^2, 512^3 of (n + S - 2) / S + 1 |
| BootMap.HigherHalfIsDisjoint | kernel/src/mm/vmm.c:46-64 | An image linked at -2 GiB with the direct map at the start of the upper half has ranges that share no page |
| BootMap.SectionWordDecodes | kernel/src/mm/vmm.c:47-58 | That word is present and decodes to the load address |
| BootMap.DirectPages | kernel/src/mm/vmm.c:61-64 | Every page of the first 4 GiB is present and writable at its own address and in the direct map |
| BootMap.SectionPrefix | kernel/src/mm/vmm.c:46-58 | After any number of rounds of a section loop the lookups are the writes so far, the forest holds, and the frames set aside for the rest are still free |
| BootMap.DirectPrefix | kernel/src/mm/vmm.c:61-64 | The same after any number of writes of the loop that interleaves two ranges |
| BootMap.DirectFrames | kernel/src/mm/vmm.c:61-64 | That loop over the first 4 GiB takes at most 4112 frames |
| Vmm.IndexIsSlot | kernel/src/mm/vmm.c:124-127 | The indexes cut out of an address are the table indexes of its page number |
| Vmm.Manager.GetNextLevel | kernel/src/mm/vmm.c:115-122 | Computes one step of the walk on memory, page stack and tables |
| Vmm.Manager.WalkDown | kernel/src/mm/vmm.c:124-131 | Three steps compute the walk from the top-level table to the leaf table, frames running out included |
| Vmm.Manager.Map | kernel/src/mm/vmm.c:123-134 | The memory after it is the specified one, and the flat update with address and flags if and only if the missing tables were free |
| Vmm.Manager.Unmap | kernel/src/mm/vmm.c:136-147 | The memory after it is the specified one, and the flat update with 0 if and only if the missing tables were free |
| Vmm.Manager.NewPagemap | kernel/src/mm/vmm.c:70-103 | Computes the specified new address space, or NULL after a rollback, frames running out included |
| Vmm.Manager.CopyUpperHalf | kernel/src/mm/vmm.c:98-100 | The loop copies exactly slots 256 to 511 and leaves the others |
| Vmm.Manager.CreateKernelPagemap | kernel/src/mm/vmm.c:20-32 | The kernel's address space, empty, in three frames: structure, table and region list head |
| Vmm.Manager.MapSection | kernel/src/mm/vmm.c:46-58 | A section loop writes exactly the section's pages and leaves the frames not set aside for it |
| Vmm.Manager.MapDirect | kernel/src/mm/vmm.c:60-64 | The last loop writes both pages of each of its rounds and leaves the frames not set aside for it |
| Vmm.Manager.Init | kernel/src/mm/vmm.c:16-68 | Afterwards every lookup is the last of the specified boot writes, the forest holds, no more frames are gone than budgeted; and if the direct map reaches all memory, the kernel's address space is loaded and runs of calls can start from it |
| HeapList.AllocBooks | kernel/src/mm/pmm.c:53-104 | Allocation takes the first free block that fits and a page only if none does; sizes add up; the blocks in use grow by exactly the result |
| HeapList.AllocCuts | kernel/src/mm/pmm.c:64-86 | The first free block with room for request and header serves it, cut in two exactly if more than another header is left |
| HeapList.AllocTakesPage | kernel/src/mm/pmm.c:88-103 | If no block serves a request the top page becomes a block in use at the end of the list |
| HeapList.CoalesceBooks | kernel/src/mm/pmm.c:119-122 | Coalescing keeps the sum of the sizes and the blocks in use |
| HeapList.CoalesceSwallows | kernel/src/mm/pmm.c:119-122 | A freed block swallows exactly the free blocks that follow it in the list, up to the next one in use |
| HeapList.FreeBooks | kernel/src/mm/pmm.c:106-123 | Freeing removes exactly its block from those in use and loses no bytes |
| HeapLayout.NoOverlap | kernel/src/mm/pmm.c:53-123 | In a well laid out heap no two listed blocks share a byte |
| HeapLayout.FreeKeepsLayoutIff | kernel/src/mm/pmm.c:116-122 | `pmm_free` keeps the layout if and only if the block and the free blocks behind it in the list fit in the block's page |
| HeapLayout.SamePageFreeIsSafe | kernel/src/mm/pmm.c:119-122 | That holds when only blocks of the same page are swallowed |
| HeapLayout.AllocKeepsLayoutIff | kernel/src/mm/pmm.c:62-103 | `pmm_alloc` keeps the layout if and only if the request with its header fits what serves it, wrapping sizes included |
| HeapLayout.SmallRequestsAreSafe | kernel/src/mm/pmm.c:62-103 | That holds for requests of at most 4072 bytes |
| HeapLayout.StackRequestBreaksLayout | kernel/src/arch/x86_64/sched.c:20-20 | A thread's stack does not fit the fresh page it is served from |
| HeapRuns.StepKeeps | kernel/src/mm/pmm.c:53-123 | Every legal call keeps the layout and the used blocks exactly the live allocations, each with at least the bytes asked for |
| HeapRuns.RunKeeps | kernel/src/mm/pmm.c:53-123 | The same over every legal run |
| HeapRuns.PayloadsAreApart | kernel/src/mm/pmm.c:53-123 | Over every legal run live payloads share no byte with each other or with each other's headers |
| HeapRuns.PayloadInItsPage | kernel/src/mm/pmm.c:53-123 | A live payload lies in one page, and that page is not free |
| HeapRuns.CoalescingAcrossPages | kernel/src/mm/pmm.c:119-122 | Two frees and two requests that hand out a payload in a free page frame |
| HeapAllocator.LayoutHasRoom | kernel/src/mm/pmm.c:62-103 | In a well laid out heap the header `pmm_alloc` writes overlaps no other |
| HeapAllocator.RoomAfterStackRequest | kernel/src/mm/pmm.c:62-103 | Nor does it after a thread's stack has broken the layout |
| SharedStack.RunKeeps | kernel/src/mm/pmm.c:37-123 | Over every run that mixes heap and paging calls on one stack, with heap memory written freely in between, the page tables stay a forest, the heap well laid out, and no frame serves both |
| SharedStack.PayloadIsNoTable | kernel/src/mm/pmm.c:53-104 | No byte of a live payload lies in a page table or `pagemap` structure |
| SharedStack.LowerHalfIsPrivate | kernel/src/mm/vmm.c:115-147 | In such a run a lower-half page holds the last word a paging call wrote through its own address space, whatever the heap and its callers did |
| SharedStack.EmptyHeap | kernel/src/mm/vmm.c:16-68 | Where the boot ends, page tables made and heap empty, mixed runs can start |
| HeapAllocator.Allocator.Alloc | kernel/src/mm/pmm.c:53-104 | The linked headers afterwards are the specified list and the result the specified address, unless a header would overlap another |
| HeapAllocator.Allocator.Search | kernel/src/mm/pmm.c:64-86 | The loop stops at the first free block that is large enough |
| HeapAllocator.Allocator.SplitBlock | kernel/src/mm/pmm.c:71-79 | The block is cut in two, the rest free and linked behind it |
| HeapAllocator.Allocator.Free | kernel/src/mm/pmm.c:106-123 | The linked headers afterwards are the specified coalesced list |
| SchedModel.ScheduleRunsOne | kernel/src/arch/x86_64/sched.c:96-136 | `schedule` leaves exactly one thread RUNNING, the one it returns to |
| SchedModel.RunRunsOne | kernel/src/arch/x86_64/sched.c:49-136 | Over every run no thread but the current one is RUNNING |
| SchedModel.DeadAfterIff | kernel/src/arch/x86_64/sched.c:96-136 | After `schedule` a thread is DEAD if and only if it was and was not the one preempted |
| SchedModel.DeadStaysDead | kernel/src/arch/x86_64/sched.c:96-136 | Over every run a thread DEAD while it is not current stays DEAD and is never resumed |
| SchedModel.PreemptionRevives | kernel/src/arch/x86_64/sched.c:100-101 | A thread marked DEAD while it runs is no longer DEAD after the tick |
| SchedModel.NewProcessKeepsIff | kernel/src/arch/x86_64/sched.c:91-91 | `sched_new` keeps a chained process in the chain if and only if it is not behind the current one |
| SchedModel.IdleIsDropped | kernel/src/arch/x86_64/sched.c:82-94 | The idle process of the start-up is dropped by the next process made |
| SchedModel.DroppedForever | kernel/src/arch/x86_64/sched.c:82-136 | A process dropped from the chain never returns to it |
| SchedModel.FramesSurvive | kernel/src/arch/x86_64/sched.c:100-135 | Over every run a thread is resumed with exactly the frame saved at its last preemption, or the one it was created with; the thread preempted is the one resumed last |
| SchedModel.FirstResumed | kernel/src/arch/x86_64/sched.c:70-75 | Over every run a new thread is first resumed at its entry point, on its stack, in kernel segments, with interrupts on and a zero frame pointer |
| SchedModel.Step | kernel/src/arch/x86_64/sched.c:49-136 | Every operation keeps the chain without repetition, with the current process on it and the current thread in its list |
| SchedModel.NextLive | kernel/src/arch/x86_64/sched.c:103-129 | The search around the chain ends, and at a process that can run |
| SchedModel.NextLiveIsFirst | kernel/src/arch/x86_64/sched.c:103-129 | The search stops at the first process after the current one, around the chain, that has a thread not DEAD |
| SchedModel.TickMoves | kernel/src/arch/x86_64/sched.c:96-136 | One tick moves to the next live process of the chain and to its first thread that is not DEAD |
| SchedModel.CurrentIsLive | kernel/src/arch/x86_64/sched.c:103-129 | A current process whose thread is not DEAD is one of those that take turns |
| SchedModel.RoundRobin | kernel/src/arch/x86_64/sched.c:96-136 | With a fixed set of DEAD threads the live processes take turns in chain order |
| SchedModel.EveryoneOncePerRound | kernel/src/arch/x86_64/sched.c:96-136 | Among any m consecutive ticks, m being the number of live processes, there is exactly one after which a given live process is current |
| Scheduler.Scheduler.constructor | kernel/src/arch/x86_64/sched.c:28-41 | The kernel process with its running thread satisfies the list invariant |
| Scheduler.Scheduler.StartIdle | kernel/src/arch/x86_64/sched.c:43-44 | Adds the idle process with one READY thread |
| Scheduler.Scheduler.PickThread | kernel/src/arch/x86_64/sched.c:113-123 | The inner loop finds the first thread that is not DEAD, if there is one |
| Scheduler.Scheduler.FindNext | kernel/src/arch/x86_64/sched.c:103-129 | The outer loop terminates, at the next live process |
| Scheduler.Scheduler.Schedule | kernel/src/arch/x86_64/sched.c:96-136 | The linked lists afterwards are the specified state, the frame returned the specified one |
| Scheduler.Scheduler.NewProcess | kernel/src/arch/x86_64/sched.c:82-94 | The new process has the next pid, is linked behind the current one and ends the chain |
| Scheduler.Scheduler.NewThread | kernel/src/arch/x86_64/sched.c:49-80 | A READY thread with the next tid at the end of the process's list, with entry point, stack, segments and flags in its context |
| NpfDigits.DigitsReadBack | kernel/src/tpf/npf.h:530-540 | The converted digits, read most significant first, give the number back |
| NpfDigits.NoLeadingZero | kernel/src/tpf/npf.h:530-540 | The most significant digit is zero only for the number zero |
| NpfDigits.FitsBuffer | kernel/src/tpf/npf.h:69-76 | Every 64-bit number has at most 22 digits in bases 8, 10 and 16 |
| NpfDigits.BinLenFits | kernel/src/tpf/npf.h:780-820 | A 64-bit number has at most 64 binary digits |
| NpfDigits.BinaryDigit | kernel/src/tpf/npf.h:1187-1190 | The binary text has `npf_bin_len` digits, and digit i is bit i |
| NpfDigits.UtoaRev | kernel/src/tpf/npf.h:530-540 | The loop writes exactly the reversed digits and nothing behind them |
| NpfSpec.ParseFormatSpec | kernel/src/tpf/npf.h:295-528 | Computes the specified fields and length, 0 if malformed, without reading behind the NUL |
| NpfSpec.ParseNumber | kernel/src/tpf/npf.h:342-345 | A digit loop reads the value of the digits and stops behind them |
| NpfSpec.FlagsMean | kernel/src/tpf/npf.h:307-333 | Flags mean the same in any order and number: '-' beats '0', '+' beats ' ' |
| NpfSpec.RenderParses | kernel/src/tpf/npf.h:295-528 | A written specification parses to its normalized fields and its exact length |
| NpfSpec.ParsedIsRendered | kernel/src/tpf/npf.h:295-528 | Whatever parses is a written specification of the length reported |
| NpfSpec.AcceptsExactlyWritten | kernel/src/tpf/npf.h:523-527 | The parser accepts if and only if a written specification stands there |
| NpfFormat.EmitLength | kernel/src/tpf/npf.h:1118-1206 | An integer conversion emits exactly the wider of its field and of sign, prefix and the larger of precision and digits |
| NpfFormat.SignedMeans | kernel/src/tpf/npf.h:942-956 | A signed argument is cut down to the type its length modifier names, two's complement |
| NpfFormat.PaddingIsOutside | kernel/src/tpf/npf.h:1142-1206 | Blank padding stands outside the bare number, and zeros in front are the same as a larger precision |
| NpfFormat.DigitsFit | kernel/src/tpf/npf.h:1015-1030 | Digits fit 23 bytes, octal's extra zero included; binary has at most 64 |
| NpfFormat.FirstDigit | kernel/src/tpf/npf.h:1002-1030 | The first digit is a zero only for zero and for octal's alternative form |
| NpfFormat.StringEndMeans | kernel/src/tpf/npf.h:926-938 | The end of a string argument is its first NUL or, if that comes first, its precision; there is none if and only if the memory ends before both |
| NpfReadBack.PlainText | kernel/src/tpf/npf.h:870-875 | Text without '%' is printed as it stands |
| NpfReadBack.FormatWritten | kernel/src/tpf/npf.h:870-876 | A written specification prints the conversion it means, and printing goes on behind it |
| NpfReadBack.IntegerReadsBack | kernel/src/tpf/npf.h:940-1206 | The text of every integer conversion reads back to the extracted argument if and only if no padding zeros follow a nonzero number |
| NpfReadBack.NegativeStarWidthMisreads | kernel/src/tpf/npf.h:880-886 | `%0*d` with -5 and 42 reads back to another number |
| NpfReadBack.PrintedReadsBack | kernel/src/tpf/npf.h:862-1210 | Printing any written integer specification, stars included, and reading the text gives the argument if and only if no padding zeros follow a nonzero number |
| NpfReadBack.ZerosBehindNeedStar | kernel/src/tpf/npf.h:880-886 | They follow only for a `*` width with a negative argument, the flag `0` and no flag `-` |
| NpfManual.Spelled | kernel/src/tpf/npf.h:295-528 | A written specification is a percent sign, flags, width, precision, length modifier and letter, in these characters |
| NpfManual.NumeralReads | kernel/src/tpf/npf.h:530-540 | The digit reader, which also reads widths and precisions, reads positional numerals |
| NpfManual.NumberPrints | kernel/src/tpf/npf.h:940-1206 | d, i, u, o, x, X, b, B and p print the argument, as the type named by letter and length modifier holds it, as a numeral of the letter's base and case with the sign, prefix, zeros and padding that flags, width and precision ask for, and take one argument |
| NpfManual.NumberReadsBack | kernel/src/tpf/npf.h:862-1210 | Reading that text in base 10, 8, 16 or 2 gives that value if and only if no padding zeros follow a nonzero number |
| NpfManual.CharacterPrints | kernel/src/tpf/npf.h:920-924 | c prints the lowest byte of its argument, in its field |
| NpfManual.PercentPrints | kernel/src/tpf/npf.h:915-918 | Two percent signs print one and take no argument |
| NpfManual.StringPrints | kernel/src/tpf/npf.h:926-938 | s prints its argument up to the NUL or the precision, in its field, and takes one argument |
| NpfManual.LonePercentPrints | kernel/src/tpf/npf.h:870-875 | A percent sign that begins no written specification is printed as it stands |
| NpfManual.LogPrefix | kernel/src/sys/log.c:30-30 | The logger's prefix is the component, a dash, the level and a colon |
| NpfStars.StarWidthIsLiteral | kernel/src/tpf/npf.h:880-886 | A nonnegative width taken by `*` prints what the same width written in the format prints, for every conversion |
| NpfStars.StarPrecisionIsLiteral | kernel/src/tpf/npf.h:888-894 | The same for a precision |
| NpfStars.NegativeStarWidthIff | kernel/src/tpf/npf.h:880-886 | A width -n taken by `*` prints what the flag `-` and the width n print if and only if the pad character is a blank or there is no padding |
| NpfStars.WrittenMinusPrecisionIff | kernel/src/tpf/npf.h:350-367 | A written `%.-N` with any flags, width and star argument prints what it prints without `.-N` if and only if the number has N digits anyway or its zeros take the place of padding zeros |
| NpfStars.MinusPrecisionShowsIff | kernel/src/tpf/npf.h:1118-1128 | The same of every specification whose precision is not to count |
| NpfStars.MinusPrecisionPads | kernel/src/tpf/npf.h:350-367 | `%.-3d` of 5 prints `005` |
| NpfStars.CharacterPrecisionShowsIff | kernel/src/tpf/npf.h:1118-1140 | A precision on `%c` or `%%` shows if and only if it is 2 or more |
| NpfStars.NegativePrecisionMeans | kernel/src/tpf/npf.h:888-894 | A negative `*` precision leaves the specification without a precision but for the zero flag it has cancelled and the negative number in its field |
| NpfStars.WrittenNegativePrecisionIff | kernel/src/tpf/npf.h:888-894 | A written `%.*` with the flag `0` and a negative argument prints what it prints without a precision if and only if there is no padding |
| NpfStars.NegativePrecisionBlanks | kernel/src/tpf/npf.h:888-894 | `%05.*d` of -1 and 42 prints three blanks and `42`, `%05d` of 42 prints `00042` |
| NpfPrinter.BitTextIsBinary | kernel/src/tpf/npf.h:1187-1190 | Shifting bits out from the top prints the binary digits |
| NpfPrinter.MeasureString | kernel/src/tpf/npf.h:926-938 | The loop finds that end without reading behind it: no NUL before it, and a NUL or the precision there |
| NpfPrinter.ConvertArgument | kernel/src/tpf/npf.h:915-1094 | The conversion buffer, string or bits show exactly the specified digits, sign and prefix |
| NpfPrinter.Printer.PutC | kernel/src/tpf/npf.h:823-845 | Counts the byte and stores it if there is room: the buffer holds as much of the output as fits |
| NpfPrinter.Printer.EmitItem | kernel/src/tpf/npf.h:1096-1206 | Sends exactly the specified text of one conversion |
| NpfPrinter.Printer.Vpprintf | kernel/src/tpf/npf.h:862-1210 | Sends exactly what the pure formatter says, and returns its length |
| NpfPrinter.TruncatedHolds | kernel/src/tpf/npf.h:1239-1251 | The buffer holds the first min(n, bufsz - 1) bytes and a NUL, its last byte is NUL, and the rest is unchanged |
| NpfPrinter.Vsnprintf | kernel/src/tpf/npf.h:1232-1254 | Returns the full length whatever the buffer, and leaves the truncated text in it; nothing is written to a null or empty buffer |
| LogProtocol.ProgramSendsLine | kernel/src/sys/log.c:24-43 | A call sends its prefix, a NUL, its message and a NUL |
| LogProtocol.StepKeeps | kernel/src/core/lock/spinlock.c:6-21 | Every atomic step keeps both locks exclusive and the serial trace made of whole lines |
| LogProtocol.EveryInterleaving | kernel/src/sys/log.c:20-46 | Over every interleaving of any number of threads both locks are mutually exclusive, and the serial trace is whole lines in the order the lock was taken plus at most a part of the holder's line |
| LogProtocol.TraceIsBeginning | kernel/src/sys/log.c:20-46 | At any time the trace is a beginning of the whole lines of the calls in the order the lock was taken |
| LogProtocol.TraceReadsBack | kernel/src/sys/log.c:20-46 | Whenever the lock is free, the trace cut at its NULs is the prefix and the message of each call, in order |
| LogProtocol.TraceCarriesNuls | kernel/src/sys/log.c:24-43 | A serial trace of whole lines holds two NULs for each call |
| LogProtocol.SomeoneMoves | kernel/src/sys/log.c:20-46 | Logger before console admits no circular wait: if a thread is busy, some busy thread is not spinning |
| LogProtocol.Drains | kernel/src/sys/log.c:20-46 | From every reachable state all calls can finish, and then the trace is whole lines only |

## Left out

- AddressSpaces.UnmapUndoesMap: asks for the tables the mapping is missing to be free, without which the mapping is not the flat update (`PageTable.SetLeafIsFlatIff`).
- AddressSpaces.KernelMappingShowsIff: the same.
- AddressSpaces.RunKeeps: speaks of runs in which each call finds the frames it needs, without which the first call that does not find them breaks the statement (`AddressSpaces.StepKeepsIff`).
- AddressSpaces.LowerHalfIsPrivate: the same, as its statement is about the same runs.
- AddressSpaces.UntouchedPage: the same.
- AddressSpaces.SharedForever: the same.
- SharedStack.RunKeeps: asks the same of its paging calls, and of its heap calls what `HeapRuns` asks, a request of at most 4072 bytes or a free that satisfies `HeapLayout.FreeSafe`.
- AddressSpaces.NewPagemap: with a direct-map offset and no free frame the code writes through a null table pointer; the function describes what that does where low memory is mapped at its own address, as it is in the kernel's address space.
- Vmm.Manager.NewPagemap: with an offset and less than three free frames, requires that neither the new structure's frame nor that of the kernel's is frame 0, which the region head then overwrites; so it does not model a call with no free frame.
- Vmm.Manager.Init: requires a direct map with an offset that does not wrap around over 4 GiB, well-formed section bounds, and the frames the loops may need.
- HeapAllocator.Allocator.Alloc: requires that the header it writes, for the rest of a split block or on a fresh page, overlaps no other (`HeapAllocator.HasRoom`), because header records that overlap are not modelled in memory; it asks for no layout, and `HeapLayout.AllocKeepsLayoutIff` covers every request on values.
- HeapAllocator.Allocator.Free: takes the list position of its block as a ghost argument; a bad argument is not modelled.
- Scheduler.Scheduler.NewProcess: does not model process names or a failing heap.
- Scheduler.Scheduler.NewThread: takes the stack address and the fresh memory as arguments, and does not model names, parents or a failing heap.
- NpfPrinter.Printer.Vpprintf: requires the arguments a format needs to be there and of the right kind, as C does; `int` overflow of widths, precisions and the count is not modelled.
- NpfSpec.ParseNumber: does not model `int` overflow of the number.
- The float and write-back halves of nanoprintf, which the kernel configures off.
- `pmm_realloc`, which nothing calls, and `sched_alloc_stack` as a client of the heap.
- Physical memory as bytes: tables are records of 512 words and heap headers records of their own, so a wild write into them is not modelled.
- `memcpy`, `memset` and the kernel's string functions as code; their effect is part of the steps that use them.
- The CR3 write, other inline assembly, interrupts, descriptor tables and port input/output; the serial port is a sequence of bytes.
- The console beyond its lock: a disabled console, whose functions return with the lock held, is not modelled, nor is the spinlock's panic after 30000 rounds.
- Fairness between spinning threads: the spinlock does not promise any.
- The linker symbols, the memory map and the kernel's load address, which are arguments.
- Region lists of address spaces beyond their creation, process and thread names, and the syscall table.
