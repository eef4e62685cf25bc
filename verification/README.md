# neilOS in Dafny

A model of the parts of neilOS whose correctness is about whole runs: the kernel heap, the
scheduler with its context switch, the physical page allocator with the page tables and the TLB,
the terminal, and the FAT12 loader. For each there is a specification on values, the theorems
about it, and the code itself as methods on mutable state, proved to follow the specification.

| files | source | what is proved |
|---|---|---|
| `Kmalloc`, `KernelHeap` | `kernel/mm/kmalloc.c` | the block list is the unique canonical list of its live blocks; frees commute; NULL means no room |
| `Scheduler`, `ContextSwitch`, `Kernel` | `kernel/scheduler/scheduler.c`, `kernel/arch/x86/isr.asm` | bounded waiting, with tight bounds; every task computes as if it had the processor alone |
| `Physical`, `Paging`, `TableAccess`, `AddressSpace`, `PagingUnit` | `kernel/mm/physical.c`, `kernel/mm/paging.c` | bitmap refines a set; two levels refine a flat map; TLB coherence; exactly when the kernel can reach its own tables |
| `Terminal`, `TerminalFormat`, `TerminalUnit` | `kernel/drivers/video/vga.c` | the screen is a coherent cache of the buffer; the buffer is a window on an unbounded terminal |
| `Fat12`, `Transfer`, `Loader`, `Directory` | `boot/stage2/stage2.c`, `boot/stage2/disk.asm` | packed entries round-trip; CHS is exact exactly below capacity; stage 2 jumps exactly when the kernel is found and can be loaded |

`dafny verify dfyconfig.toml` checks everything.

## How the model is set up

- C integers are unbounded, with wrap-around written out where it can happen: `ALIGN8` and
  `reserve_range` modulo 2^32, `g_data_sectors` modulo 2^32, the FAT offset and the segment that a
  sector is loaded to modulo 2^16.
- Bit operations on page-table words, FAT entries and the CHS registers are written as the
  division, remainder and addition they amount to. The page bitmap uses real bit vectors.
- Handlers and `irq_save` sections run with interrupts off, so each is one step. `task_block` is
  two steps, because it stores BLOCKED with interrupts on before it traps.
- `kmalloc.c`, `physical.c` and `paging.c` have no `irq_save`, nor have `vga_clear`, `vvga_write` and the
  scrolling calls of `vga.c`. The theorems about runs of them take each call as one step: they assume
  that no task is preempted inside a call. `OverlappingMallocs` and `OverlappingAllocs` say what two
  calls do that both search before either takes what it found.
- Tasks are assumed to write only inside their own stacks, and to leave room there for an
  interrupt frame and what the handler pushes below it.
- Clients of the page allocator are assumed to free and write only frames they own.
- The page-table code reaches every table, and the directory, through the virtual page with the
  number of its frame, and faults when that page is not mapped; a fault ends the run, because the
  handler returns to the instruction that faulted. These accesses walk the tables; where the tables
  are in reach a TLB entry would say the same, as the TLB is coherent. Only in a call that is not safe
  can clearing a new table zero an old one behind the TLB's back: the "only if" of
  `MapReachableExactly`, `StepReachableExactly` and `RunReachableExactly` assumes that every access walks
  the tables throughout the call. The pages of the kernel's code, stack, bitmap and screen are assumed
  mapped. Frames outside the 64 MiB of memory read as 0 and ignore stores.
- The TLB may load any present translation at any moment, also between the store of an entry and
  `invlpg`, and may drop any entry.
- A disk read either delivers the sector that the packed registers name or fails. Failure stands
  for three failed tries.
- While stage 2 runs, every address up to 0x10FFEF is taken to be RAM, video memory and ROM above
  0xA0000 included, which a file over 0x97000 bytes runs into; and the BIOS and the loader's code are
  taken to survive what a load overwrites. The loader's stack is taken to stay between 0x3A00 and 0x3FF0
  of its segment.

## Findings

- A READY task waits for at most 15 schedule calls and 150 ticks. A 16th call would be needed only
  for slot 0 READY while idle runs, which no run reaches.
- Slot 0 can block, but `task_unblock` scans from slot 1, so it never wakes
  (`KernelTaskCanBlock`, `KernelTaskNeverWakes`). The header comment of `task_unblock` does not mention it.
- `kmalloc` of more than 0xFFFFFFF8 bytes wraps to a request for 0 bytes and succeeds
  (`WrappedRequestExample`); `MallocRoomExactlyWhenNoWrap` and `MallocCanonicalExactly` say exactly
  when this breaks what is promised.
- `physical_free_page` protects low memory only; `HeapStaysReservedExactly` says exactly which calls
  give away the heap, and `HeapGivenAway` is a case.
- Two calls of `kmalloc` that both search before either takes its block return the same pointer exactly
  when both searches stop at the same block (`OverlappingMallocs`), and two of `physical_alloc_page`
  return the same page (`OverlappingAllocs`).
- `physical_to_virtual` is the identity, so the kernel reaches a table only while the page of the
  table's frame number is mapped to it. `RunReachableExactly` gives the exact condition on runs, and
  `TablesStayReachable` a simple sufficient one. After 512 allocations `paging_map` faults
  (`MapFaultsAboveWindow`), and the page of the first table can be unmapped (`UnmapLosesTable`).
  If the page of a new table leads to some other frame, that frame is zeroed (`ClearEffect`).
- A kernel file whose last sector starts at 1 MiB or above goes on at address 0, over the interrupt
  vectors (`LoadStaysInBuffersExactly`, `LoadLongKernel`).
- `g_data_sectors` can underflow, but every volume for which it does is rejected by the cluster
  count (`AcceptedExactly`).
- The comment on `page_address_valid` promises a check against an address limit; the code checks
  alignment only, and the model follows the code.

## Model

| member | source | states |
|---|---|---|
| Kmalloc.InitialCanonical | kernel/mm/kmalloc.c:30-36 | the heap starts as one free block that tiles it exactly, with no live block |
| Kmalloc.FirstMalloc | kernel/mm/kmalloc.c:30-76 | the first request that fits gets 0x100010 |
| Kmalloc.NothingAsked | kernel/mm/kmalloc.c:40-84 | kmalloc(0) is NULL and kfree(NULL) does nothing |
| Kmalloc.CanonicalUnique | kernel/mm/kmalloc.c:58-96 | two canonical lists with the same live blocks are the same list: free blocks and headers are forced |
| Kmalloc.MallocEffect | kernel/mm/kmalloc.c:38-77 | keeps the list canonical; success adds one live block, 8-aligned, inside the heap, of ALIGN8(size) to ALIGN8(size)+16 bytes, overlapping no other; failure changes nothing |
| Kmalloc.FreeEffect | kernel/mm/kmalloc.c:79-97 | keeps the list canonical and removes exactly the block named from the live ones |
| Kmalloc.MallocThenFree | kernel/mm/kmalloc.c:38-97 | freeing what was just allocated restores the exact earlier list |
| Kmalloc.FreesCommute | kernel/mm/kmalloc.c:86-96 | frees of two live blocks give the same list in either order |
| Kmalloc.FreeAllRestoresInitial | kernel/mm/kmalloc.c:86-96 | freeing all live blocks in any order leaves the single initial block |
| Kmalloc.MallocCompleteness | kernel/mm/kmalloc.c:48-76 | NULL exactly when no contiguous range clear of live blocks holds a header and ALIGN8(size) bytes |
| Kmalloc.MallocIsFirstFit | kernel/mm/kmalloc.c:48-55 | the block handed out starts at the lowest address where the request fits |
| Kmalloc.MallocTakesNoMore | kernel/mm/kmalloc.c:57-71 | the payload is exactly ALIGN8(size) if another header and 8 bytes fit after it, and otherwise takes the free run to its end |
| Kmalloc.MallocRoomExactlyWhenNoWrap | kernel/mm/kmalloc.c:7 | a block handed out has room for the request if and only if the size is at most 0xFFFFFFF8 |
| Kmalloc.MallocCanonicalExactly | kernel/mm/kmalloc.c:45-69 | the list stays canonical if and only if the size does not wrap or the first free block is too small to split |
| Kmalloc.WrappedRequestExample | kernel/mm/kmalloc.c:46 | kmalloc(0xFFFFFFFF) on the fresh heap returns a block with no payload |
| Kmalloc.RunKeepsCanonical | kernel/mm/kmalloc.c:30-97 | over every run of calls that do not overlap the list is canonical, and a live block keeps address and size until it is freed |
| Kmalloc.ReachableHeapsAreDetermined | kernel/mm/kmalloc.c:30-97 | two such runs that leave the same live blocks leave the same list |
| Kmalloc.SearchThenCommit | kernel/mm/kmalloc.c:48-76 | a call is its search and then its commit on the block found |
| Kmalloc.CommitAt | kernel/mm/kmalloc.c:57-71 | the second half of a call carves up the block at the address found, whatever it is by then, and no other |
| Kmalloc.OverlappingMallocs | kernel/mm/kmalloc.c:48-71 | two calls that both search before either commits amount to one after the other exactly when they find different blocks; otherwise both return the same pointer |
| Kmalloc.OverlappingMallocsExample | kernel/mm/kmalloc.c:48-71 | on the fresh heap two overlapping calls for 64 bytes return one pointer |
| KernelHeap.PayloadStoresKeepList | kernel/mm/kmalloc.c:11-16 | stores inside live payloads never touch a header of the list |
| KernelHeap.Heap.Init | kernel/mm/kmalloc.c:30-36 | the list in memory is the initial one |
| KernelHeap.Heap.Kmalloc | kernel/mm/kmalloc.c:38-77 | following and updating the linked headers does what the specification does, and returns its pointer |
| KernelHeap.Heap.SplitAt | kernel/mm/kmalloc.c:57-71 | the stores after the search amount to that second half on any block |
| KernelHeap.Heap.Kfree | kernel/mm/kmalloc.c:79-97 | likewise for freeing a live pointer; NULL is ignored |
| KernelHeap.Heap.Sweep | kernel/mm/kmalloc.c:89-96 | the two nested loops coalesce the whole list |
| Scheduler.ScheduleEffect | kernel/scheduler/scheduler.c:174-235 | dispatches the nearest candidate after the current slot, idle exactly when there is none; exactly that task is RUNNING; the interrupted frame is saved; no other task changes |
| Scheduler.HandedOverOnce | kernel/scheduler/scheduler.c:174-235 | what a hand-over leaves is fixed in full: the nearest READY slot, or idle if none, RUNNING with a full slice, the old task in the state and frame it was left with, all else unchanged |
| Scheduler.YieldHandsOver | kernel/scheduler/scheduler.c:174-235 | a yield hands over, a RUNNING task going back to READY |
| Scheduler.ExitHandsOver | kernel/scheduler/scheduler.c:253-264 | an exit hands over with the current task TERMINATED |
| Scheduler.TickEffect | kernel/scheduler/scheduler.c:237-251 | the tenth tick of a slice hands over; any other only counts |
| Scheduler.BlockEffect | kernel/scheduler/scheduler.c:149-152 | the current slot becomes BLOCKED and nothing else changes |
| Scheduler.ExitKeepsInv | kernel/scheduler/scheduler.c:253-264 | the exiting task is TERMINATED and loses the processor to a RUNNING one, and the invariant is kept |
| Scheduler.CreateEffect | kernel/scheduler/scheduler.c:88-132 | fails exactly when all 15 slots are in use, then changing nothing; otherwise it takes the lowest unused slot, whose id is its index, and only that slot changes; the id check never fires |
| Scheduler.UnblockEffect | kernel/scheduler/scheduler.c:155-172 | succeeds exactly for a BLOCKED task in slots 1 to 15, and makes only it READY |
| Scheduler.NextKeepsInv | kernel/scheduler/scheduler.c:88-264 | every step keeps: only the current task RUNNING, used slots exactly 1 to nextTaskID - 1 with id equal to index, slot 0 not READY while idle runs |
| Scheduler.RunKeepsInv | kernel/scheduler/scheduler.c:63-264 | so does every run from the initial state |
| Scheduler.InitialInv | kernel/scheduler/scheduler.c:63-86 | the initial state, given field by field, satisfies the invariant |
| Scheduler.StepProgress | kernel/scheduler/scheduler.c:190-251 | each tick, yield or exit that does not dispatch a waiting task strictly lowers 10 * distance - ticks |
| Scheduler.BoundedWaiting | kernel/scheduler/scheduler.c:190-251 | a READY task stays READY until dispatched, by the 15th schedule call and the 150th tick, whatever others do |
| Scheduler.CallBoundIsTight | kernel/scheduler/scheduler.c:202-219 | with all slots busy, one schedule call fewer does not reach slot 15 |
| Scheduler.TickBoundIsTight | kernel/scheduler/scheduler.c:237-251 | nor does one tick fewer |
| Scheduler.SleeperUndisturbed | kernel/scheduler/scheduler.c:149-172 | a BLOCKED task off the processor is changed only by `task_unblock` of its own id |
| Scheduler.AllBusyIsReached | kernel/scheduler/scheduler.c:63-132 | a run reaches the state with all slots busy that the two bounds speak of |
| Scheduler.KernelTaskCanBlock | kernel/scheduler/scheduler.c:149-153 | a run reaches slot 0 BLOCKED with idle current |
| Scheduler.KernelTaskNeverWakes | kernel/scheduler/scheduler.c:159-167 | slot 0, once BLOCKED and off the processor, stays so in every run |
| ContextSwitch.StacksDisjoint | kernel/scheduler/scheduler.c:16-22 | the stacks of two different tasks, the boot stack and the idle stack included, never overlap |
| ContextSwitch.FrameLayout | kernel/arch/x86/idt.h:21-38 | the frame is `struct registers`, field by field |
| ContextSwitch.HandledByVector | kernel/arch/x86/idt.c:259-300 | 32 ticks, 49 yields, 50 exits, and no other number concerns the scheduler |
| ContextSwitch.BootFaithful | kernel/scheduler/scheduler.c:63-86 | after initialisation the idle task's starting context is on its stack, with interrupts on (bit 9) and code segment 8 |
| ContextSwitch.InterruptFaithful | kernel/arch/x86/isr.asm:7-35 | an interrupt, with whatever switch it brings, changes no task's view of its registers and stack, and pops a frame within memory |
| ContextSwitch.StepFaithful | kernel/scheduler/scheduler.c:88-264 | every step keeps the current task's view in the processor and every other task's on its stack |
| ContextSwitch.RunFaithful | kernel/scheduler/scheduler.c:88-264 | so does every run |
| ContextSwitch.ResumedExactly | kernel/scheduler/scheduler.c:181-217 | a task that regains the processor finds every register and stack word as it left them |
| ContextSwitch.FreshTaskStarts | kernel/scheduler/scheduler.c:38-61 | a new task first runs at its entry with flags 0x202 (bit 9, interrupts on), code segment 8, all general registers 0, at the top of its own 4096-byte stack, with `task_exit` as return address |
| Kernel.Cpu.CreateContext | kernel/scheduler/scheduler.c:38-61 | the fourteen pushes leave the starting frame |
| Kernel.Cpu.SchedulerInit | kernel/scheduler/scheduler.c:63-86 | the loop and stores leave the boot state |
| Kernel.Cpu.TaskCreate | kernel/scheduler/scheduler.c:88-132 | does what the specification does, on the stack chosen by id |
| Kernel.Cpu.TaskBlockSet | kernel/scheduler/scheduler.c:149-152 | the current task becomes BLOCKED |
| Kernel.Cpu.TaskUnblock | kernel/scheduler/scheduler.c:155-172 | does what the specification does |
| Kernel.Cpu.SchedulerSchedule | kernel/scheduler/scheduler.c:174-235 | likewise, returning the frame of the task chosen; without a current task or frame it changes nothing |
| Kernel.Cpu.SchedulerTick | kernel/scheduler/scheduler.c:237-251 | likewise |
| Kernel.Cpu.SchedulerExit | kernel/scheduler/scheduler.c:253-264 | likewise |
| Kernel.Cpu.InterruptHandler | kernel/arch/x86/idt.c:259-300 | by the vector in the frame, 32, 49 and 50 reach tick, schedule and exit; all others return the frame they got |
| Kernel.Cpu.EnterHandler | kernel/arch/x86/isr.asm:7-35 | the pushes of processor, stub and `pusha` leave the frame the handlers read |
| Kernel.Cpu.IsrCommon | kernel/arch/x86/isr.asm:7-20 | push, handle, switch stacks and pop amount to the interrupt of the specification |
| Physical.AllocEffect | kernel/mm/physical.c:123-138 | fails exactly when the counter is 0; otherwise takes the lowest unused page and no other |
| Physical.ReleaseEffect | kernel/mm/physical.c:140-170 | frees exactly the page named, if aligned, above 1 MiB and in use; the counter stays the number of clear bits |
| Physical.AllocThenRelease | kernel/mm/physical.c:123-170 | freeing what was just allocated restores the allocator |
| Physical.ReleaseExactly | kernel/mm/physical.c:140-170 | a page is freed exactly when the address is its start, lies between 1 MiB and 64 MiB and it is in use; any other call changes nothing |
| Physical.CoveredExactly | kernel/mm/physical.c:64-88 | a range covers the pages that have a byte in it |
| Physical.HeapStaysReservedExactly | kernel/mm/physical.c:156-160 | a call keeps the heap reserved if and only if it does not name a page of it |
| Physical.HeapGivenAway | kernel/mm/physical.c:140-170 | after initialisation, freeing 0x100000 makes the next allocation return it |
| Physical.AllocInWindow | kernel/mm/physical.c:123-138 | while fewer than 512 unreserved pages are in use the page lies below 4 MiB |
| Physical.AllocInWindowExactly | kernel/mm/physical.c:123-138 | the page lies below 4 MiB if and only if a page there was unused |
| Physical.OverlappingAllocs | kernel/mm/physical.c:123-138 | two overlapping calls return the same page, and leave the counter one too low |
| Physical.OneBitChanges | kernel/mm/physical.c:36-50 | setting or clearing the bit of one page changes no other page's bit |
| Physical.InitCovers | kernel/mm/physical.c:107-120 | the five overlapping reservations are exactly pages 0 to 511 |
| Physical.PageBitmap.MarkUsed | kernel/mm/physical.c:36-39 | adds one page to the set |
| Physical.PageBitmap.MarkFree | kernel/mm/physical.c:47-50 | removes one page from the set |
| Physical.PageBitmap.IsUsed | kernel/mm/physical.c:59-62 | tests membership |
| Physical.PageBitmap.ReserveRange | kernel/mm/physical.c:64-88 | adds the pages covered, the end rounded modulo 2^32, counting none twice |
| Physical.PageBitmap.Init | kernel/mm/physical.c:90-121 | leaves pages 0 to 511 used and the counter at 15872 |
| Physical.PageBitmap.AllocPage | kernel/mm/physical.c:123-138 | the scan does what the specification does |
| Physical.PageBitmap.ClaimPage | kernel/mm/physical.c:129-131 | marks the page and counts it down, modulo 2^32, whatever it is by then |
| Physical.PageBitmap.FreePage | kernel/mm/physical.c:140-170 | likewise |
| Paging.WithTableEffect | kernel/mm/paging.c:94-114 | with the tables at hand, a new table is an unused frame, zeroed, so no translation changes; its directory entry has flags 3, writable and not user; without a free frame nothing changes |
| Paging.NewEntryMeaning | kernel/mm/paging.c:197-200 | the entry is present and holds the frame and flags asked for |
| Paging.StoreEntry | kernel/mm/paging.c:197-233 | a store in one table changes the translation of one page |
| Paging.MapEffect | kernel/mm/paging.c:141-205 | with the tables at hand, each result exactly when; success adds one page to the flat map and changes no frame in use that holds no table; any other result changes nothing, so -3 never follows an allocation |
| Paging.UnmapEffect | kernel/mm/paging.c:207-238 | with the tables at hand, each result exactly when; success removes one page from the flat map, leaving the word 0, and changes no other frame; any other result changes nothing |
| Paging.MapThenUnmap | kernel/mm/paging.c:141-238 | with the tables at hand, unmapping undoes mapping |
| Paging.StaleWithoutInvalidation | kernel/mm/paging.c:202-235 | without `invlpg` a cached translation would outlive its removal, whatever the TLB loads |
| Paging.InvalidatedCoherent | kernel/mm/paging.c:44-47 | whatever the TLB loads before `invlpg`, afterwards it agrees with the tables |
| AddressSpace.AllocSound | kernel/mm/physical.c:123-138 | a frame handed out is no client's and holds no table |
| TableAccess.ClearEffect | kernel/mm/paging.c:106-111 | the loop zeroes whichever frame the page leads to, if it holds no table |
| TableAccess.MapRefines | kernel/mm/paging.c:141-205 | with the tables in reach, and the lowest unused frame mapped to itself if a table is needed, the code does exactly what it would with the tables at hand |
| TableAccess.UnmapRefines | kernel/mm/paging.c:207-238 | likewise, with the tables in reach |
| TableAccess.UnsafeMapFails | kernel/mm/paging.c:94-205 | otherwise the call faults, or returns 0 and leaves a table out of reach; it faults if the frame taken is not mapped |
| TableAccess.MapResultExactly | kernel/mm/paging.c:141-205 | for every call from a state with the tables in reach, safe or not: if it returns, each result exactly when, -3 never after an allocation, and nonzero if and only if directory, tables, bitmap and TLB are unchanged; the page of a new table is taken to lead to one of the 16384 frames, if anywhere |
| TableAccess.UnmapResultExactly | kernel/mm/paging.c:207-238 | likewise, and it never faults |
| TableAccess.MapReachableExactly | kernel/mm/paging.c:141-205 | the call returns with all tables in reach if and only if it needs no new table, or no frame is left, or the lowest unused frame is mapped to itself |
| TableAccess.UnmapReachableExactly | kernel/mm/paging.c:207-238 | the call leaves all tables in reach if and only if the page holds no table |
| AddressSpace.StepReachableExactly | kernel/mm/paging.c:27-238 | a step does not fault and leaves all tables in reach if and only if it meets these conditions |
| AddressSpace.CallChangesNothingExactly | kernel/mm/paging.c:141-238 | in a run, a call leaves everything as it was if and only if it returns nonzero, safe or not |
| AddressSpace.StepSound | kernel/mm/paging.c:141-238 | every such step, and every unmap, keeps tables distinct, in use, unowned and in place, directory entries with flags 3 (writable, never user), and the TLB coherent, changes the flat map only as it should, and no client's frame |
| AddressSpace.RunReachableExactly | kernel/mm/paging.c:27-238 | over a run of calls that do not overlap, no fault and all tables in reach throughout if and only if every step meets the conditions |
| AddressSpace.RunSound | kernel/mm/paging.c:94-238 | over every such run the tables stay distinct, in use, unowned and in place, directory entries never open to user mode, and the TLB coherent |
| AddressSpace.RunRefinesFlat | kernel/mm/paging.c:141-238 | over every such run the two levels equal a flat map updated page by page |
| AddressSpace.RunKeepsClients | kernel/mm/paging.c:94-238 | over every such run a client's frame holds what its owner last wrote to it |
| AddressSpace.TablesStayReachable | kernel/mm/paging.c:27-30 | in particular over runs that map only with fewer than 512 unreserved frames in use and never unmap the first 4 MiB |
| AddressSpace.UnmapLosesTable | kernel/mm/paging.c:225-233 | after initialisation, unmapping the page of the first table is accepted, and the next call for a low page faults |
| AddressSpace.MapFaultsAboveWindow | kernel/mm/paging.c:106-111 | after initialisation and 512 allocations, mapping 0x80000000 faults |
| AddressSpace.InitialSound | kernel/mm/paging.c:116-139 | after initialisation exactly the first 4 MiB are mapped, page q by the word 4096 q + 3, and the directory holds one entry with flags 3 |
| PagingUnit.Mmu.AllocatePageTable | kernel/mm/paging.c:94-114 | takes the lowest unused frame and zeroes what its page leads to, or faults there, or returns 0 |
| PagingUnit.Mmu.Init | kernel/mm/paging.c:116-139 | the two loops leave the initial directory and identity table |
| PagingUnit.Mmu.Map | kernel/mm/paging.c:141-205 | in every state does what the specification with faults does, result included |
| PagingUnit.Mmu.Unmap | kernel/mm/paging.c:207-238 | likewise |
| Terminal.RenderInsideBuffer | kernel/drivers/video/vga.c:35-39 | in every synced state each screen line lies in the buffer, so the blank branch is never taken |
| Terminal.PutRawMeaning | kernel/drivers/video/vga.c:70-151 | what each character does to buffer and cursor, scrolling included: where tab, newline, return and backspace leave the cursor, and that any other stores a cell with the character in the low and the colour in the high byte |
| Terminal.ScreenIsWindow | kernel/drivers/video/vga.c:31-42 | at rest the screen is the 25 lines of the buffer from the viewport on |
| Terminal.ScrollMeaning | kernel/drivers/video/vga.c:258-314 | where each of the four calls leaves the viewport; nothing else changes |
| Terminal.PutRawSynced | kernel/drivers/video/vga.c:44-151 | typing keeps screen and buffer in agreement, or a redraw due, and puts the viewport at max(0, cursorY - 24) |
| Terminal.ApplySynced | kernel/drivers/video/vga.c:215-314 | so does every public call, and an output call leaves the screen equal to the full render |
| Terminal.RunSynced | kernel/drivers/video/vga.c:31-314 | so does every sequence of calls |
| Terminal.WriteIsPutCharEach | kernel/drivers/video/vga.c:238-256 | writing a string leaves exactly the state of writing its characters one by one |
| Terminal.PutAllShows | kernel/drivers/video/vga.c:70-151 | for every text, buffer and cursor are the last 1000 lines of an unbounded terminal |
| Terminal.RunShows | kernel/drivers/video/vga.c:70-314 | so they are after every sequence of calls |
| Terminal.BelowCursorBlank | kernel/drivers/video/vga.c:128-148 | every line below the cursor is blank |
| Terminal.ClearStarts | kernel/drivers/video/vga.c:215-236 | a cleared terminal is blank, synced and shows a fresh page |
| TerminalFormat.UnsignedRoundTrip | kernel/drivers/video/vga.c:153-179 | the numeral printed reads back as the number, without leading zeros |
| TerminalFormat.SignedRoundTrip | kernel/drivers/video/vga.c:181-198 | so does a signed number, the most negative included |
| TerminalFormat.BufferFitsExactly | kernel/drivers/video/vga.c:155-170 | the buffer of 16 is long enough for every 32-bit number if and only if the base is 4 or more |
| TerminalFormat.DigitLetters | kernel/drivers/video/vga.c:156 | the digits are 0 to 9 and a to f |
| TerminalFormat.ConvertMeaning | kernel/drivers/video/vga.c:350-389 | what each conversion prints reads back as: %u and %x to base 10 and 16, %d and %i signed, %c one character, %s the text, or "(null)" |
| TerminalFormat.PlainMeaning | kernel/drivers/video/vga.c:327-333 | a character other than the percent sign stands for itself |
| TerminalFormat.PercentMeaning | kernel/drivers/video/vga.c:344-396 | two percent signs stand for one, one before no conversion for itself and that character |
| TerminalFormat.ConversionMeaning | kernel/drivers/video/vga.c:350-389 | one before a conversion for the next argument |
| TerminalFormat.LastPercentMeaning | kernel/drivers/video/vga.c:340-343 | one at the end for nothing |
| TerminalFormat.EscapedPrintsItself | kernel/drivers/video/vga.c:321-404 | text with its percent signs doubled prints as itself |
| TerminalUnit.Vga.RenderScreen | kernel/drivers/video/vga.c:31-42 | the loops draw the full render |
| TerminalUnit.Vga.PutcharRaw | kernel/drivers/video/vga.c:70-151 | does what the specification does, scrolling included |
| TerminalUnit.Vga.FlushScreen | kernel/drivers/video/vga.c:61-68 | likewise |
| TerminalUnit.Vga.PrintUnsigned | kernel/drivers/video/vga.c:153-179 | whenever the digits fit in the buffer, prints the numeral and returns its length |
| TerminalUnit.Vga.PrintSigned | kernel/drivers/video/vga.c:181-198 | likewise, with the sign |
| TerminalUnit.Vga.VWrite | kernel/drivers/video/vga.c:321-404 | prints exactly the expansion of the format and returns its length |
| TerminalUnit.Vga.FWrite | kernel/drivers/video/vga.c:406-419 | likewise, then flushes |
| TerminalUnit.Vga.Putchar | kernel/drivers/video/vga.c:238-244 | does what the specification does |
| TerminalUnit.Vga.WriteString | kernel/drivers/video/vga.c:246-256 | likewise |
| TerminalUnit.Vga.ClearAll | kernel/drivers/video/vga.c:215-236 | likewise |
| TerminalUnit.Vga.Scroll | kernel/drivers/video/vga.c:258-314 | likewise for the four scrolling calls |
| Fat12.DecodePacked | boot/stage2/stage2.c:198-216 | decoding any packed table gives back every entry whose offset fits in 16 bits |
| Fat12.ReadBpbRoundTrip | boot/stage2/stage2.c:86-105 | the fields of a boot sector laid out as in the standard are read back, with the 32-bit sector count if the small one is 0 |
| Fat12.RootPlace | boot/stage2/stage2.c:117-127 | the root directory starts right after the reserved sectors and all tables, and takes the fewest sectors that hold it |
| Fat12.ClustersSideBySide | boot/stage2/stage2.c:254 | clusters follow the root directory one after the other from number 2 on |
| Fat12.AcceptedExactly | boot/stage2/stage2.c:107-137 | accepted exactly when the fields are set, the data area starts within the volume and there are fewer than 4085 clusters, despite the wrapping subtraction |
| Fat12.ClustersInVolume | boot/stage2/stage2.c:117-131 | reserved sectors, tables, directory and clusters follow without overlap, within the volume |
| Fat12.ChsExactly | boot/stage2/disk.asm:85-142 | the packed registers name the sector asked for if and only if it is below 1024 * heads * sectors per track |
| Transfer.TargetWraps | boot/stage2/stage2.c:261 | a sector goes to its linear address modulo 1 MiB |
| Transfer.LastWriter | boot/stage2/stage2.c:257-274 | after a sequence of reads each byte is that of the last sector stored over it |
| Transfer.WrittenIsStored | boot/stage2/stage2.c:257-274 | after a sequence of reads every byte that a target covers holds a byte of one of the sectors read |
| Transfer.AllInPlace | boot/stage2/stage2.c:257-274 | sectors that take up to 1 MiB in all are each whole at their target, wrapped or not |
| Transfer.ByteWrapped | boot/stage2/stage2.c:257-274 | loaded at a multiple of 512, byte p is at its address modulo 1 MiB |
| Loader.LoadStaysInBuffersExactly | boot/stage2/stage2.c:244-276 | the targets of a load lie within its buffers if and only if the file's last sector starts below 1 MiB; otherwise one covers a byte of the first 512 |
| Loader.TableKeptExactly | boot/stage2/stage2.c:244-281 | the targets spare the table in memory if and only if the load does not come round to it |
| Loader.BelowKeepsTable | boot/stage2/stage2.c:244-281 | in particular a load whose last sector starts below 1 MiB spares it, for any sector size |
| Loader.LoadSector | boot/stage2/stage2.c:261-264 | succeeds exactly when the sector can be read, and then it is at its target and nothing else has changed |
| Loader.LoadLongKernel | boot/stage2/stage2.c:235-297 | a successful load of 0xF7001 bytes at 0x5000 leaves a disk sector in the first 512 bytes of memory |
| Loader.FileSectorInVolume | boot/stage2/stage2.c:254-290 | on a well-formed volume within capacity every sector of a file is read from the volume's data area, and from its own place in its cluster |
| Loader.TableByteOnDisk | boot/stage2/stage2.c:121-226 | byte p of the table is byte p of the sectors after the reserved ones |
| Loader.FileByteOnDisk | boot/stage2/stage2.c:252-294 | byte p of a loadable file is that byte of the disk sector that the chain leads to |
| Loader.ChainEnds | boot/stage2/stage2.c:283-293 | a chain goes on exactly at values other than 0, 1, 0xFF7 and 0xFF8 up |
| Loader.ReadTable | boot/stage2/stage2.c:218-233 | succeeds exactly when all table sectors can be read, and then has stored just them, for any sector size; with 512-byte sectors, sector i after the reserved ones is at 0x2200 + 512 i; writes only the table's buffer |
| Loader.LoadCluster | boot/stage2/stage2.c:254-274 | stores the sectors of one cluster that the file still needs at their targets, wherever these are, and stops exactly at one that cannot be read |
| Loader.FollowChain | boot/stage2/stage2.c:281 | the next value is the entry in memory, for any cluster whose entry lies below the stack |
| Loader.LoadFile | boot/stage2/stage2.c:235-297 | for any sector size: ends even on a cyclic chain; stores exactly the table and then disk sectors at their targets, on success one for each of the file's; as long as these spare the table, succeeds exactly when table, chain and sectors suffice, and then they are the file's, in place modulo 1 MiB |
| Directory.FatInit | boot/stage2/stage2.c:71-140 | succeeds exactly when the drive's parameters and the boot sector can be read and its volume is accepted |
| Directory.RootViewOnDisk | boot/stage2/stage2.c:145-153 | sector i of the directory is sector reserved + fats * sectors per table + i |
| Directory.EntryRoundTrip | boot/stage2/stage2.c:32-191 | of an entry laid out as in the standard: taken exactly when the name matches, the first byte is neither 0 nor 0xE5 and the attribute bits for directory and label are clear; cluster and size are read back |
| Directory.GivesWhatIsThere | boot/stage2/stage2.c:186-191 | the cluster and size returned are those of the entry as laid out on the disk |
| Directory.ListedWherever | boot/stage2/stage2.c:148 | an answer in any sector of the directory counts |
| Directory.AnswerUnique | boot/stage2/stage2.c:148-193 | at most one directory entry can be the answer |
| Directory.FindFile | boot/stage2/stage2.c:142-196 | finds the file exactly when the directory holds it before any end mark or unreadable sector, and returns that entry's cluster and size; writes only the directory buffer |
| Directory.KernelNames | boot/stage2/stage2.c:370 | the two names, letter by letter |
| Directory.KernelFirst | boot/stage2/stage2.c:370 | KERNEL goes before KERNEL.BIN |
| Directory.KernelOnce | boot/stage2/stage2.c:370 | the two names together give one kernel file |
| Directory.Stage2 | boot/stage2/stage2.c:353-406 | jumps only to a kernel found on an accepted volume; for a file of a well-formed volume whose load spares the table jumps exactly when the table can be read and the file is loadable, with its bytes in place |

## Left out

- ContextSwitch.RunFaithful: byte addresses and stack pointers that are not multiples of 4, because memory is modelled in words.
- ContextSwitch.ResumedExactly: segment registers, the FPU state and overflow of a task's stack, none of which the code handles.
- Paging.MapEffect: effective user access, because directory entries never carry PAGE_USER (`AddressSpace.RunSound`).
- Loader.ReadTable: tables of more than 0x1800 bytes, which run into the loader's own stack.
- Loader.LoadFile: such tables; and whether a load succeeds that overwrites the table in memory, or starts at a cluster number whose entry lies in the stack or the kernel. What such a load stores is stated.
- Directory.FindFile: volumes with sectors over 1536 bytes, for which the search runs into the stack.
- Directory.Stage2: these two kinds of volumes; and success for sector sizes other than 512.
- TerminalUnit.Vga.PrintUnsigned: numbers of more than 16 digits, which overrun the buffer; no caller has any.
- TerminalUnit.Vga.VWrite: arguments whose type does not match the format, which are undefined in C.
- Setting foreground and background colours: only the resulting colour byte is modelled.
- BIOS calls, port I/O, PIC, PIT and serial set-up, GDT and CR0/CR3 writes: hardware effects.
- The keyboard driver, exception messages and the boot console.
- The INT 13h retry loop: folded into the success or failure of a read.
- The kernel's own tests.
