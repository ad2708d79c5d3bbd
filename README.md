# pios kernel core in Dafny

A model of the memory and process core of pios, a small AArch64 kernel for
the Raspberry Pi 3 (BCM2837), together with the arithmetic and bookkeeping
around it:

- `mm.dfy` (module `Mm`): the physical page-frame allocator (`mem_map`,
  `get_free_page`, `free_page`) and the per-task four-level page-table
  builder (`map_table`, `map_page`, `map_guard_page`), demand paging
  (`do_mem_abort`) and the deep copy of a task's pages at fork
  (`copy_virt_memory`). The allocator is a class, `PhysicalMemory`, whose
  fields are `mem_map` (an array of used flags) and the contents of every
  pool frame as 512 64-bit words; each method is proved equal to a
  specification function on the pool state (`GetFreePageSpec`,
  `MapTableSpec`, `MapPageSpec`, ...), and the properties are lemmas about
  those functions. Page tables follow the VMSAv8-64 translation scheme of
  the Arm Architecture Reference Manual (4 KiB granule, four levels indexed
  by bits 47:39, 38:30, 29:21 and 20:12). The ghost function
  `TableView.Translate` reads a translation back out of the frames, so the
  contracts speak about what a virtual address maps to, not only about
  which words were written.
- `sched.dfy` (module `Sched`): the priority-decay scheduler. Tasks live in
  an arena (`Scheduler.tasks`) and `current` is a handle; `_schedule`'s
  selection scan and decay loop are methods with loop invariants, proved
  against the predicate `IsPick` and the function `Decayed`.
- `fork.dfy` (module `Fork`): `copy_process`, `move_to_user_mode` and
  `task_pt_regs`.
- `timer.dfy` (module `Timer`): the 32-bit wrap-around re-arming rule of the
  system-timer compare register, `timer_init`, and the retry loop of
  `time_since_boot` that combines the two counter halves.
- `irq.dfy` (module `Irq`): the pending-bit dispatch of `handle_irq`, the
  message lookup and ESR decoding of `show_invalid_entry_message`, and the
  bounded frame-pointer walk of `print_stack_trace`.
- `testregistry.dfy` (module `TestRegistry`): the in-kernel test registry of
  `test.c` (a bounded append-only table, pass/fail/skip counters, suite
  filtering and a NULL-aware string comparison).
- `wrappers.dfy` and `bits.dfy`: an `Option` type and the 32/64-bit
  wrap-around helpers (`Wrap32`, `ToInt32`, `Truncate64To32`).

Board constants that live in headers not part of this model (`mm.h`,
`arm/mmu.h`: `LOW_MEMORY`, `PAGING_PAGES`, `MAX_PROCESS_PAGES`, the
descriptor flag words, the size of `kernel_pages`; `PF_KTHREAD` and the
address of `ret_from_fork`) are parameters (`Mm.Params`, `Fork.ForkParams`).
Register reads, memory reads and the result of a test function are
parameters too; register writes are appended to a log or returned.

Where allocation fails inside the page-table walk, the C code goes on with
the value 0 as a table address (see "## Findings"). The model states that
behaviour as written in `Mm.MapTableSlotAsWritten`, `Mm.EnsurePgdAsWritten`,
`Mm.AllocateUserPageResultAsWritten` and `Mm.DoMemAbortResultAsWritten`, and
everywhere else uses
the evidently intended one: `map_table` fails without touching the slot,
`map_page` and `map_guard_page` report the failure, and `allocate_user_page`
gives the frame back and returns 0 (so `do_mem_abort` returns -1 and
`copy_virt_memory` stops with -1).

## Model

| member | source | states |
|---|---|---|
| `Mm.TableIndex` | src/mm.c:44-45 | the slot index `(va >> shift) & (PTRS_PER_TABLE - 1)` always lies inside a 512-entry table |
| `Mm.PageAlign` | src/mm.c:55 | `x & PAGE_MASK` is the page-aligned address at or below `x`, less than one page away |
| `Mm.DescriptorAddress` | src/mm.c:49 | masking a descriptor `addr OR flags` with the flags below the page size gives back the table address |
| `Mm.FrameAddrRoundTrip` | src/mm.c:32 | frame `i` of the pool has a page-aligned address in `[LOW_MEMORY, HIGH_MEMORY)` from which `free_page`'s index computation recovers `i` |
| `Mm.FrameIndexRoundTrip` | src/mm.c:40 | for a pool frame address, `LOW_MEMORY + ((p - LOW_MEMORY) / PAGE_SIZE) * PAGE_SIZE` is the address itself |
| `Mm.FrameIndexInjective` | src/mm.c:40 | distinct pool frames have distinct `mem_map` entries |
| `Mm.FreeCountZero` | src/mm.c:29-37 | the pool has no free frame exactly when every `mem_map` entry is set |
| `Mm.FreeCountTake` | src/mm.c:31 | marking a free frame used lowers the number of free frames by one |
| `Mm.FreeCountRelease` | src/mm.c:40 | clearing a used frame raises the number of free frames by one |
| `Mm.SuccessiveAllocationsDistinct` | src/mm.c:28-34 | two allocations with no free in between return distinct frames, the second at a higher address |
| `Mm.ZeroMm` | src/fork.c:16 | the memory descriptor of a freshly zero-filled task page has no pgd and no recorded pages |
| `Mm.FirstFree` | src/mm.c:29-30 | the scan stops at the first free entry at or after its start, every entry before it being used |
| `Mm.GetFreePageTakesLowest` | src/mm.c:28-37 | `get_free_page` returns 0 and changes nothing exactly when no frame is free; otherwise it returns the lowest free frame, a pool frame holding no table, marks only that frame used and zero-fills it |
| `Mm.GetFreePageKeepsTables` | src/mm.c:28-37 | taking a frame keeps every page table and every used frame's contents |
| `Mm.FreePageKeepsPool` | src/mm.c:40 | `free_page` clears only the frame's own `mem_map` entry, keeps every frame's contents, and makes one more frame allocatable when the frame was used |
| `Mm.MapTableFound` | src/mm.c:52-55 | on a filled slot `map_table` changes nothing, reports no new table and returns the table the slot points to |
| `Mm.MapTableInstalls` | src/mm.c:46-51 | on an empty slot with a free frame, `map_table` takes the lowest free frame, makes it a zeroed table of the next level, links it from the slot and reports a new table |
| `Mm.MapTableFacts` | src/mm.c:42-56 | `map_table` reports a new table exactly for an empty slot, returns 0 only for an empty slot with the pool exhausted (and then changes nothing), otherwise the walk from the table now reaches the returned table; the hierarchy only grows |
| `Mm.WriteLeafFacts` | src/mm.c:58-71 | writing a leaf entry changes the translation of exactly the addresses that reach that slot of that leaf table and leaves every other translation, table and used data frame alone |
| `Mm.LeafWriteTranslate` | src/mm.c:58-63 | the translation of an address after a leaf write is the new entry when it goes through the written slot, and the old translation otherwise |
| `Mm.ExtendsKeepsTranslate` | src/mm.c:46-51 | growing the hierarchy by linking new tables into empty slots never changes an existing translation |
| `Mm.EnsurePgdFacts` | src/mm.c:75-78 | the corrected pgd step (see "## Findings"): a pgd is allocated and recorded in `kernel_pages` only when the task has none; with no free frame the descriptor is unchanged and the step fails |
| `Mm.MapLevelFacts` | src/mm.c:81-95 | one level of the walk records a table in `kernel_pages` exactly when it creates one, and the walk reaches the next level unless that level was missing and the pool was exhausted |
| `Mm.WalkFromFacts` | src/mm.c:81-95 | the walk from a level reaches the leaf table exactly when the missing tables fit in the free frames, consuming exactly one frame and one `kernel_pages` slot per missing table |
| `Mm.WalkToLeafFacts` | src/mm.c:74-95 | the walk of `map_page` from the pgd reaches a leaf table exactly when the tables to create fit in the free frames, and records each created table after the old `kernel_pages` count |
| `Mm.RecordTable` | src/mm.c:77 | `kernel_pages[++kernel_pages_count] = a`: the count grows by one and the new last entry is `a` |
| `Mm.RecordUserPage` | src/mm.c:97-98 | the pair (page, va) is stored at `user_pages[old count]`, the count grows by one and every other entry is kept |
| `Mm.LeafStoreShape` | src/mm.c:101-125 | `map_guard_page` leaves `user_pages` and its count unchanged |
| `Mm.LeafStoreOutcome` | src/mm.c:101-125 | the walk plus leaf write succeeds exactly when the tables to create fit in the free frames; then the address translates to the written entry and exactly that many frames were taken |
| `Mm.LeafStoreKeepsOtherTranslations` | src/mm.c:124 | a guard or page leaf write changes no translation except through the slot it writes |
| `Mm.MapPageFacts` | src/mm.c:73-99 | `map_page` succeeds exactly when the tables to create fit in the free frames; then `va` translates to `page OR MMU_PTE_FLAGS`, `(page, va)` is appended to `user_pages` and created tables are appended to `kernel_pages`; on failure the hierarchy only grew and `user_pages` is unchanged |
| `Mm.MapPageKeepsOtherTranslations` | src/mm.c:96 | `map_page` keeps every existing translation that does not go through the leaf slot of `va` |
| `Mm.AllocateUserPageOutcome` | src/mm.c:19-26 | `allocate_user_page` returns non-zero exactly when a frame and the missing tables are available; the result is the lowest free frame plus `VA_START`, zero-filled, mapped at `va` and recorded in `user_pages` |
| `Mm.AllocateUserPageKeeps` | src/mm.c:19-26 | after `allocate_user_page` the pool and the descriptor stay valid and `kernel_pages` only gains created tables |
| `Mm.AllocateUserPageGrowsFrom` | src/mm.c:19-26 | `allocate_user_page` keeps every used frame used and puts new tables only in frames that were free |
| `Mm.AllocateUserPageFresh` | src/mm.c:20-25 | the frame returned was free before the call, is used afterwards and holds no table |
| `Mm.HandledFaultCodes` | src/mm.c:144-151 | the faults `do_mem_abort` resolves are exactly the fault status codes 0x04-0x07 and 0x0c-0x0f |
| `Mm.DoMemAbortFacts` | src/mm.c:143-163 | `do_mem_abort` returns 0 exactly for a translation or permission fault with room in `user_pages` and enough free frames, and then the faulting page translates to a fresh zeroed frame recorded in `user_pages`; otherwise it returns -1 with `user_pages` unchanged, and for any other fault class changes nothing |
| `Mm.CopyFrameKeepsTables` | src/mm.c:138 | copying a page into a data frame gives it the source's words and touches no table and no other frame |
| `Mm.CopyInvariantInit` | src/mm.c:127-129 | the copy loop starts in its invariant when the child has room for every page |
| `Mm.CopyLoopStep` | src/mm.c:129-139 | one iteration either fails with the pool (nearly) exhausted and every used data frame kept, or copies page `i` into a fresh frame of the child at the same virtual address and keeps the invariant |
| `Mm.CopyPageStep` | src/mm.c:137-138 | the `memcpy` of one page extends the set of copied pages by that page, keeping every earlier copy |
| `Mm.MapTableSlotAsWritten` | src/mm.c:42-56 | `map_table` exactly as written on one slot: an empty slot receives `got OR MM_TYPE_PAGE_TABLE` whatever `get_free_page` returned, a filled slot gives back its address bits |
| `Mm.MapTableExhaustedLeavesPool` | src/mm.c:46-51 | with the pool exhausted, the code as written installs a non-zero descriptor pointing at physical address 0, outside the pool, and every later call on that slot returns 0 again |
| `Mm.EnsurePgdAsWritten` | src/mm.c:75-78 | the pgd step exactly as written: a task without a pgd takes `get_free_page`'s result as its pgd, unchecked, and `kernel_pages[++kernel_pages_count]` records it; a task with one is left alone |
| `Mm.EnsurePgdExhaustedRecordsZero` | src/mm.c:103-106 | with the pool exhausted, the pgd step as written records 0 in `kernel_pages`, raises the count and leaves pgd 0, outside the pool, as the root of the walk, while the corrected step fails and changes nothing |
| `Mm.AllocateUserPageResultAsWritten` | src/mm.c:19-26 | `allocate_user_page`'s result as written: 0 exactly when `get_free_page` returned 0, otherwise the frame plus `VA_START` whatever `map_page` did |
| `Mm.AllocateUserPageIgnoresMapFailure` | src/mm.c:20-25 | with a free frame for the page but too few for the missing tables, the result as written is non-zero while the corrected `allocate_user_page` returns 0 |
| `Mm.DoMemAbortResultAsWritten` | src/mm.c:152-162 | `do_mem_abort`'s result as written: 0 exactly for a handled fault with room in `user_pages` and a frame from `get_free_page`, else -1 |
| `Mm.DoMemAbortIgnoresMapFailure` | src/mm.c:155-160 | for a handled fault with a free frame for the page but too few for the missing tables, the code as written returns 0 while the corrected `do_mem_abort` returns -1 |
| `Mm.PhysicalMemory.constructor` | src/mm.c:7-9 | at boot every `mem_map` entry is 0 and no frame holds a table |
| `Mm.PhysicalMemory.GetFreePage` | src/mm.c:28-38 | the loop over `mem_map` computes `GetFreePageSpec`: the lowest free frame, marked and zero-filled, or 0 |
| `Mm.PhysicalMemory.FreePage` | src/mm.c:40 | clears the frame's entry in `mem_map` (`FreePageSpec`) |
| `Mm.PhysicalMemory.AllocateKernelPage` | src/mm.c:11-17 | returns 0 when `get_free_page` fails, otherwise the frame plus `VA_START`, with the pool as `get_free_page` leaves it |
| `Mm.PhysicalMemory.MapTable` | src/mm.c:42-56 | computes `MapTableSpec` on the pool state |
| `Mm.PhysicalMemory.MapTableEntry` | src/mm.c:58-63 | writes `pa OR MMU_PTE_FLAGS` into the leaf slot of `va` (`WriteLeafSpec`) |
| `Mm.PhysicalMemory.MapTableEntryGuard` | src/mm.c:65-71 | writes `0 OR MMU_PTE_FLAGS_GUARD` into the leaf slot of `va` |
| `Mm.PhysicalMemory.EnsurePgd` | src/mm.c:75-78 | computes `EnsurePgdSpec`: allocate and record the pgd when missing |
| `Mm.PhysicalMemory.MapLevel` | src/mm.c:81-95 | one `map_table` call of the walk with its `kernel_pages` bookkeeping; the rest of the walk from the next level is unchanged by taking this step |
| `Mm.PhysicalMemory.WalkToLeaf` | src/mm.c:74-95 | computes `WalkToLeafSpec`: the pgd step and the three `map_table` levels |
| `Mm.PhysicalMemory.MapPage` | src/mm.c:73-99 | computes `MapPageSpec` |
| `Mm.PhysicalMemory.MapGuardPage` | src/mm.c:101-125 | computes the walk followed by the guard leaf write |
| `Mm.PhysicalMemory.AllocateUserPage` | src/mm.c:19-26 | computes `AllocateUserPageSpec` |
| `Mm.PhysicalMemory.DoMemAbort` | src/mm.c:143-163 | computes `DoMemAbortSpec` |
| `Mm.PhysicalMemory.CopyVirtMemory` | src/mm.c:127-141 | returns 0 or -1; on 0 every source page is copied, in order, into a fresh frame of the child mapped at the same virtual address, after the child's earlier pages; in both cases every used data frame of the start keeps its contents; -1 only with at most one free frame left |
| `Sched.ZeroRegs` | src/fork.c:22 | a zeroed register frame: 31 zero registers, zero sp, pc and pstate |
| `Sched.InitTask` | include/sched.h:53-70 | the boot task is running, with counter 0, priority 1, preemption enabled and a zero CPU context |
| `Sched.Decayed` | src/sched.c:28-32 | every task of the list, whatever its state, gets `counter = (counter >> 1) + priority` and nothing else changes |
| `Sched.AddPreempt` | src/sched.c:9-11 | the preemption count of one task moves by `d`, nothing else changes |
| `Sched.PreemptNestingRestores` | src/sched.c:9-11 | a `preempt_disable` matched by a `preempt_enable` restores the task list exactly |
| `Sched.PreemptInvisible` | src/sched.c:13-36 | the preemption count plays no part in the choice or the decay of `_schedule` |
| `Sched.PickUnique` | src/sched.c:18-24 | the scan's choice is determined by the list: at most one task is the pick |
| `Sched.DecayRevives` | src/sched.c:25-32 | when every running task has spent its time, one decay gives some running task a positive counter, so the outer loop ends after one decay |
| `Sched.PickedHasTime` | src/sched.c:17-34 | the task `_schedule` switches to always has a positive counter |
| `Sched.ZombieNeverPicked` | src/sched.c:68-73 | a task that has exited is never picked |
| `Sched.Scheduler.constructor` | src/sched.c:5-7 | the list holds the boot task alone, and it is current |
| `Sched.Scheduler.PreemptDisable` | src/sched.c:9 | `current->preempt_count` grows by one |
| `Sched.Scheduler.PreemptEnable` | src/sched.c:11 | `current->preempt_count` shrinks by one |
| `Sched.Scheduler.ScanBest` | src/sched.c:18-24 | the list walk returns the running task with the greatest counter, earliest on ties, and its counter; -1 when no running task has a counter of at least 0 |
| `Sched.Scheduler.DecayAll` | src/sched.c:28-32 | the list walk leaves the task list equal to `Decayed` of the old one |
| `Sched.Scheduler.SwitchTo` | src/sched.c:43-51 | nothing changes when `next` is current; otherwise `next` becomes current and its pgd becomes the page-table root |
| `Sched.Scheduler.Reschedule` | src/sched.c:13-36 | the new current task is the pick of the (decayed when all spent) list, the counters are those of that list, and the preemption counts are back to their old values up to the disable/enable pair around the switch |
| `Sched.Scheduler.Schedule` | src/sched.c:38-41 | the caller's counter is zeroed before `_schedule` picks |
| `Sched.Scheduler.ScheduleTail` | src/sched.c:53 | a forked task's first run drops the preemption lock `copy_process` left on it |
| `Sched.Scheduler.TimerTick` | src/sched.c:55-66 | reschedules exactly when the decremented counter is at most 0 and preemption is enabled; otherwise only the counter drops by one; when it reschedules the counter is clamped to 0 first |
| `Sched.Scheduler.ExitProcess` | src/sched.c:68-73 | the current task becomes a zombie with its preemption count net unchanged, and a different task becomes current |
| `Fork.TaskPtRegs` | src/fork.c:75-78 | the register frame occupies the last `sizeof(struct pt_regs)` bytes of the task's page, starting past the page's base address, 16-byte aligned like the page |
| `Fork.ChildFrame` | src/fork.c:29-33 | a user child's frame is the parent's with `x0 = 0` and `sp = stack + PAGE_SIZE` |
| `Fork.NewTask` | src/fork.c:21-45 | the child record: running, priority and counter `pri`, preemption locked once, `flags = clone_flags`, no successor, `pc = ret_from_fork`, `sp` at its frame inside its page; a kernel thread has `x19 = fn`, `x20 = args` and a zeroed frame, a user child its parent's frame and `stack` |
| `Fork.ForkResult` | src/fork.c:57 | the page address cast to `int` is never the error value -1, and is the positive address itself below 2^31 |
| `Fork.TailLinkKeepsPreempt` | src/fork.c:47-56 | linking the child at the tail between the disable and the enable leaves the caller's preemption count net unchanged |
| `Fork.CopyProcess` | src/fork.c:7-58 | with no free page returns -1, links nothing and leaves the caller's preemption count one higher; otherwise appends the `NewTask` record at the tail, every earlier task unchanged but for the old tail's link, and returns the page as an `int` |
| `Fork.MoveToUserMode` | src/fork.c:60-73 | the current frame becomes zero but `pc` and `pstate = PSR_MODE_EL0t`; with a free page `sp = page + PAGE_SIZE`, `current->stack = page` and 0 is returned, otherwise -1 with the frame already rewritten |
| `Timer.Rearm` | src/timer.c:32-36 | the new compare value is a 32-bit value |
| `Timer.RearmAhead` | src/timer.c:31-36 | the new compare value is strictly ahead of `now` on the 32-bit circle, so the next match is never missed |
| `Timer.RearmNoDrift` | src/timer.c:32-36 | while the old deadline plus `interval` is ahead of `now`, the compare advances by exactly `interval` mod 2^32; otherwise it becomes `now + interval` |
| `Timer.Combine` | src/timer.c:20 | the combined time fits in 64 bits |
| `Timer.CombineRoundTrip` | src/timer.c:20 | both halves come back out of the combined time |
| `Timer.TimeSinceBoot` | src/timer.c:12-21 | the result is `hi * 2^32 + lo` of the first pass whose two reads of the high half agree |
| `Timer.SystemTimer.constructor` | src/timer.c:9 | `curVal` starts at 0 and nothing has been written |
| `Timer.SystemTimer.Init` | src/timer.c:23-26 | `curVal = (CLO + interval) mod 2^32`, ahead of CLO, written to compare 1 |
| `Timer.SystemTimer.HandleTimerIrq` | src/timer.c:28-42 | re-arms compare 1 ahead of `now`, then clears the match flag, then runs `timer_tick` exactly once |
| `Irq.EntryMessage` | src/irq.c:39-43 | the message for type `t` is table entry `t` for `0 <= t < 19` and "UNKNOWN" exactly otherwise |
| `Irq.DecodeEsr` | src/irq.c:46-50 | every decoded field lies within its bit width |
| `Irq.EncodeEsr` | src/irq.c:46-50 | an encoded ESR has bits only in the decoded positions |
| `Irq.DecodeEncode` | src/irq.c:46-50 | decoding an encoded set of in-range fields gives the fields back |
| `Irq.EncodeDecode` | src/irq.c:46-50 | re-encoding the decoded fields gives back the ESR's bits 31:24, 6 and 5:0 |
| `Irq.ShowInvalidEntry` | src/irq.c:39-70 | the report carries the bounded message, the raw ELR, FAR and ESR, and the decoded fields; the syscall, trapped system-register and unknown-instruction notes appear exactly for EC 0x15, 0x18 and 0x00, the instruction at ELR is read exactly when ELR is non-zero, and the alignment note appears exactly for EC 0x24 with FSC 0x21, saying write exactly when WnR is set |
| `Irq.AlignmentFaultReported` | src/irq.c:68-70 | an alignment fault from a lower level is reported as such, with no other note, and its access direction is the WnR bit |
| `Irq.HandlerCalls` | src/irq.c:83-92 | the timer handler runs iff its flag is set, the UART handler iff its flag is set, the timer first |
| `Irq.Unserved1` | src/irq.c:94 | the unhandled bank-1 mask never contains the timer bit |
| `Irq.Unserved2` | src/irq.c:95 | the unhandled bank-2 mask never contains the UART bit |
| `Irq.Bank1Split` | src/irq.c:94 | pending bank 1 is exactly the timer bit (when set) together with the unhandled mask |
| `Irq.Bank2Split` | src/irq.c:95 | pending bank 2 is exactly the UART bit (when set) together with the unhandled mask |
| `Irq.Dispatch` | src/irq.c:83-105 | the handlers run as their flags say, timer first; `handled` is set exactly when the UART flag is; each unhandled mask is reported iff it is non-zero |
| `Irq.HandleIrq` | src/irq.c:78-106 | the timer handler runs iff `SYSTEM_TIMER_IRQ_1` is pending, the UART handler iff `UART0_IRQ` is, timer first; the unhandled masks are the pending bits minus those, each reported iff non-zero |
| `Irq.PendingBitsAccounted` | src/irq.c:83-105 | a bank has a pending bit exactly when its handler runs or its unhandled mask is reported: no pending interrupt goes unnoticed |
| `Irq.CheckRecord` | src/irq.c:125-154 | a frame record passes exactly when its fp is new, in the kernel range and 16-byte aligned, and its saved lr is non-zero, new and in the kernel text |
| `Irq.LinkLine` | src/irq.c:114-116 | the link-register line appears exactly when `lr` is non-zero and differs from `elr` |
| `Irq.ChainStep` | src/irq.c:158-160 | the walk moves to the frame record's saved fp, remembering the current fp and saved lr |
| `Irq.WalkedFramesExtend` | src/irq.c:156-161 | a record that passes every check extends the printed frames by its saved lr, numbered next |
| `Irq.WalkedFramesInRange` | src/irq.c:125-154 | every printed return address lies in the kernel text, and every frame record visited lies in the kernel range, 16-byte aligned, different from the one before |
| `Irq.PrintStackTrace` | src/irq.c:109-164 | prints the exception address, the link register line when it applies, then at most 20 frames numbered from 2, each passing every check, and stops at the first failed check or after 20 frames |
| `TestRegistry.StrEquals` | src/test.c:35-45 | true iff both strings are NULL or both are non-NULL with the same characters up to the terminator |
| `TestRegistry.Tally` | src/test.c:55-72 | exactly one counter grows by one: pass for 0, skip for 2, fail for 1 and for any other value |
| `TestRegistry.TallyRunStep` | src/test.c:84-94 | running one more test adds its result to the counters |
| `TestRegistry.TallyRunTotal` | src/test.c:84-94 | running a table adds exactly its length to pass + fail + skip and lowers no counter |
| `TestRegistry.TallyRunNoFailure` | src/test.c:84-94 | the fail counter is unchanged by a run exactly when every test returned TEST_PASS or TEST_SKIP |
| `TestRegistry.SuiteTestsStep` | src/test.c:107-112 | one more registered test is run by the suite filter exactly when its suite matches |
| `TestRegistry.SuiteTestsExact` | src/test.c:107-112 | the suite filter runs only registered tests of that suite, and every one of them |
| `TestRegistry.Summarize` | src/test.c:168-186 | total = pass + fail + skip; "ALL TESTS PASSED" iff no failure and total > 0, "SOME TESTS FAILED" iff a failure, neither iff total is 0 |
| `TestRegistry.RunVerdict` | src/test.c:75-97 | a run of a non-empty table from zero counters ends in "ALL TESTS PASSED" exactly when no test returned anything but TEST_PASS or TEST_SKIP |
| `TestRegistry.Registry.constructor` | src/test.c:4-15 | an empty table, zero counters, no current test |
| `TestRegistry.Registry.TestInit` | src/test.c:17-22 | the table is emptied and every counter reset to 0 |
| `TestRegistry.Registry.TestRegister` | src/test.c:24-33 | the test is appended exactly while fewer than 128 are registered; otherwise table and count are unchanged |
| `TestRegistry.Registry.RunSingleTest` | src/test.c:47-73 | the result of the test function moves exactly one counter (`Tally`) and the test becomes the current one |
| `TestRegistry.Registry.TestPrintSummary` | src/test.c:168-186 | the printed summary is `Summarize` of the counters |
| `TestRegistry.Registry.TestRunAll` | src/test.c:75-98 | every registered test runs once, in order, the counters move by the whole run, a suite header is printed exactly where the suite differs from the previous test's, and the summary follows |
| `TestRegistry.Registry.TestRunSuite` | src/test.c:100-120 | runs exactly the registered tests of the suite, in registration order, reports "no tests found" exactly when there are none, and prints the summary |

## Left out

- `printf` output (the formatted lines of `show_invalid_entry_message`,
  `print_stack_trace`, `test_run_all`, `test_print_summary` and the
  diagnostic print of `copy_process`): the model returns the values that
  decide what is printed (a report, frame list, header flags, a summary)
  and not the text; blank lines and banners are not modelled.
- Assembly and helpers not part of this model: `cpu_switch_to` and
  `ret_from_fork` (the register handoff), `set_pgd` (modelled as the
  `pgdRoot` field), `enable_irq`/`disable_irq` around rescheduling in
  `timer_tick`, `memzero`/`memcpy` (modelled as zeroing and copying a
  frame's words), `put32`/`get32` (reads are parameters, writes a log).
- `enable_interrupt_controller` (two register writes) is not modelled.
- The instruction read at ELR in `show_invalid_entry_message`, the frame
  records read by `print_stack_trace` and the results of the test
  functions are parameters (`instrAtElr`, `mem`, `run`); a test function is
  taken to return the same value each time it runs.
- Only DEBUG builds call `print_stack_trace` from
  `show_invalid_entry_message`; the two are modelled separately.
- `test_fail*` and the counter getters of `test.c` only print or read a
  counter and are not modelled.
- The board constants of `mm.h` and `arm/mmu.h` are parameters; `|` of an
  address with flag bits below the page size is modelled as `+`.
- The task record lives in the scheduler's arena, not inside its page, and
  the memory descriptor is a value copied in and out of the mm methods
  rather than a field updated through a task pointer. The fields are those
  the C code writes (`mm`, `next_task`, `flags`, `stack`), not the shorter
  `struct task_struct` of include/sched.h; no pid is assigned, as in the
  code.
- Counters and pointers are unbounded: the 64-bit wrap of `unsigned long`
  arithmetic and overflow of the `int`/`long` counters of the scheduler and
  the test registry are not modelled (the 32-bit arithmetic of the timer
  and the `int` cast of `copy_process` are).
- `tableLevel`, the level of every frame that holds a page table, is ghost
  state the C code does not have; it lets the contracts state what a
  virtual address translates to.
- `Mm.PhysicalMemory.FreePage`: requires an address inside the pool whose
  frame holds no live page table; the C code indexes `mem_map` with no
  range or double-free check.
- `Mm.PhysicalMemory.MapPage`: requires room in `user_pages` and in
  `kernel_pages` for every table the walk may create; the C code writes
  past the arrays otherwise.
- `Mm.PhysicalMemory.MapGuardPage`: requires room in `kernel_pages` for
  every table the walk may create, as for `map_page`.
- `Mm.PhysicalMemory.AllocateUserPage`: same capacity requirements as
  `map_page`.
- `Mm.PhysicalMemory.DoMemAbort`: requires room in `kernel_pages` for the
  walk of a fault it handles.
- `Mm.PhysicalMemory.CopyVirtMemory`: requires the child to have room for
  every source page (four `kernel_pages` slots and one `user_pages` slot per
  page); on -1 it does not state which pages were already copied, and the
  translations of the child's pages are stated through `user_pages` and the
  frame contents rather than through `Translate`.
- `Sched.Scheduler.Reschedule`: requires a running task with a counter of
  at least 0 (otherwise the C code switches to an uninitialised
  `next_task`) and a positive priority for every running task (otherwise
  the decay loop of `_schedule` may never end); `Schedule`, `TimerTick`,
  `ExitProcess` and `HandleTimerIrq` inherit this precondition.
- `Timer.TimeSinceBoot`: requires that some pass of the retry loop reads
  the high half twice alike; the loop is otherwise unbounded.
- `Timer.Rearm`: its own contract only bounds the value; what it means is
  stated by `Timer.RearmAhead` and `Timer.RearmNoDrift`.
- `TestRegistry.StrEquals`: requires both strings to be well formed (no NUL
  before the end of the modelled characters).

## Findings

| source | as written | input that shows it | evidently intended | confidence | as-written member | corrected member |
|---|---|---|---|---|---|---|
| src/mm.c:42-56 | `map_table` installs `get_free_page() OR MM_TYPE_PAGE_TABLE` without checking the result; with the pool exhausted the slot receives the non-zero descriptor `0 OR MM_TYPE_PAGE_TABLE` and 0 is returned as the next table, so `map_page` (and `allocate_user_page`, `do_mem_abort`, which ignore its outcome) go on writing into physical page 0, and the slot keeps pointing there after frames are freed | `map_page` on a task whose walk needs a new table while every `mem_map` entry is set | fail without touching the slot, report the failure up through `map_page`, and have `allocate_user_page` give its frame back and return 0 | not executed | `Mm.MapTableExhaustedLeavesPool` | `Mm.MapTableFacts` |
| src/mm.c:75-78 | `map_page` (and `map_guard_page` at src/mm.c:103-106) takes `get_free_page()` as the pgd without checking it; with the pool exhausted `kernel_pages[++kernel_pages_count] = 0` records 0, the count grows, and the walk goes on from physical page 0 | `map_page` on a task with no pgd while every `mem_map` entry is set | fail without recording anything and leave the descriptor unchanged | not executed | `Mm.EnsurePgdExhaustedRecordsZero` | `Mm.EnsurePgdFacts` |
| src/mm.c:19-26 | `allocate_user_page` returns `page + VA_START` once `get_free_page` succeeded, and `do_mem_abort` (src/mm.c:155-160) returns 0 after `map_page`, whether or not `map_page` could allocate the tables the mapping needs | one free frame while the faulting address has no pud on its path, so the frame is taken for the page and `map_table` finds the pool exhausted | report the failure: `allocate_user_page` gives the frame back and returns 0, and `do_mem_abort` returns -1 | not executed | `Mm.AllocateUserPageIgnoresMapFailure`, `Mm.DoMemAbortIgnoresMapFailure` | `Mm.AllocateUserPageOutcome`, `Mm.DoMemAbortFacts` |
