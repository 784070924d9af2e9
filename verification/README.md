# A verified model of ossim

ossim simulates a small operating system: CPU threads and a loader thread run in slots that a
timer barrier delimits, trade processes through multi-level ready queues, and give each process
a paged address space with swap. This project models that program in Dafny and proves what its
threads, queues, allocator and pager keep, for every number of CPUs and processes, every
interleaving and every sequence of operations. Check it with `dafny verify dfyconfig.toml`.

| file | subject |
|---|---|
| `mlq.dfy`, `sched.dfy` | ready queues as values, and the array queues and scheduler that refine them |
| `barrier.dfy` | timer.c as a transition system: locks, condition waits, signals, spurious wakeups |
| `os.dfy`, `os_inv.dfy`, `os_theorems.dfy` | loader, CPUs, queues and timer composed; the invariant; what follows for every run |
| `os_progress.dfy`, `os_completion.dfy` | how soon every process finishes, by the clock and by the schedule |
| `os_waiting.dfy`, `os_overflow.dfy` | how many slots a process waits; why the arrays need their bound |
| `os_shutdown.dfy` | when the system can shut down |
| `bits.dfy` | bit fields of addresses and page table entries |
| `memphy.dfy` | the storage devices and their linked frame lists; page copies |
| `paging_spec.dfy`, `paging.dfy` | paging against flat memory, and the tables and fault path that refine it |
| `paging_budget.dfy`, `paging_order.dfy` | how many faults can ever be served; which pages move and in which order they leave |
| `regions.dfy` | free-region lists, allocation and freeing, on values and on linked nodes |
| `region_places.dfy` | which addresses the walk and `__alloc` give out, repaired and as written |
| `variables.dfy`, `process.dfy` | allocator and pager together: what a process's variables can rely on, and the calls that refine it |
| `common.dfy` | shared options, page size, sums and division |

A step of the transition systems is one lock region, one wakeup, or one shared read or write;
mutexes and condition variables behave as POSIX.1-2017 says for `pthread_mutex_lock` and
`pthread_cond_wait`. Fields marked as history are read by no step. Classes mirror the structures
that the program updates in place; each method is proved against a function on values, and the
theorems are about those functions.

## Written and meant

Some code cannot do what its comments and structure mean it to do. The model has the meant
behaviour, and for each such place says when the written code agrees with it.

- Dispatch scans (sched.c:55 and 70) start at MAX_PRIO with the guard `prio < 0`. Meant: 0 to
  MAX_PRIO - 1. As written they agree exactly on empty queues
  (`Mlq.GetAsWrittenIsWorkConservingIffEmpty`), and nothing ever runs
  (`OsTheorems.AsWrittenNothingRuns`).
- The free-region walk (mm-vm.c:514-552) has no break. It is modelled both ways; as written it is
  sound and terminates, but cuts off every chunk the list holds (`RegionSpec.WalkCutsAll`).
- `__alloc` ignores a failed mapping and never advances `sbrk`. Meant: it fails with -1 and changes
  nothing, and the break moves with `vm_end`. As written it keeps the tiling exactly when the id
  holds no region and one chunk fits (`RegionSpec.AllocAsWrittenTilesIffOneChunk`), and two
  variables of a fresh area always overlap (`RegionPlaces.WrittenAllocsOverlapIffTwo`).
- get_symrg_byid lets id 30 through, one past the table. Meant: it is refused.
- `__read` and `__write` ignore the result of pg_getval and pg_setval. Meant: it is passed on, -1 for
  an address on no page included.
- cpu_routine tests `done` (os.c:77) only after a load that follows a process, not after a first load
  that fails (os.c:53-60), so a CPU that is idle when all work is done never stops. The model keeps this;
  `OsShutdown.ShutsDownIffClosing` says exactly when the system can still shut down.
- `enlist_vm_freerg_list` stores the address of its by-value parameter. Meant: a node of its own.
- PAGING_FPN and PAGING_SWP read other bits than the setters write; the two `Decoders` lemmas say
  for which values they agree. Meant: the entry's own fields.
- `pte_set_swap` leaves PRESENT set (`Pte.SetSwapReadsBack`), so an evicted page would never
  fault again. Meant: an evicted entry is not present (`Entries.SetOut`).
- PAGING_MAX_PGN is 1 (`Decoders.PageTableHasOneEntry`). Meant: the 2^14 entries of a 22-bit bus,
  zero-initialised.
- vmap_page_range writes `pgd[0]` for every page (`PageTables.VmapAsWrittenMapsIffPageZero`) and
  enlists one page number. Meant: entry and FIFO node for each page. alloc_pages_range passes
  frame lists where a device is expected. Meant: the frames form a list, newest first.
- pg_getpage uses the victim's page number as a frame number, sets neither `*fpn` nor the new
  entry on that path, and does not unlink the victim. Meant: the victim's frame is copied out and
  reused, `*fpn` is always set, the victim leaves the list, and a fault without victim or swap
  frame fails with -1 and changes nothing. A page that was never mapped fails with -1.

## Model

| member | source | states |
|---|---|---|
| OsTheorems.NoProcessIsLost | ossim_source_code_part2_hk231_paging/src/os.c:51-136 | on every interleaving, once the loader has detached and all CPUs have stopped, every configured process is freed, its instructions executed once each and in order, and the queues are empty (meant scan, at least one CPU) |
| OsProgress.AllProcessesFinishInTime | ossim_source_code_part2_hk231_paging/src/os.c:45-139 | bounded completion, whether or not the CPUs ever stop: once the clock has passed the slot after the last arrival by the sum of size + 1 over all processes (2 for an empty one), every process is freed with its instructions executed in order (meant scan, at least one CPU) |
| OsCompletion.LongRunsFinish | ossim_source_code_part2_hk231_paging/src/os.c:45-139 | the same from the schedule's side: every run from the start with more than StepBound(cfg) steps, a number fixed by the configuration, has freed every process; each spurious wakeup allows it six more steps |
| OsCompletion.StuckRunsFinish | ossim_source_code_part2_hk231_paging/src/os.c:45-139 | and so has every run that can go on by nothing but spurious wakeups, however short |
| OsCompletion.RunUsesFuel | ossim_source_code_part2_hk231_paging/src/timer.c:29-77 | the steps a run can still take before the clock passes a given slot: every step uses one up, a spurious wakeup adds five |
| OsShutdown.ShutsDownIffClosing | ossim_source_code_part2_hk231_paging/src/os.c:51-60 | once every process is freed and `done` is up, the system can shut down exactly when no CPU stands at its loop head or before next_slot (meant scan) |
| OsShutdown.IdleCpuNeverStops | ossim_source_code_part2_hk231_paging/src/os.c:51-60 | a CPU that stands there then never stops on any schedule, and the timer never exits, because a failed first load skips the test of `done` |
| OsShutdown.ClosersStopInTheirSlot | ossim_source_code_part2_hk231_paging/src/os.c:68-95 | a CPU that has `done` still before it has stopped by the next tick |
| OsShutdown.LateClockMeansDone | ossim_source_code_part2_hk231_paging/src/os.c:112-136 | `done` is up in every state after the slot of the last look |
| OsShutdown.OverIsReached | ossim_source_code_part2_hk231_paging/src/os.c:45-139 | every configuration with a CPU has a reachable state with all processes freed and `done` up |
| OsShutdown.MoreCpusThanProcesses | ossim_source_code_part2_hk231_paging/src/os.c:51-60 | with more CPUs than processes, none longer than its quantum, some CPU is idle for ever and the system never shuts down, on any schedule and with either scan |
| OsShutdown.IdleForEver | ossim_source_code_part2_hk231_paging/src/os.c:51-60 | a state of that kind: two CPUs, one process |
| OsShutdown.SoloShutsDown | ossim_source_code_part2_hk231_paging/src/os.c:51-136 | a state of the other kind: one CPU and one process of three instructions or more, from which the system shuts down |
| OsProgress.ExpectedStep | ossim_source_code_part2_hk231_paging/src/os.c:51-98 | progress that a slot still owes stays owed until it is made: who takes a process holds it, who puts one back looks again, who finds nothing found no work |
| OsProgress.ExpectedAfterTick | ossim_source_code_part2_hk231_paging/src/timer.c:44-53 | every slot that begins with a process to finish has a CPU that will run, free or look for one |
| OsProgress.WorkStep | ossim_source_code_part2_hk231_paging/src/os.c:61-95 | each step uses up one unit of the remaining work or none, and it says which |
| OsTheorems.WithoutCpusNothingRuns | ossim_source_code_part2_hk231_paging/src/os.c:51-98 | why a CPU is needed above: with none, no instruction is ever executed and no process ever freed |
| OsTheorems.StopsComeAfterTheLastAdd | ossim_source_code_part2_hk231_paging/src/os.c:77-136 | a CPU leaves only after `done`, and every add happened in a strictly earlier slot: a barrier crossing separates them |
| OsTheorems.SingleOwnership | ossim_source_code_part2_hk231_paging/src/os.c:53-93 | every added process is in exactly one place: one queue entry at its own level, one CPU, or freed |
| OsTheorems.NoUseAfterFree | ossim_source_code_part2_hk231_paging/src/os.c:61-93 | the process a CPU holds is not freed and belongs to that CPU alone |
| OsTheorems.EnqueueHasRoom | ossim_source_code_part2_hk231_paging/src/queue.c:10-14 | with at most 10 processes of a priority, every add and put of every run finds room in its array |
| OsOverflow.EnqueueCanOverflow | ossim_source_code_part2_hk231_paging/src/queue.c:10-14 | the bound is sharp for every number of CPUs: 11 or more long processes of one priority, one slot each, have a run to an add or put to a full array |
| OsTheorems.ExactArrivals | ossim_source_code_part2_hk231_paging/src/os.c:112-133 | process p is added in slot max(start_p, previous arrival + 1) on every schedule, in order, one per slot |
| OsTheorems.ArrivalIsLargestDelay | ossim_source_code_part2_hk231_paging/src/os.c:117-132 | closed form of that slot: the largest start_j + (i - j) over j <= i |
| OsTheorems.QuantumAtPut | ossim_source_code_part2_hk231_paging/src/os.c:68-95 | a process is put back after exactly time_slot instructions, one in each of the time_slot slots since its dispatch; so with a time slot of 0 or less none ever is |
| OsTheorems.QuantumAtFree | ossim_source_code_part2_hk231_paging/src/os.c:61-67 | a process is freed at its last instruction; within its quantum exactly when time_slot >= 1, otherwise it kept its CPU from its first instruction |
| OsTheorems.NoQuantumNoTimeLeft | ossim_source_code_part2_hk231_paging/src/os.c:86-94 | with time_slot <= 0 time_left is never positive and misses 0 after the first run |
| OsTheorems.NoProcessNoTimeLeft | ossim_source_code_part2_hk231_paging/src/os.c:49-96 | proc == NULL implies time_left == 0, always; time_left stays below time_slot |
| OsTheorems.InstructionBudget | ossim_source_code_part2_hk231_paging/src/cpu.c:48-56 | instructions executed never exceed num_cpus * (_time + 1) |
| OsTheorems.SomeThreadCanStep | ossim_source_code_part2_hk231_paging/src/timer.c:21-77 | no deadlock of loader, CPUs and timer together: until the timer exits some thread can step without a spurious wakeup |
| OsTheorems.EverySlotEnds | ossim_source_code_part2_hk231_paging/src/os.c:51-98 | no livelock: a run of steps without a tick has at most 64 * num_cpus + 88 steps, spurious wakeups aside |
| OsTheorems.TimerOutlivesThreads | ossim_source_code_part2_hk231_paging/src/timer.c:54-58 | the timer has exited only when every CPU and the loader are done |
| OsTheorems.ShutdownIsBounded | ossim_source_code_part2_hk231_paging/src/timer.c:21-59 | after the last detach at most 4 * num_cpus + 11 steps and two ticks follow; after stop_timer at most 2 * num_cpus + 6 steps, and no tick unless the timer is in the middle of a round |
| OsTheorems.LevelsAreFifo | ossim_source_code_part2_hk231_paging/src/sched.c:47-91 | in every reachable state, what left a level followed by what waits there is what was added there, in lock order |
| OsTheorems.WaitingIsBounded | ossim_source_code_part2_hk231_paging/src/sched.c:47-91 | inside the running system a waiting process is the k-th taken from its level once get_proc was called WaitBound times |
| OsWaiting.WaitingIsBoundedInSlots | ossim_source_code_part2_hk231_paging/src/os.c:51-98 | the same in slots: after the last add, that process is dispatched, k-th of its level, by the time the clock has advanced by WaitBound quanta and 3 slots, on every schedule and for every time_slot |
| OsWaiting.PaceRun | ossim_source_code_part2_hk231_paging/src/os.c:51-98 | while a level has work every CPU that has not given up calls get_proc again within a quantum |
| OsTheorems.AsWrittenNothingRuns | ossim_source_code_part2_hk231_paging/src/sched.c:55-75 | with the scans as written no process is dispatched, no instruction executed and no CPU stops |
| OsInvariant.StepInv | ossim_source_code_part2_hk231_paging/src/os.c:45-139 | every step of every thread keeps the whole invariant: ownership, program counters, quanta, arrivals, counts, the FIFO record |
| OsInvariant.DoneMeansAllAdded | ossim_source_code_part2_hk231_paging/src/os.c:112-136 | `done` is up only after all processes were added |
| Os.DispatchEffect | ossim_source_code_part2_hk231_paging/src/sched.c:47-79 | get_proc finds nothing and changes nothing, or pops the front of one level |
| Barrier.MoveInv | ossim_source_code_part2_hk231_paging/src/timer.c:21-93 | every lock region, wait, wakeup and release keeps the barrier invariant for any number of devices |
| Barrier.EveryRunIsInLockStep | ossim_source_code_part2_hk231_paging/src/timer.c:29-81 | from the start, whatever is scheduled, undetached devices are within one slot of each other and of the clock |
| Barrier.LockStep | ossim_source_code_part2_hk231_paging/src/timer.c:29-77 | the same for any state that satisfies the invariant |
| Barrier.ClockStandsStill | ossim_source_code_part2_hk231_paging/src/timer.c:44-81 | no move can tick while a device is outside next_slot, and it reads its own slot count |
| Barrier.WritersOfDoneExclude | ossim_source_code_part2_hk231_paging/src/timer.c:48-66 | `done` is written under two locks, but never with both writers ready |
| Barrier.NoLostWakeup | ossim_source_code_part2_hk231_paging/src/timer.c:30-76 | whoever sleeps although its predicate holds has its signal pending |
| Barrier.NoDeadlock | ossim_source_code_part2_hk231_paging/src/timer.c:21-77 | until the timer exits a device is in its own program or some non-spurious move is enabled |
| Barrier.ExitLeavesNobody | ossim_source_code_part2_hk231_paging/src/timer.c:54-56 | the timer exits only when every device has detached |
| Barrier.TimerExitsSoon | ossim_source_code_part2_hk231_paging/src/timer.c:21-59 | after the last detach at most 4n + 7 moves and two ticks remain; after stop_timer at most 2n + 4 moves, and no tick unless the timer is in the middle of a round |
| Barrier.TimerExitsExactly | ossim_source_code_part2_hk231_paging/src/timer.c:21-59 | and how many exactly: timer_routine finishes its running round; then, if stop_timer has not been called and some device of that round was collected before it detached, it makes one more round, and with stop_timer none |
| Barrier.EverySlotEnds | ossim_source_code_part2_hk231_paging/src/timer.c:29-77 | at most 12n + 5 barrier moves pass without a tick, spurious wakeups aside |
| Mlq.GetIsWorkConserving | ossim_source_code_part2_hk231_paging/src/sched.c:47-79 | NULL exactly when all levels are empty, and then no change; else one level loses its front |
| Mlq.GetFavoursLowLevels | ossim_source_code_part2_hk231_paging/src/sched.c:55-76 | no favoured level with work and budget is skipped; a refill comes only when every busy level spent its budget |
| Mlq.GetAsWrittenIsWorkConservingIffEmpty | ossim_source_code_part2_hk231_paging/src/sched.c:55-78 | the scan as written does the same exactly when there is no work |
| Mlq.LevelIsFifo | ossim_source_code_part2_hk231_paging/src/sched.c:47-91 | first in, first out per level over any sequence of critical sections; nothing lost or invented |
| Mlq.DispatchesBetweenRefills | ossim_source_code_part2_hk231_paging/src/sched.c:58-69 | between refills level p is served at most MAX_PRIO - p times, and exactly its budget if still busy at the refill |
| Mlq.FirstBudgetIsSpent | ossim_source_code_part2_hk231_paging/src/sched.c:26-79 | from init_scheduler on, level p is served exactly MAX_PRIO - p times before a get passes it over while it has work, and while it was served less often no get serves a less favoured level or refills |
| Mlq.PatienceStep | ossim_source_code_part2_hk231_paging/src/sched.c:55-75 | each get that does not serve the process uses up some of its patience, each put none |
| Mlq.BoundedWaiting | ossim_source_code_part2_hk231_paging/src/sched.c:47-91 | the process at index k of level p is dispatched within B * (1 + ceil((k+1) / (MAX_PRIO - p))) gets, B = 9870, whatever is added meanwhile |
| Queues.Queue.Enqueue | ossim_source_code_part2_hk231_paging/src/queue.c:10-14 | appends to the sequence the array holds; needs room, which the source does not test |
| Queues.Queue.Dequeue | ossim_source_code_part2_hk231_paging/src/queue.c:16-28 | the shift loop removes the front and keeps the rest in order; NULL and no change when empty |
| Scheduling.Scheduler.constructor | ossim_source_code_part2_hk231_paging/src/sched.c:26-38 | every queue is empty with time_slot MAX_PRIO - i: the initial state of Mlq |
| Scheduling.Scheduler.QueueEmpty | ossim_source_code_part2_hk231_paging/src/sched.c:16-24 | -1 exactly when some level has work |
| Scheduling.Scheduler.ScanReady | ossim_source_code_part2_hk231_paging/src/sched.c:53-64 | the first scan serves the first level with work and budget; as written it does nothing |
| Scheduling.Scheduler.Replenish | ossim_source_code_part2_hk231_paging/src/sched.c:68-69 | every budget is full again, no level changes |
| Scheduling.Scheduler.GetMlqProc | ossim_source_code_part2_hk231_paging/src/sched.c:47-79 | with the meant bounds it refines Mlq.Get, with the written ones Mlq.GetAsWritten |
| Scheduling.Scheduler.PutMlqProc | ossim_source_code_part2_hk231_paging/src/sched.c:81-91 | refines Mlq.Put |
| Bits.NBitsIsLog2 | ossim_source_code_part2_hk231_paging/include/bitops.h:30-35 | NBITS(n) is the position of the highest set bit of every non-zero 32-bit n |
| Address.FieldBits | ossim_source_code_part2_hk231_paging/include/mm.h:48-54 | what NBITS makes of the field positions that the address macros use |
| Address.AddressSplits | ossim_source_code_part2_hk231_paging/include/mm.h:48-54 | page number and offset split every 22-bit address |
| Address.AddressJoins | ossim_source_code_part2_hk231_paging/include/mm.h:72-82 | and joining them is the inverse |
| Address.AddressValueSplits | ossim_source_code_part2_hk231_paging/include/mm.h:80-82 | the same on numbers, for every word: page number times page size plus offset is the address modulo 2^22 |
| Address.NumberSplits | ossim_source_code_part2_hk231_paging/src/mm-vm.c:233-234 | any number handed over as a word splits, modulo 2^22, into its quotient and remainder by the page size |
| Address.Split | ossim_source_code_part2_hk231_paging/src/mm-vm.c:233-234 | the two numbers pg_getval computes from an address; higher address bits are ignored |
| Address.PageAlignIsLeastMultiple | ossim_source_code_part2_hk231_paging/include/mm.h:10 | alignment is the least multiple of 256 not below its input exactly for inputs >= -255 or of remainder 1, hence idempotent on sizes |
| Pte.SetFpnReadsBack | ossim_source_code_part2_hk231_paging/src/mm.c:68-76 | frame number and flags read back; bits 13 to 29 untouched |
| Pte.SetSwapReadsBack | ossim_source_code_part2_hk231_paging/src/mm.c:52-61 | swap type, offset and flags read back, PRESENT included as the source has it; bits 26 to 29 untouched |
| Pte.LastSetterReadsBack | ossim_source_code_part2_hk231_paging/src/mm.c:52-76 | after any sequence of setters the last one's fields and flags read back |
| Pte.OutsideIsUntouched | ossim_source_code_part2_hk231_paging/src/mm.c:52-76 | no sequence of setters touches a bit outside fields and flags |
| Pte.FrameSettersTouchFrameBits | ossim_source_code_part2_hk231_paging/src/mm.c:68-76 | frame setters alone touch only the frame field and the two flags |
| Pte.InitPteIsSetter | ossim_source_code_part2_hk231_paging/src/mm.c:14-44 | init_pte writes nothing for an absent entry; otherwise it is the matching setter without the dirty bit, except exactly for frame 0, which it refuses |
| Entries.MmCodecIsLawful | ossim_source_code_part2_hk231_paging/src/mm.c:52-76 | absent, resident and evicted entries (evicted repaired: not PRESENT) decode to what was stored, for every frame and swap offset of the fields |
| Entries.SetOutReadsBack | ossim_source_code_part2_hk231_paging/src/mm.c:52-61 | an evicted entry (repaired) gives back its swap type and offset, is swapped and not present |
| Entries.EvictedToDeviceZero | ossim_source_code_part2_hk231_paging/src/mm-vm.c:208-208 | every page is evicted to swap device 0 |
| Entries.FieldsHoldDevicesIff | ossim_source_code_part2_hk231_paging/include/mm.h:32-46 | entries tell the frames of a device apart exactly up to 2^13 frames in RAM and 2^21 in swap |
| Decoders.PagingFpnIsExactIff | ossim_source_code_part2_hk231_paging/include/mm.h:57-75 | PAGING_FPN returns the frame that was set exactly for frame 0 |
| Decoders.PagingSwpIsExactIff | ossim_source_code_part2_hk231_paging/include/mm.h:61-76 | PAGING_SWP returns the offset that was set exactly for multiples of 8 below 512 |
| Decoders.PageTableHasOneEntry | ossim_source_code_part2_hk231_paging/include/mm.h:14 | PAGING_MAX_PGN is 1 |
| Frames.CopyChangesOneFrame | ossim_source_code_part2_hk231_paging/src/mm.c:198-214 | a page copy fills its destination frame and changes no other |
| Frames.EvictThenRestore | ossim_source_code_part2_hk231_paging/src/mm.c:198-214 | copy out, any operations that do not write the swap frame, copy in anywhere: the original 256 bytes |
| Frames.SparedFrameStays | ossim_source_code_part2_hk231_paging/src/mm-memphy.c:55-106 | operations that do not write a frame leave it |
| Frames.FramesAreConserved | ossim_source_code_part2_hk231_paging/src/mm-memphy.c:112-181 | after formatting and any gets and puts of held frames: free and held partition 0..n-1, a get fails exactly when all are held, held frames lie within maxsz |
| Frames.FramesComeInOrder | ossim_source_code_part2_hk231_paging/src/mm-memphy.c:112-156 | a formatted device hands out frames 0, 1, 2, ... and fails when all n are gone |
| Frames.LastPutIsNextGot | ossim_source_code_part2_hk231_paging/src/mm-memphy.c:140-181 | a frame that is put back is the next to be got, and then the list is as before |
| Memphy.Device.constructor | ossim_source_code_part2_hk231_paging/src/mm-memphy.c:187-200 | storage of the size asked for and, from two frames on, the free list 0, 1, 2, ... in order |
| Memphy.Device.Format | ossim_source_code_part2_hk231_paging/src/mm-memphy.c:112-138 | -1 without frames; with two or more the linked list holds 0, 1, 2, ... n-1 in order |
| Memphy.Device.GetFreeFp | ossim_source_code_part2_hk231_paging/src/mm-memphy.c:140-156 | pops the front of the linked list, or -1 and no change |
| Memphy.Device.PutFreeFp | ossim_source_code_part2_hk231_paging/src/mm-memphy.c:170-181 | pushes a fresh node |
| Memphy.Device.Read | ossim_source_code_part2_hk231_paging/src/mm-memphy.c:55-66 | the byte in random-access mode, -1 in sequential mode |
| Memphy.Device.Write | ossim_source_code_part2_hk231_paging/src/mm-memphy.c:95-106 | changes exactly one byte in random-access mode, none and -1 in sequential mode |
| Memphy.SwapCopyPage | ossim_source_code_part2_hk231_paging/src/mm.c:198-214 | the byte loop refines the frame copy, also within one device |
| PagingSpec.PagingIsTransparent | ossim_source_code_part2_hk231_paging/src/mm-vm.c:174-269 | after any sequence of loads, stores, faults, evictions and mappings by any processes, a load returns the last byte stored there, or fails because no frame can be had |
| PagingBudget.FaultsAreBudgeted | ossim_source_code_part2_hk231_paging/src/mm-vm.c:174-223 | over any run the faults served and the frames mapped are exactly the free frames that are gone from RAM and swap, and the evictions those gone from swap: how many faults a machine can ever serve |
| PagingBudget.LoadIsServedWithinBudget | ossim_source_code_part2_hk231_paging/src/mm-vm.c:231-246 | until those are spent a load fails exactly if its page is out, RAM is full and its process has no page to evict |
| PagingBudget.SpentForGood | ossim_source_code_part2_hk231_paging/src/mm-vm.c:174-223 | once no frame is free nothing ever moves again: a load is served exactly if its page was in RAM then |
| PagingSpec.AccessRefinesFlat | ossim_source_code_part2_hk231_paging/src/mm-vm.c:174-269 | each access does to the flat byte arrays of the processes what it says, and only a mapping adds pages |
| PagingSpec.FetchIsInvisible | ossim_source_code_part2_hk231_paging/src/mm-vm.c:174-223 | faults and evictions keep the invariant and the flat memory; a fetched page is resident exactly when it was or its fault could be served |
| PagingOrder.FaultMovesLeast | ossim_source_code_part2_hk231_paging/src/mm-vm.c:174-223 | with a free frame a fault moves its page alone, to the first free frame; without, the page takes the frame of one page of its own process, which goes to the first free swap frame, and no other page moves |
| PagingOrder.PagesLeaveInOrder | ossim_source_code_part2_hk231_paging/src/mm-vm.c:459-493 | the pages of a process leave RAM in the order in which they came in: over any run, those that left followed by those in RAM, oldest first, are those in RAM at the start followed by those that came by mappings and faults |
| PagingOrder.OldestLeavesNext | ossim_source_code_part2_hk231_paging/src/mm-vm.c:195-208 | so each page evicted is the one of its process that came in earliest of those not evicted yet |
| PagingSpec.EvictKeeps | ossim_source_code_part2_hk231_paging/src/mm-vm.c:195-208 | eviction keeps invariant and contents and frees a frame |
| PagingSpec.GrowKeeps | ossim_source_code_part2_hk231_paging/src/mm.c:127-190 | mapping n pages adds exactly those, or none when frames are short; other contents stay |
| PagingSpec.MapAllPlaces | ossim_source_code_part2_hk231_paging/src/mm.c:82-118 | page p + i gets frame i of the list, no other page moves |
| PagingSpec.TakeFramesKeeps | ossim_source_code_part2_hk231_paging/src/mm.c:127-147 | frames taken from the pool belong to nobody; no content changes |
| PageTables.Tables.SetResident | ossim_source_code_part2_hk231_paging/src/mm.c:68-76 | the entry and the FIFO list after pte_set_fpn and enlist_pgn_node; all other tables stay |
| PageTables.Tables.PopVictim | ossim_source_code_part2_hk231_paging/src/mm-vm.c:459-493 | returns and unlinks the oldest page |
| PageTables.Tables.SetSwapped | ossim_source_code_part2_hk231_paging/src/mm.c:52-61 | the entry of an evicted page; nothing else changes |
| PageTables.VmapAsWrittenMapsIffPageZero | ossim_source_code_part2_hk231_paging/src/mm.c:104-110 | storing every frame in pgd[0] maps what was asked exactly when that is nothing, or page 0 alone |
| Paging.Machine.SwapOut | ossim_source_code_part2_hk231_paging/src/mm-vm.c:195-208 | refines the eviction: succeeds exactly when there is a victim and a swap frame, else changes nothing |
| Paging.Machine.GetPage | ossim_source_code_part2_hk231_paging/src/mm-vm.c:174-223 | refines PagingSpec.Fetch and returns the frame that holds the page, or -1 |
| Paging.Machine.GetVal | ossim_source_code_part2_hk231_paging/src/mm-vm.c:231-246 | refines the load at the address's page and offset |
| Paging.Machine.SetVal | ossim_source_code_part2_hk231_paging/src/mm-vm.c:254-269 | refines the store |
| Paging.Machine.AllocPages | ossim_source_code_part2_hk231_paging/src/mm.c:127-147 | takes n frames newest first, or all of them and -1 |
| Paging.Machine.VmapPages | ossim_source_code_part2_hk231_paging/src/mm.c:82-118 | refines the mapping, one entry per page (repaired) |
| Paging.Machine.VmMapRam | ossim_source_code_part2_hk231_paging/src/mm.c:159-190 | refines the mapping of n pages; -1 exactly when fewer frames are free |
| Paging.Boot | ossim_source_code_part2_hk231_paging/src/mm-memphy.c:187-200 | two devices of two frames or more and empty tables: every frame is free, and the invariant holds exactly if the entry fields can number the frames |
| RegionSpec.WalkKeepsBytes | ossim_source_code_part2_hk231_paging/src/mm-vm.c:514-552 | the walk, with or without break, moves each byte to exactly one of the list and the chunks cut off |
| RegionSpec.ChunksLieInside | ossim_source_code_part2_hk231_paging/src/mm-vm.c:516-519 | each chunk has the size asked for and lies inside one formerly free region |
| RegionSpec.WalkIsSound | ossim_source_code_part2_hk231_paging/src/mm-vm.c:501-558 | a pairwise disjoint list stays so, and is disjoint from all chunks |
| RegionSpec.WalkFailsIffNothingFits | ossim_source_code_part2_hk231_paging/src/mm-vm.c:554-557 | nothing is cut off exactly when nothing fits, and then the list is unchanged |
| RegionSpec.WalkCutsAll | ossim_source_code_part2_hk231_paging/src/mm-vm.c:514-552 | without the break the number of chunks cut off is the sum of length / size over the list; with it at most one |
| RegionSpec.PositiveSizeEnds | ossim_source_code_part2_hk231_paging/src/mm-vm.c:514-552 | with a positive size the loop without a break makes at most as many iterations as there are bytes and nodes |
| RegionSpec.ZeroSizeDivergesIff | ossim_source_code_part2_hk231_paging/src/mm-vm.c:514-552 | with size 0 it runs for ever exactly when some region fits that is not empty or is the last |
| RegionPlaces.WalkIsFirstFit | ossim_source_code_part2_hk231_paging/src/mm-vm.c:514-552 | with the break the chunk is the lower end of the first region that holds the size; the other regions stay, and a used-up region leaves the list unless it is the last |
| RegionPlaces.WalkGivesAllPieces | ossim_source_code_part2_hk231_paging/src/mm-vm.c:514-552 | without it the chunks are all whole pieces of all regions, in list order and each region from its lower end, and the list keeps the rests |
| RegionPlaces.AllocPlaces | ossim_source_code_part2_hk231_paging/src/mm-vm.c:79-116 | the repaired allocation returns the lower end of the first free region that holds the size, else the old break, which moves by the least whole number of pages |
| RegionPlaces.AllocAsWrittenPlaces | ossim_source_code_part2_hk231_paging/src/mm-vm.c:79-116 | as written it returns the last piece of the last free region that holds the size, else the break, which never moves, whether or not the pages were mapped |
| RegionPlaces.WrittenAllocsCollide | ossim_source_code_part2_hk231_paging/src/mm-vm.c:79-116 | as written, after any run, every allocation that finds no free region returns the area's start |
| RegionPlaces.WrittenAllocsOverlapIffTwo | ossim_source_code_part2_hk231_paging/src/mm-vm.c:79-116 | so from a fresh area the variables of a run of written allocations are disjoint exactly if there was at most one allocation |
| RegionPlaces.FreedIsGivenNext | ossim_source_code_part2_hk231_paging/src/mm-vm.c:17-31 | a freed region goes to the front of the free list, unless it is empty, and its symbol becomes -1, -1; the next allocation that fits it gets its address |
| RegionSpec.AllocTilesIffFree | ossim_source_code_part2_hk231_paging/src/mm-vm.c:79-116 | repaired allocation keeps the tiling exactly when it fails or the id holds no region yet |
| RegionSpec.AllocAsWrittenTilesIffOneChunk | ossim_source_code_part2_hk231_paging/src/mm-vm.c:79-116 | as written it does exactly when the id holds no region and the free list holds one chunk of the size |
| RegionSpec.AllocGivesRegion | ossim_source_code_part2_hk231_paging/src/mm-vm.c:79-116 | the region has at least the size asked for; failure exactly when nothing fits and no page can be mapped, and then nothing changes |
| RegionSpec.AllocGivesUnusedBytes | ossim_source_code_part2_hk231_paging/src/mm-vm.c:84-113 | no byte of the new region was held by any variable |
| RegionSpec.FreeTiles | ossim_source_code_part2_hk231_paging/src/mm-vm.c:125-141 | freeing keeps the tiling, for every id |
| RegionSpec.HeapIsTiled | ossim_source_code_part2_hk231_paging/src/mm-vm.c:17-141 | after any run of allocations and frees (each id freed before reuse) live and free regions are pairwise disjoint and cover exactly [vm_start, sbrk), sbrk page-aligned and equal to vm_end |
| RegionSpec.AllocPacked | ossim_source_code_part2_hk231_paging/src/mm-vm.c:79-116 | allocation for any id, also one that still holds a region, which is lost, keeps every byte in at most one region |
| RegionSpec.FreePacked | ossim_source_code_part2_hk231_paging/src/mm-vm.c:125-141 | and so does freeing any id |
| Regions.Area.constructor | ossim_source_code_part2_hk231_paging/src/mm.c:221-241 | the heap starts with one empty node, empty symbols and all bounds at 0 |
| Regions.Area.GetFreeArea | ossim_source_code_part2_hk231_paging/src/mm-vm.c:501-558 | the in-place walk over linked nodes refines RegionSpec.Walk, with and without the break, and terminates |
| Regions.Area.Alloc | ossim_source_code_part2_hk231_paging/src/mm-vm.c:79-116 | refines RegionSpec.Alloc, repaired and as written, for either outcome of the mapping; without a free region the variable starts at the old break, and as written the call never fails and the break stays |
| Regions.Area.Increase | ossim_source_code_part2_hk231_paging/src/mm-vm.c:443-443 | the area's end moves by the size; the break with it only in the repair |
| Regions.Area.Enlist | ossim_source_code_part2_hk231_paging/src/mm-vm.c:17-31 | refuses empty regions, else pushes a node of its own (repaired) |
| Regions.Area.Free | ossim_source_code_part2_hk231_paging/src/mm-vm.c:125-141 | refines RegionSpec.Free: -1 for ids outside the table (30 included, repaired), else the region heads the free list unless it is empty and the symbol is -1, -1 |
| Variables.VariablesKeepTheirBytes | ossim_source_code_part2_hk231_paging/src/mm-vm.c:79-335 | while a variable is neither freed nor allocated again, each byte holds what was last written to its address, through whatever id and offset, across allocations, frees, other processes' accesses, faults and evictions; a read returns it or fails for want of a frame |
| Variables.EveryVariableKeepsItsBytes | ossim_source_code_part2_hk231_paging/src/mm-vm.c:79-335 | the same from the first operation on a fresh machine: as soon as a byte belongs to a variable; and it shares its place with no byte of another |
| Variables.FirstSpaceOk | ossim_source_code_part2_hk231_paging/src/mm.c:221-241 | a process on a machine with no page mapped satisfies the invariant of these runs |
| Processes.Process.constructor | ossim_source_code_part2_hk231_paging/src/mm.c:221-241 | a new process has the empty heap and none of the machine's pages |
| Processes.Process.Alloc | ossim_source_code_part2_hk231_paging/src/mm-vm.c:79-116 | the whole call over the linked list, the frame pool and the page table refines Variables.Do, also for an id that still holds a region; it fails exactly when nothing fits and frames are short |
| Processes.Process.IncVmaLimit | ossim_source_code_part2_hk231_paging/src/mm-vm.c:427-449 | for any size: maps as many pages as the aligned size takes at the area's end and moves end and break by the size, or fails and moves neither |
| Processes.Process.Free | ossim_source_code_part2_hk231_paging/src/mm-vm.c:125-141 | refines Variables.Do; the symbol becomes -1, -1 and memory stays |
| Processes.Process.Read | ossim_source_code_part2_hk231_paging/src/mm-vm.c:279-291 | for every id and offset: the byte at region start plus offset modulo 2^22; -1, with the result of pg_getval passed on, exactly for an id outside the table, an address from the break on, or want of a frame; refines Variables.Do |
| Processes.Process.Write | ossim_source_code_part2_hk231_paging/src/mm-vm.c:323-335 | for every id and offset: sets that byte and no other; -1 in the same cases; refines Variables.Do |
| Variables.StepByte | ossim_source_code_part2_hk231_paging/src/mm-vm.c:79-335 | one operation changes a byte of a variable exactly if it is a write, at any offset of any id, whose region start plus offset equals the byte's modulo 2^22, and it is carried out |
| Variables.ReadExactly | ossim_source_code_part2_hk231_paging/src/mm-vm.c:279-291 | a read returns the byte at region start plus offset modulo 2^22, changes none, and fails exactly for an id outside the table, an address from the break on, or want of a frame |
| Variables.WriteExactly | ossim_source_code_part2_hk231_paging/src/mm-vm.c:323-335 | a write sets that byte and no other of the process, and is refused in the same cases |
| Variables.BytesReachToBreak | ossim_source_code_part2_hk231_paging/src/mm-vm.c:427-449 | a process has bytes exactly below its break |
| Variables.VariableByte | ossim_source_code_part2_hk231_paging/src/mm-vm.c:279-335 | byte off of a variable is the byte of the process at region start plus off |
| Variables.OwnWrites | ossim_source_code_part2_hk231_paging/src/mm-vm.c:323-335 | a write at an offset inside its own variable reaches that byte and no byte of another variable |
| Variables.AccessesAreLegal | ossim_source_code_part2_hk231_paging/src/mm-vm.c:279-335 | an allocation maps only pages that were not there, and reads and writes access only pages that are: memory refuses no access that the calls make |
| Variables.StepOk | ossim_source_code_part2_hk231_paging/src/mm-vm.c:427-449 | the pages of a process always reach exactly up to its break |
| Variables.VariablesAreApart | ossim_source_code_part2_hk231_paging/src/mm-vm.c:279-335 | two variables never share an address |

## Left out

- OsTheorems.NoProcessIsLost: says what holds once all CPUs have stopped, not that they stop, which is false of the code: OsShutdown.ShutsDownIffClosing has the exact condition, and OsProgress.AllProcessesFinishInTime bounds the completion of the processes without it.
- OsTheorems.EnqueueHasRoom: assumes at most 10 processes of each priority, because `enqueue` has no capacity test; OsOverflow.EnqueueCanOverflow shows why, for every number of CPUs.
- Os.InitWf: takes priorities below 140 (`ValidConfig`); the source indexes its queues with whatever the configuration says.
- OsTheorems.EverySlotEnds: leaves spurious wakeups aside, which POSIX does not bound.
- Memphy.Device.Format: promises nothing about the list of a device with exactly one frame, whose link the source leaves uninitialised.
- Memphy.Device.constructor: promises nothing about the list of a device of less than two frames, for the same reason.
- Memphy.Device.Read: takes `addr` within the storage, as the source does; sequential mode is modelled only by its answer -1.
- Regions.Area.Alloc: takes the outcome of the mapping as a parameter, as the written form ignores it; Processes.Process.Alloc ties it to the frame pool.
- Paging.Machine.AllocPages: keeps the source's loss of the frames got before a shortage, without the `used_fp_list` they are meant to go to.
- Paging.Boot: takes devices of at least two frames, as the source leaves the list of smaller ones uninitialised and does not check.
- PagingSpec.GrowKeeps: new pages hold whatever their frames held, because the source does not clear them.
- Variables.VariablesKeepTheirBytes: allocations stay on the 22-bit bus and are for ids inside the table, which the source does not check.
- Memory operations of different CPUs are taken one at a time: the source has no lock around page tables and frame lists, so their interleaving inside an operation is not modelled.
- In the thread model an instruction is one counted step of `run`; what it does to memory is modelled on its own, not inside the interleavings.
- The written fault path, node lists with dangling addresses and uninitialised tables are undefined behaviour and not modelled beyond the statements above.
- Times, sizes, addresses and counters are unbounded integers; wrap-around of uint64 time and int sizes is not modelled. Page table entries and addresses in bit fields are 32-bit words.
- The FIFO list of resident pages is a sequence instead of linked nodes; the swap frame of a page that comes back is never given back, as in the source.
- Four swap devices with a fixed active one: only the active device is modelled.
- Process loading, configuration parsing, printing, dumping, `free_pcb_memph`, areas other than 0, the scheduler without priorities, the obsolete memory manager and malloc failure.
- The recorded outputs of the repository, which the dispatch scan as written cannot have produced.
