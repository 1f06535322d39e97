# Kernel models

A 32-bit hobby kernel, modelled where its logic is hardest: memory, scheduling, message passing, and a few
algorithmic loops in its drivers, browser and library. Each part has a specification, a pure function from old state
to new, and an imperative model in the source's own shape (arrays, linked objects, loops) whose methods are proved to
compute it. What the source promises is then proved of the specification, over all inputs and all runs.

- **Frames and pages.** `Frames` reads a byte-packed bitmap as a set of used frames; `Pmm` is the allocator over it.
  `AddressSpaces` reads a page directory as a finite map from pages to entries, together with the frames its tables
  live in. `Vmm` keeps two-level tables in frames of physical memory and refines it; `AddressSpaceLaws` and `Regions`
  hold the theorems, `AddressSpaceRuns` runs that go wrong. Physical memory is one row of 1024 words per frame, so
  a table that overlaid another would share its row.
- **Two schedulers.** `Scheduling` and `Scheduler` are the eight priority queues, doubly linked through pool slots, with
  the theorems in `SchedulingLaws`, `SchedulingPromises` and `SchedulingEffects`, and runs that go wrong in
  `SchedulingRuns`.
  `TaskRing` and `TaskSystem` are the round-robin ring; `ContextSwitch` and `Interrupts` are the stacks, the register
  frames and the assembly around the ring's tick.
- **Messages.** `Messages` is the circular inbox; `Ipc`, `IpcLaws` and `SystemCalls` are system calls, input events,
  ticks and process creation as steps over processes and their threads; `CurrentProcess` says for whom they act.
- **Loops.** `Lines` (integer lines), `Checksums`, `Ip`, `Icmp`, `TcpSegments`, `TcpStream` and `Tcp` (checksums,
  packets and sequence accounting), `Html`, `HtmlTree` and `Layout` (the tag scanner and its vertical flow),
  `Numerals` (number printing with in-place reversal).

## How the source is read

- Machine words are naturals with an explicit bound; every wrap is written as a remainder. `And` and `Or` in `Bits`
  are defined bit by bit, and each mask and merge of the source is proved to mean the arithmetic used elsewhere.
- A linked structure carries a ghost sequence of its objects, and validity says the links spell it out. In the
  scheduler's pool, next and prev are slot numbers with -1 for none.
- Stacks and the memory that messages are copied to are counted in 32-bit words.
- TLB flushes, page-directory loads, the interrupt controller's acknowledgement and debug output do nothing.
- The scheduler never chooses a first task, so `Scheduling.Start` marks the head of the highest queue running. Its
  callers' obligations are `Scheduling.Allowed`: only a queued task blocks, sleeps or exits; a task is removed while
  ready and not current; a running task's priority is left alone. The linked scheduler is proved against the
  specification outside them too, and `RemoveKeepsIff` and `SetPriorityKeepsIff` say exactly what survives there.
- An unqueued pool slot has null links. Unlinking one nulls its level's head, which is how a queue is dropped.
- The scheduler call inside an interrupt leaves any words it likes below the frame, within its stack.
- In `ContextSwitch`, code other than the interrupt may do anything to the CPU, to its own stack, to other memory and
  to task states, but keeps off the stacks of tasks that are not running.

## Where the code does less than it says

- The scheduler's header calls it round-robin within a priority. A current task that heads its queue stays there, and
  a yield that finds it at the head returns at once, so a time slice never passes the CPU to a task of equal priority
  (`EqualsNeverRun`, `OnlyHigherPreempts`, `SecondNeverRuns`). A task that blocked alone and was woken is in that place
  without running, and then no task runs (`NobodyRuns`).
- A sleep's wake tick is cut to 32 bits. Before the last tick of the clock's low half, one that does not fit has
  expired at the next tick. On that last tick, a task that asks for no tick at all sleeps on for 2^32 ticks. All other
  sleeps last as asked (`SleepLastsAsAsked`, `SleepIsCutShort`, `SleepOverruns`).
- Removing a task that is blocked, asleep or a zombie drops its whole level's queue (`RemoveKeepsIff`, `DropLevel`,
  `RemovalDropsRunningTask`).
- A failed range allocation unmaps its pages but keeps their frames, unless it failed at its first page
  (`FailedAllocPagesLeaks`, `FailedAllocPagesLeaksIff`, `FailureKeepsFrames`).
- Freeing pages frees whatever frame they map, even one that holds a page table (`FreePagesIsSound`,
  `FreedTableIsOverlaid`).
- The region search tests one page per 4096 bytes from the hint: an unaligned region's last page is not tested, nor is
  anything in one that wraps. A size above 0xFFFFF000 rounds up to 0 and is not tested either. Above 3 GB its
  `end - size` wraps, and the scan runs into starts whose regions do. Only an aligned hint that does not wrap, with at
  most 3 GB, is safe (`FoundRegionIsUnmapped`, `HintIsSafeIff`, `WideRegionIsMapped`).
- The kernel's current process is set when the first process is created and never changed: nothing calls
  `process_switch`. So every send is stamped with the first process's pid, whichever process made it; receives and
  polls from any process take the first one's messages; and no other process ever receives anything: its inbox only
  fills, up to sixteen (`EveryStampIsZero`, `OthersReceiveNothing`, `OthersFillUp`, `StampIsCallersIff`).
- A blocking receive does not hold its caller. Called by the first process, its thread is made ready again by the next
  tick, which readies the outgoing task even when it was waiting (`TickStates`); called by another, the
  caller goes on and the first process's thread waits instead, until a message for it is accepted
  (`RecvStopsCallerIff`, `RecvBlocksFirstIff`).
- A SYN-ACK establishes a connection whatever number it acknowledges (`AckNumbersAreIgnored`, `AnySynAckEstablishes`).
- An established connection takes any segment from its peer, whatever its sequence number, and acknowledges it
  (`EstablishedReceives`). Each payload is put over the one before, read or not (`AckFollowsPeer`), and a FIN that
  carries payload is acknowledged as if it carried none (`FinAckIsRightIff`).
- The interrupt's exit loads ES, FS and GS from the saved DS; their own values are not saved (`PreemptedTaskResumes`).
- The calculator prints the least 32-bit integer as a lone minus sign, which reads as 0 (`DisplayRoundTrip`).

## Model

| member | source | states |
|---|---|---|
| `Frames.TestIsMembership` | kernel/core/pmm.c:17-19 | Testing the masked byte of a packed bitmap decides membership of the frame in the set of used frames |
| `Frames.SetAdds` | kernel/core/pmm.c:20 | Setting one masked bit adds exactly that frame to the set, whatever other frames share the byte |
| `Frames.ClearRemoves` | kernel/core/pmm.c:21 | Clearing one masked bit removes exactly that frame |
| `Frames.FirstFitIsLowest` | kernel/core/pmm.c:116-148 | For a positive count the allocation is the lowest start, from frame 1, of that many consecutive free frames, and 0 exactly when there is no such run |
| `Frames.FreeUndoesAlloc` | kernel/core/pmm.c:92-96 | Freeing the run that was allocated gives back the set of used frames from before |
| `Frames.RunNeedsFreeFrames` | kernel/core/pmm.c:116-119 | A free run fits in the free count, so the counter test before the search refuses only what the search would refuse |
| `Frames.NoRoom` | kernel/core/pmm.c:98-101 | With fewer free frames than asked for, no run exists |
| `Frames.UsedFrameBlocks` | kernel/core/pmm.c:131-134 | A used frame rules out every start whose run would contain it, so the scan may forget the run it was counting |
| `Pmm.FrameAllocator.Init` | kernel/core/pmm.c:23-60 | Success exactly for at least one frame and a bitmap; then every frame is free and the counters agree with the bitmap; a second call changes nothing |
| `Pmm.FrameAllocator.IsUsed` | kernel/core/pmm.c:19 | The bit test answers whether the frame is used |
| `Pmm.FrameAllocator.MarkUsed` | kernel/core/pmm.c:62-72 | Adds the frame if it exists; the counters stay the number of used and free frames |
| `Pmm.FrameAllocator.MarkFree` | kernel/core/pmm.c:74-84 | Removes the frame if it exists; the counters stay right |
| `Pmm.FrameAllocator.MarkRangeUsed` | kernel/core/pmm.c:86-90 | Adds exactly the frames that start + i reaches in 32-bit arithmetic |
| `Pmm.FrameAllocator.MarkRangeFree` | kernel/core/pmm.c:92-96 | Removes exactly those frames |
| `Pmm.FrameAllocator.AllocFrame` | kernel/core/pmm.c:98-114 | Takes the lowest free frame above 0, or returns 0 and changes nothing |
| `Pmm.FrameAllocator.AllocFrames` | kernel/core/pmm.c:116-148 | Takes the lowest free run of the given length, sets exactly its bits and adjusts the counters, or returns 0 and changes nothing |
| `Pmm.FrameAllocator.FindRun` | kernel/core/pmm.c:121-135 | The single scan with a run counter finds the same run as trying every start in order |
| `Pmm.FrameAllocator.FreeFrame` | kernel/core/pmm.c:150-152 | Removes the frame from the used set |
| `Pmm.FrameAllocator.FreeFrames` | kernel/core/pmm.c:154-156 | Removes the range from the used set |
| `AddressSpaces.DirIndex` | include/vmm.h:20 | The shift and mask give the upper half of the page number |
| `AddressSpaces.TableIndex` | include/vmm.h:21 | The shift and mask give the lower half of the page number |
| `AddressSpaces.EntryWord` | kernel/core/vmm.c:168-179 | The merged entry word holds the frame, the low flags and the present bit side by side |
| `AddressSpaces.TableEntry` | kernel/core/vmm.c:44 | Or-ing three flags onto an aligned table address adds 7 |
| `AddressSpaceLaws.WithTableIsSound` | kernel/core/vmm.c:32-45 | A page table is only ever placed in a frame that was free, never over another table |
| `AddressSpaceLaws.MapPageIsSound` | kernel/core/vmm.c:158-190 | Mapping keeps page tables in distinct used frames |
| `AddressSpaceLaws.MapPageTranslates` | kernel/core/vmm.c:158-190 | After a mapping the page translates to the aligned address given, with the low twelve flag bits given and the present bit, and every other entry is as before; it fails exactly when a table is missing and no frame is free, and then changes nothing |
| `AddressSpaceLaws.LastOperationWins` | kernel/core/vmm.c:158-292 | Over any run of map, unmap, page and range allocation, and frees of ranges with no page on a table, a page keeps the translation it had when an operation last named it, however many tables the others create |
| `AddressSpaceLaws.LastOperationDecides` | kernel/core/vmm.c:158-292 | ... and that translation is the aligned address it mapped, none after an unmap or a free, a frame that was free after an allocation, each with the flags given; a failed operation leaves the one before, except that a failed range allocation has unmapped what it had reached |
| `AddressSpaceLaws.AllocPageIsSound` | kernel/core/vmm.c:249-265 | Allocating a page keeps page tables in distinct used frames |
| `AddressSpaceLaws.FailedAllocPageChangesNothing` | kernel/core/vmm.c:259-262 | A failed page allocation leaves the used set, the tables and every translation as they were |
| `AddressSpaceLaws.AllocPageUsesFreshFrames` | kernel/core/vmm.c:249-265 | A successful one backs the page by a frame that was free and holds no table, with the flags given, and uses one more frame at most, for a table |
| `AddressSpaceLaws.AllocPagesBacksRange` | kernel/core/vmm.c:267-278 | Success on an unmapped, non-wrapping range: pairwise distinct frames, none used before, each page with the flags given, every other page as it was, and the used set grown by exactly those and the new tables |
| `AddressSpaceLaws.FreeUndoesAllocPages` | kernel/core/vmm.c:267-292 | Freeing the range again restores every translation and leaves the used set as before plus exactly the page-table frames created |
| `AddressSpaceLaws.FailedAllocPagesUnmaps` | kernel/core/vmm.c:269-275 | Allocation of the first n pages succeeds and of the next fails; the range allocation then leaves none of those n mapped, and all other pages as they were |
| `AddressSpaceLaws.FailedAllocPagesLeaks` | kernel/core/vmm.c:269-275 | ... but does not return their frames: on an unmapped range exactly the n frames that backed the n pages that could be allocated, and the new tables, stay used |
| `AddressSpaceLaws.FailedAllocPagesLeaksIff` | kernel/core/vmm.c:269-275 | A failure on an unmapped range leaves the used set as it was if and only if its first page could not be allocated |
| `AddressSpaceLaws.AllocPageOkIff` | kernel/core/vmm.c:249-265 | A page can be allocated if and only if a frame is free for it, and another for its table when that is missing |
| `AddressSpaceLaws.FreePagesIsSound` | kernel/core/vmm.c:280-292 | Freeing keeps page tables safe from the allocator if and only if no page of the range is mapped onto a page table |
| `AddressSpaceRuns.PageOnItsOwnTable` | kernel/core/vmm.c:66-71 | From an empty allocator, identity-mapping the second page of memory puts its table into the very frame it is mapped onto |
| `AddressSpaceRuns.FreedTableIsOverlaid` | kernel/core/vmm.c:280-292 | Freeing that page breaks soundness: the next table is placed in the same frame as the one still in use |
| `AddressSpaceRuns.FailureKeepsFrames` | kernel/core/vmm.c:269-275 | From an empty allocator with two frames to give, a range of two pages fails, leaves nothing mapped and both frames used |
| `AddressSpaceRuns.WideRegionIsMapped` | kernel/core/vmm.c:359 | From an empty allocator, with two pages mapped, a search for 0xD0000000 bytes from an aligned hint that does not wrap returns a region that holds a mapped page |
| `AddressSpaceLaws.AllocPagesGrows` | kernel/core/vmm.c:267-278 | A range allocation, failed or not, places new tables in free frames only, frees no frame that was used, and moves no table |
| `Vmm.MemoryManager.FindPageTable` | kernel/core/vmm.c:20-30 | The table of a directory slot, or 0 |
| `Vmm.MemoryManager.InstallTable` | kernel/core/vmm.c:40-45 | Clearing and entering a new table changes no translation |
| `Vmm.MemoryManager.GetPageTable` | kernel/core/vmm.c:20-48 | Creates a missing table in a fresh frame; writes no other frame |
| `Vmm.MemoryManager.MapPage` | kernel/core/vmm.c:158-190 | The two-level tables after the call stand for the finite map of the specification, and only one table frame is written |
| `Vmm.MemoryManager.UnmapPage` | kernel/core/vmm.c:192-215 | Removes this page from the map and nothing else |
| `Vmm.MemoryManager.GetPhysical` | kernel/core/vmm.c:217-242 | Finds exactly the mapped pages, and their aligned physical address |
| `Vmm.MemoryManager.IsMapped` | kernel/core/vmm.c:244-247 | Whether the page is in the map |
| `Vmm.MemoryManager.AllocPage` | kernel/core/vmm.c:249-265 | Takes the lowest free frame and maps it; when mapping fails the frame is given back and -1 returned |
| `Vmm.MemoryManager.AllocPages` | kernel/core/vmm.c:267-278 | Allocates page by page in 32-bit arithmetic; at the first failure unmaps the pages already visited and returns -1 |
| `Vmm.MemoryManager.FreePages` | kernel/core/vmm.c:280-292 | Page by page, returns the frame a mapped page has and unmaps the page |
| `Vmm.MemoryManager.OtherDirectoryKeepsView` | kernel/core/vmm.c:20-48 | Writing one table frame leaves every directory that does not share it with its whole address space |
| `Vmm.MemoryManager.MapPageAmong` | kernel/core/vmm.c:158-190 | Mapping in one of several directories, which may hold the same table in the same slot: every other one keeps its tables, sees the change only through a shared table, and keeps every other translation; all stay sound and share only in place |
| `Vmm.MemoryManager.UnmapPageAmong` | kernel/core/vmm.c:192-215 | So does unmapping |
| `Vmm.MemoryManager.AllocPagesAmong` | kernel/core/vmm.c:267-278 | So does allocating a range, rollback included |
| `AddressSpaceLaws.FollowsApart` | kernel/core/vmm.c:98-104 | A directory that shares no table with the one operated on keeps its whole address space |
| `Regions.RoundUp` | kernel/core/vmm.c:338 | Rounding up to pages with a mask, including sizes that wrap to 0 |
| `Regions.SkipBlocked` | kernel/core/vmm.c:359-367 | Jumping past the first mapped page of a region that does not wrap loses no start that does not wrap either |
| `Regions.FirstFreeIsLeast` | kernel/core/vmm.c:359-373 | The answer is accepted, no start below it that does not wrap is free, and if it wraps it follows a mapped page; it is 0 only when no such start is free |
| `Regions.FoundIsLeast` | kernel/core/vmm.c:332-374 | For an aligned hint whose region does not wrap and a size up to 3 GB, the answer is the least aligned address whose whole region is unmapped, and 0 exactly when there is none |
| `Regions.FoundRegionIsUnmapped` | kernel/core/vmm.c:332-374 | For every size above 0 and every hint, the region returned, in whole pages, is unmapped if and only if: when it does not wrap, it is aligned or the page under its unaligned end is unmapped; when it wraps, the pages it wraps over are |
| `Regions.WrappingHintIsUnchecked` | kernel/core/vmm.c:345-355 | A hint whose region wraps past 4 GB, or whose size rounds up to 4 GB, is returned whatever is mapped there, so the answer is unmapped if and only if those pages happen to be |
| `Regions.HintIsSafeIff` | kernel/core/vmm.c:332-374 | In every address space the region returned is unmapped, if and only if the hint is aligned, hint + size is at most 0xFFFFF000 and the size is at most 3 GB, or the size is 0 |
| `Regions.UnsafeSpace` | kernel/core/vmm.c:345-374 | For any other hint and size, an address space in which what is returned is not unmapped |
| `Regions.WideIsUnsafe` | kernel/core/vmm.c:359 | Above 3 GB end - size wraps and the scan reaches starts that wrap: for every aligned hint that does not, an address space in which it returns a mapped one |
| `Regions.AlignedRegion` | kernel/core/vmm.c:347-352 | For an aligned start that does not wrap, testing one address per 4096 bytes decides whether the whole region is unmapped |
| `Vmm.MemoryManager.FindFreeRegion` | kernel/core/vmm.c:332-374 | For every size and hint, the scan that jumps past mapped pages, with its 32-bit bounds, returns what trying the starts in order returns |
| `SchedulingLaws.StepKeeps` | kernel/core/scheduler.c:133-327 | Every operation, used as its callers must, keeps: a task is on exactly one queue, that of its priority, once, iff it is ready or running; only the current task is running; the ready counter is the total queue length |
| `SchedulingLaws.RunKeeps` | kernel/core/scheduler.c:133-327 | So does every run of operations |
| `SchedulingLaws.TopIsHighest` | kernel/core/scheduler.c:86-93 | The choice is the head of the highest queue that is not empty, and none only when all are empty |
| `SchedulingLaws.YieldKeeps` | kernel/core/scheduler.c:187-217 | A yield keeps the invariant |
| `SchedulingLaws.LeaveKeeps` | kernel/core/scheduler.c:219-260 | Leaving the queue to block, sleep or exit keeps it |
| `SchedulingLaws.TickKeeps` | kernel/core/scheduler.c:262-289 | A tick, with its wake-ups and its slice, keeps it |
| `SchedulingPromises.YieldPicksHighest` | kernel/core/scheduler.c:187-217 | Strict priority: after a yield with anything queued the current task heads the highest queue that is not empty |
| `SchedulingPromises.LatencyIsBounded` | kernel/core/scheduler.c:262-289 | While a task stays queued above the current one, over any run, fewer than ten ticks pass |
| `SchedulingPromises.SleepLastsAsAsked` | kernel/core/scheduler.c:245-289 | The promise, over every run: asleep until as many ticks have passed as 10 ms go into min(ms, 60000), or one if none do, and readied by that tick. It is kept if and only if the wake tick fits the low 32 bits of the clock, or, on the last tick before these wrap, if and only if a tick was asked for at all |
| `SchedulingPromises.SleepLasts` | kernel/core/scheduler.c:245-289 | At any clock value and over any run: how many ticks a sleep really lasts, and that the last of them readies the task |
| `SchedulingPromises.SleepSurvivesFirstTick` | kernel/core/scheduler.c:254-256 | At any clock value: the first tick leaves the task asleep if and only if more than one tick was asked for and the wake tick fits the low 32 bits; on the last tick before these wrap, if and only if not exactly one was asked for |
| `SchedulingPromises.NoneExpiredAfterTick` | kernel/core/scheduler.c:266-275 | After any tick no sleeping task has an expired wake time |
| `SchedulingPromises.OnlyHigherPreempts` | kernel/core/scheduler.c:187-217 | The CPU leaves a running task only when it blocks, sleeps or exits, or for a strictly higher level |
| `SchedulingPromises.RunHeadRuns` | kernel/core/scheduler.c:187-289 | Over any run the running task heads its own queue |
| `SchedulingPromises.EqualsNeverRun` | kernel/core/scheduler.c:262-289 | With nothing higher queued or asleep, no number of ticks passes the CPU from a current task that heads its queue to another: equals are not rotated; one that is only ready stays ready |
| `SchedulingPromises.RemoveKeepsIff` | kernel/core/scheduler.c:168-181 | Removing keeps the invariant if and only if the task is unknown, or is not current and either ready or on a level that is empty while the ready count is 0 |
| `SchedulingPromises.SetPriorityKeepsIff` | kernel/core/scheduler.c:291-306 | Changing a priority keeps it if and only if the task is unknown, is not running, or stays on its level |
| `SchedulingRuns.SecondNeverRuns` | kernel/core/scheduler.c:262-289 | From the initial state two tasks of equal priority are added and started: the second is ready and never runs |
| `SchedulingRuns.NobodyRuns` | kernel/core/scheduler.c:187-289 | From the initial state a task blocks alone and is woken, and an equal is added: both are ready, and however many ticks pass no task ever runs |
| `SchedulingRuns.SleepIsCutShort` | kernel/core/scheduler.c:254-256 | From the initial state, two ticks short of 2^32, a task that asks to sleep two ticks is awake after one |
| `SchedulingRuns.SleepOverruns` | kernel/core/scheduler.c:254-256 | One tick short of 2^32, a task that asks to sleep less than a tick sleeps 2^32 ticks |
| `SchedulingRuns.RemovalDropsRunningTask` | kernel/core/scheduler.c:168-181 | From the initial state one of two tasks blocks and is removed: the other is running and on no queue |
| `SchedulingRuns.TakesTenTicks` | kernel/core/scheduler.c:276-288 | From the initial state a task is started and one of higher priority added: the first keeps the CPU for nine ticks and loses it at the tenth |
| `SchedulingEffects.LeaveEffect` | kernel/core/scheduler.c:219-260 | Blocking, sleeping or exiting takes the current task off its queue, moves no other, and gives the CPU to the head of the highest queue left; it stays current exactly when all are empty |
| `SchedulingEffects.WakeUndoesBlock` | kernel/core/scheduler.c:219-243 | Waking the task that just blocked puts it at the end of its queue, ready; the other queue positions and the ready count are as before |
| `SchedulingEffects.AddEffect` | kernel/core/scheduler.c:133-166 | A new task goes to the end of its level with a full slice; with all 64 slots taken nothing changes |
| `SchedulingEffects.RemoveUndoesAdd` | kernel/core/scheduler.c:133-181 | Removing a task just added restores every queue, the ready count and every other slot, and frees its own |
| `SchedulingEffects.SetPriorityMoves` | kernel/core/scheduler.c:291-306 | A ready task moves to the end of its new level and nothing else moves |
| `SchedulingEffects.SetPriorityWaits` | kernel/core/scheduler.c:291-306 | A task that is not ready only has its priority stored; a blocked one joins the new level when woken |
| `SchedulingEffects.WakeEffect` | kernel/core/scheduler.c:230-243 | A blocked task is readied, last on its queue; nothing happens to any other |
| `SchedulingEffects.LookupIsFirst` | kernel/core/scheduler.c:96-105 | A handle stands for the first of the 64 slots that holds it; 0 stands for none |
| `SchedulingEffects.LeavingStates` | kernel/core/scheduler.c:219-327 | Block leaves the current task blocked, exit a zombie, and sleep asleep until the low 32 bits of now plus the ticks asked for; a sleep of 0 ms does nothing |
| `SchedulingEffects.ExitIsFinal` | kernel/core/scheduler.c:314-327 | A zombie stays one: no lawful run lets it run again or gives its slot to another |
| `SchedulingEffects.HighestPriorityRuns` | kernel/core/scheduler.c:86-93 | After a yield nothing runnable has a higher priority than the current task, priorities above 7 counting as 4 |
| `SchedulingEffects.YieldMoves` | kernel/core/scheduler.c:187-217 | A yield that takes the CPU from a running task puts it last on its queue, ready, and moves no other |
| `SchedulingEffects.WakeOrder` | kernel/core/scheduler.c:266-275 | A tick appends to each queue the sleepers of its level that are due, in slot order |
| `SchedulingEffects.SliceRunsDown` | kernel/core/scheduler.c:276-288 | A tick takes one from the current slice, and only the last one yields |
| `SchedulingEffects.OutrankedLosesAtEnd` | kernel/core/scheduler.c:276-288 | A task that is outranked keeps the CPU for the rest of its slice exactly |
| `Scheduler.Scheduler.EnqueueTask` | kernel/core/scheduler.c:32-56 | Appends at the end of the doubly linked queue |
| `Scheduler.Scheduler.DequeueTask` | kernel/core/scheduler.c:59-83 | Unlinks from anywhere in the queue; a slot that is on no queue empties its level instead |
| `Scheduler.ChainUnlink` | kernel/core/scheduler.c:59-83 | The pointer writes of an unlink, queued slot or not, turn the chains of the old queues into those of the new |
| `Scheduler.DropLevel` | kernel/core/scheduler.c:66-74 | For a slot on no queue, whose links are null, they change no link and null the head of its level |
| `Scheduler.Scheduler.FindNextTask` | kernel/core/scheduler.c:86-93 | Head of the highest queue that is not empty |
| `Scheduler.Scheduler.FindFreeSlot` | kernel/core/scheduler.c:21-29 | First free pool slot, or none |
| `Scheduler.Scheduler.FindSchedTask` | kernel/core/scheduler.c:96-105 | First pool slot holding the task, or none |
| `Scheduler.Scheduler.AddTask` | kernel/core/scheduler.c:133-166 | Takes the first free slot and queues it, or refuses |
| `Scheduler.Scheduler.RemoveTask` | kernel/core/scheduler.c:168-181 | Whatever the state of the task, links and pool afterwards are those of the specified remove, dropped queues included; valid whenever that keeps the invariant |
| `Scheduler.Scheduler.Yield` | kernel/core/scheduler.c:187-217 | The linked queues, pool and current slot afterwards are those of the specification |
| `Scheduler.Scheduler.Block` | kernel/core/scheduler.c:219-228 | Whatever the state of the current task, links, pool and current slot afterwards are those of the specified block: off its queue, then a yield |
| `Scheduler.Scheduler.Wake` | kernel/core/scheduler.c:230-243 | Queues the task last on its level if and only if it was blocked; otherwise nothing changes |
| `Scheduler.Scheduler.Sleep` | kernel/core/scheduler.c:245-260 | Likewise, with the wake tick cut to 32 bits; nothing for 0 ms or with no current task |
| `Scheduler.Scheduler.Tick` | kernel/core/scheduler.c:262-289 | Advances the clock, queues the expired sleepers in pool order, then charges the slice and yields when it is used up |
| `Scheduler.Scheduler.SetPriority` | kernel/core/scheduler.c:291-306 | Relinks a ready task to the end of its new level; only stores the priority of any other, running or not |
| `Scheduler.Scheduler.Exit` | kernel/core/scheduler.c:314-327 | Off its queue as a zombie, then a yield, whatever its state |
| `TaskRing.ReadyTaskRuns` | kernel/core/task.c:28-80 | In a started ring of n tasks a task that stays ready becomes current within n - 1 ticks, whatever the other tasks do |
| `TaskRing.TickApproaches` | kernel/core/task.c:54-62 | Each tick brings an eligible task strictly nearer |
| `TaskRing.PickIsNearest` | kernel/core/task.c:55-62 | The skip loop stops at the nearest eligible task and passes over none |
| `TaskRing.TickStates` | kernel/core/task.c:50-79 | After a tick the current task runs, the outgoing one is ready even if it was waiting, and no other changes |
| `TaskRing.FirstTick` | kernel/core/task.c:28-47 | The first tick runs the current task from its prepared stack pointer and changes no other; with one task a tick changes nothing |
| `TaskSystem.TaskList.Append` | kernel/core/task.c:166-180 | The list stays one cycle through every created task, the new one last |
| `TaskSystem.TaskList.Tick` | kernel/core/task.c:28-80 | The ring after the tick and the stack pointer returned are those of the specification |
| `TaskSystem.TaskList.SkipBlocked` | kernel/core/task.c:55-62 | The skip loop terminates, at the next eligible task or after a full circle |
| `ContextSwitch.EntryThenExit` | asm/irq.asm:34-67 | The exit sequence run on the frame the entry sequence pushed gives back the general registers, DS, EFLAGS, EIP and ESP; ES, FS and GS take DS |
| `ContextSwitch.FirstFrameContext` | kernel/core/task.c:114-164 | The frame task_create builds starts the task at its entry point with CS 0x08, EFLAGS 0x202, DS 0x10 and ESP at the stack top |
| `ContextSwitch.InterruptIsSane` | asm/irq.asm:34-67 | An interrupt keeps stacks disjoint and every parked frame whole, whatever words the scheduler call leaves below the frame |
| `ContextSwitch.InterruptResumes` | asm/irq.asm:50-67 | It ends in the context of the task the tick made current |
| `ContextSwitch.ParkedKeepsContext` | kernel/core/task.c:50-79 | Over any run of interrupts, other code and task creation, a task off the CPU keeps the context its frame holds |
| `ContextSwitch.PreemptedTaskResumes` | asm/irq.asm:34-67 | A preempted task later resumes with the same general registers, DS, EFLAGS, CS, EIP and ESP; ES, FS and GS take DS |
| `ContextSwitch.SpawnedTaskStarts` | kernel/core/task.c:114-164 | A new task, whatever runs first, starts from exactly the prepared context |
| `ContextSwitch.BootedTaskStarts` | kernel/core/task.c:114-164 | Over any lawful run from boot, every task starts from its prepared context on its own empty stack |
| `ContextSwitch.FirstTwoTicks` | kernel/core/task.c:28-80 | From boot with two tasks created, the first tick starts the first task and the second tick the second |
| `Interrupts.CreateTask` | kernel/core/task.c:92-183 | Pushes the fourteen words and appends the task |
| `Interrupts.Processor.Enter` | asm/irq.asm:35-53 | The pushes store exactly the frame, argument and return address |
| `Interrupts.Processor.Exit` | asm/irq.asm:54-67 | The pops load exactly the frame's context |
| `Interrupts.CallLeaves` | asm/irq.asm:52-53 | The call's own words go below the frame and leave it as pushed |
| `Interrupts.Processor.TimerInterrupt` | asm/irq.asm:34-67 | Processor, memory and ring together make one step of the system |
| `Messages.MessageQueue.Enqueue` | kernel/ipc/ipc.c:24-37 | Appends to the sixteen-slot circular queue, or refuses when it is full |
| `Messages.MessageQueue.Dequeue` | kernel/ipc/ipc.c:41-54 | Takes the oldest message, or reports an empty queue |
| `Messages.MessageQueue.IsEmpty` | kernel/ipc/ipc.c:13-15 | Whether nothing is queued |
| `Messages.MessageQueue.IsFull` | kernel/ipc/ipc.c:18-20 | Whether sixteen messages are queued |
| `IpcLaws.StepKeeps` | kernel/syscall/syscall.c:67-155 | No lost wake-up: after every system call, input event, tick or creation, a process whose main thread waits has an empty inbox; pids and threads stay distinct |
| `IpcLaws.RunConserves` | kernel/syscall/syscall.c:67-155 | Over every interleaving, what a process received followed by its inbox is its old inbox followed by what was accepted for it, in order, each sent message under the pid of the kernel's current process |
| `IpcLaws.StepConserves` | kernel/syscall/syscall.c:67-155 | The same for one step |
| `IpcLaws.ResultTellsOutcome` | kernel/syscall/syscall.c:90-99 | eax is 0 exactly when the message was accepted, or one was received |
| `IpcLaws.RecvWaitsIffEmpty` | kernel/syscall/syscall.c:119-131 | A blocking receive leaves the current process's main thread waiting if and only if that process's inbox was empty; a poll never does |
| `CurrentProcess.FirstIsAlwaysCurrent` | kernel/core/process.c:66-95 | Over any run the current process is the first one created, and no thread of another process waits |
| `CurrentProcess.EveryStampIsZero` | kernel/syscall/syscall.c:29-88 | From boot, over any run, every send is stamped 0 |
| `CurrentProcess.OthersReceiveNothing` | kernel/syscall/syscall.c:103-155 | Over any run nothing is ever handed to a process other than the first |
| `CurrentProcess.OthersFillUp` | kernel/ipc/ipc.c:24-37 | So the inbox of any other process only grows, and at most sixteen messages are ever accepted for it |
| `CurrentProcess.StampIsCallersIff` | kernel/syscall/syscall.c:29-88 | A send carries the pid of the process whose thread made it if and only if that is the first |
| `CurrentProcess.RecvStopsCallerIff` | kernel/syscall/syscall.c:119-131 | A blocking receive with nothing to receive sets the first process's thread waiting, which is the caller if and only if the caller is the first process |
| `CurrentProcess.WaitSurvivesTickIff` | kernel/core/task.c:50-79 | A waiting thread still waits after the next tick if and only if it is not the one on the CPU |
| `CurrentProcess.RecvBlocksFirstIff` | kernel/syscall/syscall.c:119-131 | So a blocking receive leaves the first process's thread waiting past the next tick if and only if some other process made it |
| `CurrentProcess.SecondProcessIsMistaken` | kernel/core/process.c:66-70 | A run from boot: two processes, two ticks; the second's thread has the CPU and its sends are stamped 0 |
| `IpcLaws.DeliveryWakes` | kernel/syscall/syscall.c:93-97 | A process that a message was accepted for is not left waiting |
| `IpcLaws.CallsWriteOnlyTheMessage` | kernel/syscall/syscall.c:67-155 | The three calls write no memory outside the message at their pointer, and a send only its sender word |
| `IpcLaws.ReceiveStores` | kernel/syscall/syscall.c:103-155 | A receive or poll that does not return 0 leaves memory and inboxes as they were; one that does puts the four words of the oldest message at the pointer and takes it from the inbox; it returns 0 exactly for a good pointer and an inbox that is not empty |
| `IpcLaws.SendStores` | kernel/syscall/syscall.c:67-101 | A send with a bad pointer or to nobody changes only eax; any other writes the pid of the current process over the sender, full inbox included |
| `IpcLaws.ThreadsAfter` | kernel/syscall/syscall.c:67-155 | What each call and input event makes of every thread: the receiver readied if it was waiting, the current one set waiting by an empty blocking receive, all others as they were |
| `IpcLaws.TimerChangesThreads` | kernel/core/task.c:28-80 | A tick changes threads only |
| `IpcLaws.SpawnAdds` | kernel/core/process.c:30-82 | A new process has the next pid, an empty inbox and a new ready thread of its own; the first becomes current |
| `IpcLaws.PidFinds` | kernel/core/process.c:98-112 | Looking a process up by its pid finds that process |
| `IpcLaws.InputKeeps` | drivers/input/input.c:15-53 | Kernel-originated messages keep the invariant |
| `IpcLaws.SpawnKeeps` | kernel/core/process.c:30-82 | Creation keeps the invariant while pids have not wrapped |
| `Ipc.PackXY` | drivers/input/input.c:46 | The packed word holds both coordinates modulo 2^16 |
| `Ipc.ValidPointerFits` | kernel/syscall/syscall.c:14-24 | The check passes exactly for an aligned address from 0x1000 on whose sixteen bytes end below 4 GB |
| `SystemCalls.Kernel.FindByPid` | kernel/core/process.c:98-112 | One trip round the circular list finds the first process with the pid |
| `SystemCalls.Kernel.SysSend` | kernel/syscall/syscall.c:67-101 | The stored state after the call is the specification's |
| `SystemCalls.Kernel.SysRecv` | kernel/syscall/syscall.c:103-133 | The stored state after the call is the specification's |
| `SystemCalls.Kernel.SysPoll` | kernel/syscall/syscall.c:135-155 | The stored state after the call is the specification's |
| `SystemCalls.Kernel.SendKeyEvent` | drivers/input/input.c:15-33 | Queues the key message if it fits, and wakes the input process |
| `SystemCalls.Kernel.SendMouseEvent` | drivers/input/input.c:35-53 | Queues the mouse message if it fits, and wakes the input process |
| `SystemCalls.Kernel.TimerTick` | kernel/core/task.c:28-80 | A tick changes threads only |
| `SystemCalls.Kernel.CreateProcess` | kernel/core/process.c:30-82 | Next pid, empty inbox, new thread, last in the circular list |
| `SystemCalls.Kernel.Link` | kernel/core/process.c:65-79 | The list stays one cycle through every process |
| `Lines.PointIsClose` | drivers/video/graphics.c:127-150 | Every visited point is in the bounding box and within half a pixel of the ideal line |
| `Lines.EndPoints` | drivers/video/graphics.c:127-150 | The line starts at one end and ends at the other |
| `Lines.StepsAreUnit` | drivers/video/graphics.c:140-148 | Each step moves one pixel along the longer axis and at most one along the other |
| `Lines.PaintedPixel` | drivers/video/graphics.c:119-125 | Exactly the visited on-screen pixels change |
| `Lines.DrawPixel` | drivers/video/graphics.c:119-125 | Sets one pixel, or nothing off screen |
| `Lines.DrawLine` | drivers/video/graphics.c:127-150 | Terminates after as many steps as the larger coordinate difference having plotted the points of the line; no 32-bit intermediate overflows for extents up to 0x2AAAAAAB |
| `Lines.ExtentFitsIff` | drivers/video/graphics.c:140 | The doubled error term fits 32 bits at every step of every line of an extent if and only if that is at most 0x2AAAAAAB |
| `Checksums.OnesSumIsFold` | drivers/network/ip.c:51-63 | Summing in 32 bits and folding once is the one's-complement sum of section 2 of RFC 1071 |
| `Checksums.TwoFolds` | drivers/network/ip.c:60-61 | Two folds are enough for any 32-bit sum |
| `Checksums.StoredChecksumVerifies` | drivers/network/ip.c:77-81 | Storing the checksum in its zeroed field makes the whole buffer re-sum to zero, for any length |
| `Checksums.ByteOrderIndependent` | drivers/network/ip.c:51-63 | Native-endian word sums are the byte swap of big-endian ones (section 2(B) of RFC 1071) |
| `Checksums.SumConcat` | drivers/network/tcp.c:55-74 | Sums add over concatenation after an even prefix, so a pseudo header may be summed first |
| `Checksums.BufferChecksum` | drivers/network/ip.c:51-63 | The word loop, the odd byte and the two folds compute that checksum |
| `Ip.HeaderVerifies` | drivers/network/ip.c:65-81 | Every header sent re-sums to zero |
| `Ip.HeaderDecodes` | drivers/network/ip.c:65-81 | Every header sent decodes to version 4, five words, service 0, the length and identifier, no fragment, time to live 64, the protocol and the addresses (section 3.1 of RFC 791) |
| `Ip.SentIsReceived` | drivers/network/ip.c:65-130 | A receiver reads back the sender, protocol and payload of a packet sent to it, without any padding of the frame |
| `Ip.OthersAreDropped` | drivers/network/ip.c:115-120 | Exactly the packets shorter than a header or for another address are dropped |
| `Ip.Htons` | drivers/network/ip.c:71-72 | The shifts and or swap the bytes |
| `Ip.IpLayer.BuildPacket` | drivers/network/ip.c:65-83 | The packet handed to the link layer is the header with its checksum followed by the payload; the identifier counts up and wraps |
| `Icmp.EchoVerifies` | drivers/network/icmp.c:33-47 | A request re-sums to zero, has type 8 and code 0, its identifier and sequence in network order, and 56 data bytes that count up from 8 |
| `Icmp.ReplyVerifies` | drivers/network/icmp.c:60-63 | The reply to any request re-sums to zero and keeps everything from the identifier on |
| `Icmp.ReplyKeepsRest` | drivers/network/icmp.c:61 | With the checksum fields zeroed, the reply's plain sum is the request's less the 8 by which the type changed |
| `Icmp.EchoState.SendRequest` | drivers/network/icmp.c:33-53 | Builds the request and resets the echo state |
| `Icmp.EchoState.Receive` | drivers/network/icmp.c:55-70 | A request becomes its reply in place, a reply is recorded, anything else is ignored |
| `TcpSegments.Htonl` | drivers/network/tcp.c:45-50 | The masks and shifts reverse the four bytes |
| `TcpSegments.ReversedBytes` | drivers/network/tcp.c:45-50 | The stored bytes are in network order, and swapping twice gives the word back |
| `TcpSegments.TcpChecksum` | drivers/network/tcp.c:52-86 | The pseudo header, the words, the odd byte and the fold loop compute the checksum of section 3.1 of RFC 793; the fold loop terminates |
| `TcpSegments.SegmentVerifies` | drivers/network/tcp.c:88-113 | A segment re-sums to zero with its pseudo header |
| `TcpSegments.PacketVerifies` | drivers/network/tcp.c:52-113 | A receiver that takes the pseudo header from the packet's IP header finds that the segment verifies |
| `TcpSegments.FixedFields` | drivers/network/tcp.c:88-103 | Every segment has a header of five words, a window of 8192 bytes and no urgent pointer |
| `TcpSegments.SegmentRoundTrip` | drivers/network/tcp.c:88-224 | What the receiver's field reads give is exactly what the sender put in, payload included |
| `TcpStream.RunInSequence` | drivers/network/tcp.c:118-254 | From the SYN on, over any run: the next sequence number is ISS + 1 + the payload bytes sent modulo 2^32, and every later segment carries the running total before it |
| `TcpStream.ConnectInSequence` | drivers/network/tcp.c:118-138 | So it is after the SYN |
| `TcpStream.ReceiveInSequence` | drivers/network/tcp.c:197-254 | Acknowledgements sent on the way, handshake, data or FIN, do not disturb it |
| `TcpStream.EstablishedByHandshake` | drivers/network/tcp.c:219-229 | A connection becomes established if and only if a segment with SYN and ACK comes from its peer's address and port to its own while it waits for one; it answers with the right acknowledgement |
| `TcpStream.AckNumbersAreIgnored` | drivers/network/tcp.c:197-254 | Over any run, the numbers that incoming segments acknowledge change nothing |
| `TcpStream.AnySynAckEstablishes` | drivers/network/tcp.c:219-229 | So a SYN-ACK that acknowledges any number at all establishes the connection |
| `TcpStream.EstablishedReceives` | drivers/network/tcp.c:232-253 | What an established connection makes of a segment from its peer: payload acknowledged in full with seq + length and its first 2048 bytes kept, a FIN acknowledged with seq + 1 and the connection closed, nothing else changed |
| `TcpStream.OthersAreIgnored` | drivers/network/tcp.c:210-214 | A segment from another address or port changes nothing |
| `TcpStream.FinAckIsRightIff` | drivers/network/tcp.c:247-253 | The acknowledgement of a FIN is the next number of the peer if and only if the segment carries no payload |
| `TcpStream.AckFollowsPeer` | drivers/network/tcp.c:232-245 | Over any run in which the peer's segments come in order: the number acknowledged is always the peer's next one, and only the last payload is kept |
| `TcpStream.ConnectionAcknowledges` | drivers/network/tcp.c:118-245 | The same from tcp_connect on: the peer's initial number + 1 + the payload bytes that arrived |
| `TcpStream.RunFlags` | drivers/network/tcp.c:88-254 | Over any run the first segment is a bare SYN, every later one acknowledges, payload goes out with PSH, and a FIN is the last segment of a closed connection |
| `TcpStream.ConnectingEmits` | drivers/network/tcp.c:118-138 | Connecting sends one SYN from the local port at the initial sequence number and uses it up |
| `TcpStream.SendingEmits` | drivers/network/tcp.c:159-166 | Sending puts out one segment with the current numbers, PSH and ACK |
| `TcpStream.CloseEnds` | drivers/network/tcp.c:140-195 | Closing sends one FIN, a wait that ran out nothing; either closes the connection and nothing later sends anything |
| `TcpStream.ClosedIsSilent` | drivers/network/tcp.c:159-254 | Once closed it sends nothing and ignores what arrives, over any run |
| `TcpStream.SegmentsTile` | drivers/network/tcp.c:159-166 | Each payload lies in the stream where its sequence number says, and the next begins where it ends |
| `TcpStream.DecodedSegmentsTile` | drivers/network/tcp.c:88-166 | The same of the fields decoded from the segment's bytes |
| `TcpStream.ByteIsCovered` | drivers/network/tcp.c:159-166 | Every byte of the stream is in a segment, at the place its sequence number says |
| `TcpStream.PayloadsDoNotOverlap` | drivers/network/tcp.c:159-166 | No two payloads overlap |
| `TcpStream.ConnectionSpellsStream` | drivers/network/tcp.c:118-195 | Both together, from tcp_connect on |
| `Tcp.BuildSegment` | drivers/network/tcp.c:88-113 | The bytes handed to IP are the segment's, checksum included |
| `Tcp.TcpLayer.SendPacket` | drivers/network/tcp.c:88-116 | Sends one segment with the connection's current numbers |
| `Tcp.TcpLayer.Connect` | drivers/network/tcp.c:118-138 | Resets the connection, takes the next local port and sends the SYN |
| `Tcp.TcpLayer.FinishConnect` | drivers/network/tcp.c:140-157 | Established or closed, by the state when the wait ends |
| `Tcp.TcpLayer.Send` | drivers/network/tcp.c:159-166 | Sends and advances only when established |
| `Tcp.TcpLayer.Close` | drivers/network/tcp.c:185-195 | Sends a FIN and forgets the active connection |
| `Tcp.TcpLayer.Receive` | drivers/network/tcp.c:197-254 | The state machine for an incoming segment, and exactly the acknowledgements it puts on the wire |
| `Html.DocumentParses` | kernel/browser/html.c:35-102 | For any leading text and any sequence of tags, nested or not, known or not, with or without attributes: one element per opening tag, in order, known by exactly its name, with the first 255 characters of the text after an h1 or p and no text otherwise |
| `Html.RenderedListParses` | kernel/browser/html.c:35-102 | On `<tag>text</tag>` for any list of headings and paragraphs the scan returns that list |
| `Html.CutNameIsUnknown` | kernel/browser/html.c:63-68 | Cutting a tag name to the buffer never changes which tag it is |
| `Html.TextIsSkipped` | kernel/browser/html.c:96-98 | Text between tags is passed over |
| `HtmlTree.ReadName` | kernel/browser/html.c:63-68 | The name loop stays in its buffer and stops where the specification says |
| `HtmlTree.ReadText` | kernel/browser/html.c:86-93 | So does the text loop |
| `HtmlTree.AddChild` | kernel/browser/html.c:77-83 | Appends to the linked list of children |
| `HtmlTree.HtmlParse` | kernel/browser/html.c:35-102 | Terminates; the linked children hold exactly the elements of the specification |
| `Layout.FlowPlaces` | kernel/browser/layout.c:40-85 | One box per heading and paragraph, in order, each below the heights before it; total height 5 + the sum of (height + 5); all modulo 2^32 |
| `Layout.BoxesAreDisjoint` | kernel/browser/layout.c:40-85 | Below 2^32 boxes keep their order, do not touch, and end above the total height |
| `Layout.BoxesAreSpaced` | kernel/browser/layout.c:14-85 | Every box at x 5 and ten narrower than the page, 20 high for a heading and 12 for a paragraph; the first at y 5, each 5 below the one before, and the page ends 5 below the last |
| `Layout.RenderedPageIsLaidOut` | kernel/browser/layout.c:40-85 | A page written as a list of headings and paragraphs is laid out as that list |
| `Layout.CreateTree` | kernel/browser/layout.c:40-85 | The linked boxes and the height are those of the specification |
| `Numerals.NumeralIsCanonical` | lib/string.c:98-101 | The digits printed are digits of the base, have no leading zero, and stand for the number |
| `Numerals.NumeralIsUnique` | lib/string.c:98-101 | No other such string does |
| `Numerals.ItoaReadsBack` | lib/string.c:84-113 | Base d reads back for every 32-bit integer, the minimum included; base x gives the unsigned pattern; no leading zero |
| `Numerals.Itoa` | lib/string.c:84-113 | The buffer holds that text, NUL-terminated |
| `Numerals.ReverseRange` | lib/string.c:105-112 | The swap loop reverses the digits in place and touches nothing else |
| `Numerals.PutDigits` | lib/string.c:98-101 | The digit loop writes the numeral backwards, at least one digit |
| `Numerals.IntToStr` | apps/calculator.c:40-68 | The display holds the number's text; for the minimum, a lone minus sign |
| `Numerals.ParseDisplay` | apps/calculator.c:70-85 | The value accumulated with 32-bit wrap-around |
| `Numerals.DisplayRoundTrip` | apps/calculator.c:40-85 | Parsing what was printed gives the value if and only if it is not the minimum, which gives 0 |

## Left out

- Regions.FoundIsLeast: for an aligned hint whose region does not wrap and a size up to 3 GB; what other calls return
  need not be unmapped, as `HintIsSafeIff` says.
- Vmm.MemoryManager.MapPage: the directory is given; a NULL directory standing for the current one is not modelled.
- Vmm.MemoryManager.AllocPagesAmong: freeing in one of several directories is not stated; it can free a frame that
  holds another's table.
- Vmm.MemoryManager.AllocPages: starts from page tables in used frames, which every run of map, unmap and allocate
  keeps, and which freeing keeps exactly as `FreePagesIsSound` says.
- AddressSpaceLaws.AllocPagesBacksRange: for a range that is unmapped and does not wrap; others overwrite mappings.
- Pmm.FrameAllocator.Init: the bitmap must be large enough for the memory size, as the source assumes.
- Pmm.FrameAllocator.MarkUsed: not after an initialisation that failed for want of a bitmap, which leaves a frame
  count and no bitmap: the source then reads address 0. The same holds of the other operations on frames.
- Scheduler.Scheduler.EnqueueTask: a slot that is on no queue, as every caller passes.
- Lines.DrawLine: for extents up to 0x2AAAAAAB, the most for which the doubled error term cannot overflow.
- IpcLaws.SpawnKeeps: until the 32-bit pid counter wraps, after which pids repeat.
- Ip.Receive: packets whose total length is at least a header and no more than was received; the source does
  not test this.
- Tcp.TcpLayer.Receive: segments whose header length is within the segment; the source does not test this.
- Tcp.TcpLayer.SendPacket: payloads that fit the 1500-byte buffer, as the source assumes.
- Tcp.TcpLayer.Connect: the wait for a SYN-ACK is a sequence of `Receive` calls followed by `FinishConnect`.
- HtmlTree.HtmlParse: a missing string and failed allocations are not modelled.
- Layout.CreateTree: failed allocations are not modelled.
- Numerals.ParseDisplay: the accumulation wraps at 32 bits, where C leaves signed overflow undefined.
- Numerals.IntToStr: negating the minimum wraps back to the minimum, where C leaves it undefined.
- The frame allocator's statistics, its free-frame query and list, and the dumps.
- Kernel heap (kernel/core/kheap.c): its splitting and coalescing read links already cleared, so a tiling theorem
  would describe other code.
- kernel/core/memory.c and usermode.c: a weaker copy of the frame allocator and page tables.
- VMM statistics, scheduler statistics other than the ready count, CPU time, wait data and process handles in the
  scheduler's pool: bookkeeping that nothing modelled reads.
- Creating (but for the kernel tables that directories then share), switching and destroying page directories, VMAs, and
  the identity mapping made at start-up.
- Failed allocations in task and process creation, and the per-process page directory that creation makes.
- System calls for writing text and for shared memory.
- TCP reassembly, retransmission and tcp_recv; ARP, Ethernet and routing in ip_send; waiting loops and time-outs.
- PCI, network card, disk, sound, VGA registers, interrupt tables and the boot animation: hardware effects.
- Desktop, widgets, themes, applications other than the calculator's number conversions, and the graphics protocol,
  whose library queues messages without waking their receiver.
