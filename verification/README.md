# AcornOS core, modelled and proved in Dafny

This project models the parts of AcornOS whose correctness is hardest to see from the C: the four-level
page tables over the bitmap frame allocator, the exit/wait protocol and the round-robin scheduler, the
kernel heap with its headers in the heap's own bytes, shadowFS with paths and buffered stdio on top, the
ELF loader with argument block and heap growth, and the Gregorian day count.

`dafny verify dfyconfig.toml` checks everything.

| files | what they hold |
|---|---|
| `wrappers`, `words` | optional values; little-endian words in byte memory |
| `pmm` | the frame bitmap |
| `page_tables`, `directory_copy`, `paging` | the walk, the no-aliasing tree, and the operations that change it in physical memory (`Machine`) |
| `user_memory`, `elf`, `argv`, `program` | user memory byte by byte; segments, heap growth, the argument block, `elf_load` as a whole |
| `process_memory` | which process owns which frame, over any mix of create, fork, exec, map, store and reap |
| `lifecycle` | exit, wait and the scheduler calls around them as a step machine with an interrupt flag and a program counter per process |
| `lifecycle_safety`, `lifecycle_runs`, `lifecycle_waits` | its invariant event by event; whole runs, and runs that break it; what exit and wait promise their callers |
| `round_robin`, `scheduler`, `scheduling_refinement` | the ring as a value, the linked ring as the kernel keeps it, and the link between the ring and the step machine |
| `heap_blocks`, `heap`, `heap_runs` | the block list as a value, the list encoded in bytes, whole runs |
| `file_chain`, `directories`, `shadowfs` | a file's block chain, the name tree, and all mounted instances with their quotas |
| `paths`, `vfs`, `open_files`, `stdio` | path components and mounts, operations on paths, open files, `FILE` |
| `calendar` | `days_from_civil` |

How the model reads the C:

- A panic is an outcome (`None`, `false` or a constructor), never a precondition. Where an
  out-of-memory panic is possible the contract says that it happens only when no page is free.
- Physical memory is a sequence of frames, each a table of 512 entries or a page of bytes. The proofs are
  about that memory; `Space` and `View` are the finite map and the contents a directory stands for.
- Loops over 512 entries nested four deep (deep copy, free) are methods indexed by table level that call
  themselves one level down, each with the loop of that level. Loops that clear a table, zero a page or
  copy a run of bytes within one page, block or buffer are written as one assignment of the whole run.
- Integer widths are written out where they can matter: the 32-bit sums of `shadowfs_read`, the 32-bit
  size, counts and `days_from_civil` intermediates, the 64-bit rounding of `kmalloc`.
- In the step machine the timer may fire between any two steps while interrupts are on. That includes the
  inside of `scheduler_yield`, which exit and wait call after `sti`, and of `scheduler_add`: noticing a
  sleeper and waking it, the walk and the switch, current_process = new and `switch_context`, finding a
  slot and filling it, and the link writes are separate steps. The code does not make these pairs safe.
  `Careful` says what each later step relies on: the process noticed or picked earlier has not died or
  left the queue, the slot is still free, nobody else is between the link writes, a walk does not reach a
  half linked process, a tick does not switch before `switch_context`. `ApplyExact` proves that this is
  exactly what the invariant needs, `StaleSwitch` and `HalfLinked` are runs from boot that violate it, and
  the theorems about runs hold up to the first event that is not careful. The kernel does not guarantee
  that there is none. A picked process that merely blocked or fell asleep again does no harm: it finds out
  in its own loop.
- What the machine takes for one step although interrupts are on: the walk over the ring (lines 174-217 of
  scheduler.c), the stores of lines 219-231, the filling of a table slot with its pid. A timer inside those
  is the event `Tear`, which is never careful. `scheduler_remove` is one step without that. The idle
  process sits in slot 0 and neither exits nor waits, sleeps or yields; `process_wait` is called for one's
  own child; a fork stands for `process_fork` and for a `process_create` followed by `scheduler_add`.
- `shadowfs_lookup`, `shadowfs_create` and `shadowfs_delete` never look at an inode's type. On a file
  that holds data they would take the block chain for an entry list; the model ends the run there with the
  outcome `Confused`. Reaching it takes a path that leads through a file.
- Properties that turned out false of the code are stated with their exact condition: `EnoughBytes`
  (`kmalloc` near 2^64), `TruncateTight` (truncation that extends), `CreatedResolves` (creation through a
  path whose mount point reaches into the last component), `SegmentShows` and `Load` (segments that share a
  page lose bytes and frames), `HeapRoom` with `GrowAll` (a heap grown over the stack page), and
  `ApplyExact` (the exit and wait protocol under interrupts inside the scheduler).

## Model

| member | source | states |
|---|---|---|
| Pmm.SetAndClear | kernel/memory/pmm.c:25-48 | setting and clearing one bit with a shifted mask changes that bit and keeps the other seven |
| Pmm.FrameAllocator.Alloc | kernel/memory/pmm.c:172-194 | the lowest free page becomes used, no other bit changes, the counter keeps its distance to the number of set bits; None exactly when no page is free |
| Pmm.FrameAllocator.Free | kernel/memory/pmm.c:197-213 | clears exactly the bit of the page; the counter keeps its distance to the set bits for a used page and falls behind by one for a page that was free; page 0 is ignored |
| Words.PutGet | kernel/memory/mem.c:88-104 | a 64-bit header field reads back as written and the write touches no other byte and no disjoint field |
| PageTables.SlotsArePages | include/architecture/x86_64/paging.h:44-47 | two user addresses agree in all four 9-bit indices exactly when they lie in the same page |
| PageTables.IndexOfPage | include/architecture/x86_64/paging.h:44-47 | the four indices are the page number's digits to the base 512, the top level first |
| PageTables.Local | kernel/architecture/x86_64/paging.c:66-135 | a directory's tree, frames and translations depend on its own tables only |
| PageTables.SetLeaf | kernel/architecture/x86_64/paging.c:183-208 | writing one page table entry changes the translation of exactly that page, keeps the tree free of aliasing, and releases and takes exactly the two leaf frames |
| PageTables.Isolated | kernel/architecture/x86_64/paging.c:290-397 | a directory whose frames keep their contents keeps every mapping and every byte, whatever happens to other frames |
| PageTables.PageChanged | kernel/architecture/x86_64/paging.c:242-251 | replacing the contents of one leaf page changes what the process sees in that page and nowhere else |
| PageTables.LeavesDistinct | kernel/architecture/x86_64/paging.c:66-135 | two user pages of one directory never share a frame |
| DirectoryCopy.CopyStep | kernel/architecture/x86_64/paging.c:310-392 | one more copied entry keeps the copy loop's invariant: same look up to that entry, disjoint frames, source untouched |
| DirectoryCopy.CopyShows | kernel/architecture/x86_64/paging.c:290-397 | a finished copy maps exactly the pages of the source, with equal flags, equal rights along the walk and equal bytes, on frames of its own |
| Paging.Sprout | kernel/architecture/x86_64/paging.c:72-86 | hanging a fresh table below an absent entry translates nothing new, withholds no rights from what will be mapped below it, and adds exactly that frame |
| Paging.Machine.AllocTable | kernel/architecture/x86_64/paging.c:36-54 | a fresh frame that is an all-absent table; nothing else changes |
| Paging.Machine.EnsureKid | kernel/architecture/x86_64/paging.c:72-86 | one level of the walk: the entry leads to a table afterwards, no translation changes, at most one frame is added |
| Paging.Machine.EnsurePath | kernel/architecture/x86_64/paging.c:66-135 | every level of the walk exists afterwards, no translation changes, the directory grows by exactly the newly used frames |
| Paging.Machine.MapPageIn | kernel/architecture/x86_64/paging.c:183-208 | at the one page the entry is present, writable and user exactly by the bits 1, 2 and 4 of the flags, and nothing on the way to it takes those rights away; the directory as a finite map changes nowhere else; frames change by the new tables and the two leaves only |
| Paging.Machine.GetPhysicalIn | kernel/architecture/x86_64/paging.c:242-251 | the finite map's frame plus the offset, or 0 where the page is not mapped |
| Paging.Machine.CloneDirectory | kernel/architecture/x86_64/paging.c:255-270 | an empty user half on one new frame, the kernel half shared |
| Paging.Machine.CopyKernelHalf | kernel/architecture/x86_64/paging.c:303-307 | exactly entries 256 to 511 are copied |
| Paging.Machine.AllocTop | kernel/architecture/x86_64/paging.c:255-270 | a fresh top-level table with an empty user half and the given kernel half |
| Paging.Machine.CopyInto | kernel/architecture/x86_64/paging.c:310-392 | one level's loop copies every entry and what hangs below onto new frames and leaves used frames alone |
| Paging.Machine.CopyEntry | kernel/architecture/x86_64/paging.c:362-389 | one entry: absent stays absent, a 2MB entry is shared, a page is copied to a new frame with its flags |
| Paging.Machine.CopySubtree | kernel/architecture/x86_64/paging.c:325-392 | one entry with a table below: a new table with the same flags and a copy of everything below |
| Paging.Machine.DeepCopyDirectory | kernel/architecture/x86_64/paging.c:290-397 | the copy shows the process exactly what the source showed, and owns exactly the newly used frames |
| Paging.Machine.FreeBelow | kernel/architecture/x86_64/paging.c:413-471 | releases everything below a table, each frame once, and nothing else |
| Paging.Machine.FreeEntry | kernel/architecture/x86_64/paging.c:413-471 | releases exactly what one entry owns |
| Paging.Machine.FreeDirectory | kernel/architecture/x86_64/paging.c:404-475 | the used set shrinks by exactly the directory's frames and the counter stays in step |
| Paging.Machine.MapZeroed | kernel/processes/syscall.c:391-405 | a fresh page of zeros at the address, every other page as it was; a page mapped there before is lost, not released |
| Paging.Machine.MapFresh | kernel/processes/syscall.c:393-395 | a new page mapped at the address; the directory gains exactly the newly used frames and loses a page mapped there before |
| Paging.Machine.StoreByte | kernel/architecture/x86_64/paging.c:242-251 | a one-byte store changes that byte of that page and no other directory |
| ProcessMemory.Rebalance | kernel/processes/process.c:479-623 | an operation that exchanges frames for one process keeps every used frame owned exactly once and every other process's view |
| ProcessMemory.Accounted | kernel/memory/pmm.c:172-213 | with exact ownership the bitmap is a function of what the processes own |
| ProcessMemory.NewProc | kernel/processes/process.c:57-173 | a stack page and an empty directory on exactly the newly used frames |
| ProcessMemory.CopyProc | kernel/processes/process.c:479-623 | a copy of the kernel stack page byte by byte and a deep copy of the directory: the same view on exactly the newly used frames |
| ProcessMemory.NewImage | kernel/processes/process.c:655-681 | a new stack and directory holding the loaded program, on newly used frames; on all of them if and only if the executable is clean |
| ProcessMemory.FreeProc | kernel/processes/syscall.c:215-219 | teardown releases exactly the process's frames |
| ProcessMemory.GrowProc | kernel/processes/syscall.c:391-405 | the accounts of a process after a page is mapped over another |
| ProcessMemory.SwapImage | kernel/processes/process.c:655-705 | the accounts after the old image is replaced |
| ProcessMemory.ProcessTable.Create | kernel/processes/process.c:57-173 | one more process with an empty address space; ownership stays exact, others see what they saw |
| ProcessMemory.ProcessTable.Fork | kernel/processes/process.c:479-623 | the child sees the parent's memory, and has the bytes of its kernel stack page, on frames nobody used before |
| ProcessMemory.ProcessTable.Grow | kernel/processes/syscall.c:391-405 | a zeroed page for one process with the bits of the given flags; a frame joins the lost ones if and only if a page was mapped there; others see what they saw |
| ProcessMemory.ProcessTable.Store | kernel/processes/process.c:479-623 | a store by one process, also after fork, changes no other process's memory |
| ProcessMemory.ProcessTable.Reap | kernel/processes/syscall.c:215-219 | the process and exactly its frames go |
| ProcessMemory.ProcessTable.Exec | kernel/processes/process.c:633-715 | success replaces the image by the program's and loses frames if and only if the executable is not clean; failure restores the bitmap and the view exactly |
| ProcessMemory.ProcessTable.Step | kernel/processes/process.c:57-715 | any single operation touches one process only |
| ProcessMemory.ProcessTable.Run | kernel/processes/process.c:329-364 | over any mix of operations every used frame has exactly one owner or is among the lost ones, untouched processes keep frames and bytes, operations that map over nothing lose none, and then what only comes and goes (fork then reap, a failed spawn) restores the bitmap exactly |
| UserMemory.PatchUp | kernel/core/elf.c:249-269 | consecutive writes are one write of the joined bytes |
| UserMemory.StoredByte | kernel/core/elf.c:251-264 | a store changes the byte at its address and no other byte, and no permission |
| UserMemory.WritePage | kernel/core/elf.c:251-264 | a write within a page through the direct map changes exactly those bytes and no mapping |
| UserMemory.MapZeroPages | kernel/core/elf.c:231-242 | exactly the pages of the range are fresh zeros with the given permissions; frames stay accounted for if and only if none of the pages was mapped |
| UserMemory.ExactTwice | kernel/memory/pmm.c:172-213 | a frame lost in one stretch is never regained in a later one |
| UserMemory.MapZeroPage | kernel/core/elf.c:231-242 | exactly one page becomes a fresh page of zeros with the given permissions; a frame is lost if and only if a page was mapped there |
| UserMemory.WriteBytes | kernel/core/elf.c:249-293 | a run of bytes across pages, from any offset, changes exactly those bytes |
| Elf.LoadSegment | kernel/core/elf.c:214-293 | exactly the segment's pages change: file bytes, zeros past the file size and around it, its permissions; no frame is lost if and only if none of its pages was mapped |
| Elf.Load | kernel/core/elf.c:204-294 | the whole program header loop: the last segment that covers a page decides its bytes and flags, everything else is as before; heap_start is the end of the highest segment; no frame is lost if and only if no page was mapped before and none is covered twice |
| Elf.HeapStart | kernel/core/elf.c:225-228 | page-aligned, not below the end of any loaded segment, and the end of one (or 0) |
| Elf.ImageOf | kernel/core/elf.c:231-242 | the last segment that covers a byte decides it and its permissions |
| Elf.SegmentShows | kernel/core/elf.c:204-294 | a segment's byte shows if and only if no later segment covers it or the last one that does has the same byte there |
| Elf.FreshNext | kernel/core/elf.c:231-242 | the pages of one more segment are fresh exactly when none of them is mapped by then |
| Elf.SegmentImage | kernel/core/elf.c:204-294 | for page-disjoint segments, byte k in memory is byte k of the segment in the file, or zero past the file size, on a page that is present, open to the user, and writable exactly for a writable segment |
| Elf.SharedPageLost | kernel/core/elf.c:231-242 | two segments on one page: where the first has the byte 7 the image has 0, and the page is covered twice |
| Elf.LoadSharedPage | kernel/core/elf.c:204-294 | loading those two: the byte reads 0 and a frame stays used that the directory does not own |
| Elf.HeapGrow | kernel/processes/syscall.c:358-410 | the end moves by exactly a non-negative increment and the old end is returned; a negative one gives -1 and moves nothing; every byte from the rounded old end to the new end is then zero and writable by the user, every byte below is as before; no frame is lost if and only if none of the new pages was mapped |
| Elf.GrowAll | kernel/processes/syscall.c:358-410 | after any sequence of growths the end has moved by the sum of the positive increments and every byte between is zero and writable by the user; exactly the pages between the rounded ends are new, without a loss if and only if none was mapped |
| Elf.HeapCovers | kernel/processes/syscall.c:384-407 | the heap covers [heap_start, heap_end), begins as zeros, writable by the user, and touches no segment byte |
| Elf.EndIsSum | kernel/processes/syscall.c:375-407 | ends moved one increment at a time add up to the start plus the positive increments |
| Argv.BuildArgv | kernel/core/elf.c:36-117 | succeeds exactly for 1 to 31 arguments whose block fits 2048 bytes; then following the pointers at the 8-byte aligned stack top reads back exactly argv; nothing outside the top 2048 bytes changes |
| Argv.BlockSizeIs | kernel/core/elf.c:50-102 | the block is the strings with their terminators, rounded up to 8, and a pointer for each and a NULL |
| Argv.Built | kernel/core/elf.c:36-117 | strings below the page top and pointers below the strings read back as argv |
| Argv.StringLaid | kernel/core/elf.c:82-87 | string i and its terminator lie at the address recorded for it |
| Argv.PlaceStrings | kernel/core/elf.c:63-88 | the strings fill the top of the page in order, and it fails exactly when they exceed the limit |
| Argv.PlacePointers | kernel/core/elf.c:104-111 | the addresses and a NULL as consecutive 64-bit words |
| Argv.LaidReads | kernel/core/elf.c:104-111 | a laid out block read back as pointers to NUL-terminated strings gives argv |
| Argv.PiecesDisjoint | kernel/core/elf.c:63-102 | strings follow one another without overlap up to the page top, the pointer array ends below them |
| Program.ElfLoad | kernel/core/elf.c:204-349 | image, stack page and arguments together: bytes and permissions of the whole address space, a stack page the user can write, heap start, argc and argv; no frame is lost if and only if no two segments, and no segment and the stack, meet in a page |
| Program.DisjointClean | kernel/core/elf.c:204-310 | page-disjoint segments below the stack page lose no frame |
| Program.HeapRoom | kernel/core/elf.c:342-343 | between heap_start and an end nothing is mapped if and only if the end does not pass the stack page (or the heap starts above it) |
| LifecycleSafety.InitInv | kernel/processes/process.c:39-55 | the boot state satisfies the protocol invariant |
| LifecycleSafety.TickInv | kernel/processes/scheduler.c:142-240 | a timer tick at any unmasked point, also inside a yield or a fork, keeps the invariant if its walk does not run into a half linked process and it does not switch between current_process = new and switch_context |
| LifecycleSafety.YieldInv | kernel/processes/scheduler.c:246-254 | entering scheduler_yield, with interrupts on, keeps the invariant |
| LifecycleSafety.SpotInv | kernel/processes/scheduler.c:127-132 | noticing a sleeper that is due keeps the invariant |
| LifecycleSafety.MarkInv | kernel/processes/scheduler.c:132-134 | making that sleeper ready, however much later, keeps the invariant if it has not died |
| LifecycleSafety.ChooseInv | kernel/processes/scheduler.c:174-217 | the walk of a yield always ends at another process and keeps the invariant |
| LifecycleSafety.CommitInv | kernel/processes/scheduler.c:219-231 | switching to the process picked earlier, however much later, keeps the invariant if it is still queued and has not died |
| LifecycleSafety.SwitchInv | kernel/processes/scheduler.c:237 | the context switch keeps the invariant |
| LifecycleSafety.FillInv | kernel/processes/process.c:71-80 | filling the slot found earlier keeps the invariant if it is still free |
| LifecycleSafety.LinkInv | kernel/processes/scheduler.c:58 | the first link write of scheduler_add keeps the invariant if nobody else is between those writes |
| LifecycleSafety.PlainStepInv | kernel/processes/syscall.c:42-63 | the cli and sti steps of exit and wait, reading the exit code and the later link writes of scheduler_add keep the invariant |
| LifecycleSafety.RefuseInv | kernel/processes/syscall.c:236-242 | returning -1 keeps the invariant |
| LifecycleSafety.DieStepInv | kernel/processes/process.c:177-192 | marking the exiting process dead keeps the invariant |
| LifecycleSafety.WakeStepInv | kernel/processes/syscall.c:47-61 | waking the parent inside the exit critical section keeps the invariant |
| LifecycleSafety.ScanStepInv | kernel/processes/syscall.c:200-242 | scanning for a dead child under cli keeps the invariant; what it decides is WaitDecides |
| LifecycleSafety.BlockStepInv | kernel/processes/process.c:313-318 | blocking under the same cli as the scan keeps the invariant |
| LifecycleSafety.UnlinkInv | kernel/processes/scheduler.c:74-115 | taking the dead child off the queue keeps the invariant |
| LifecycleSafety.ReleaseInv | kernel/processes/syscall.c:216-217 | releasing the child's frames keeps the invariant |
| LifecycleSafety.ClearInv | kernel/processes/syscall.c:218-222 | clearing the slot and returning the code keeps the invariant |
| LifecycleSafety.LateWriteFails | kernel/processes/scheduler.c:219-231 | a late write to a process that has died or left the queue breaks the invariant |
| LifecycleSafety.ApplyExact | kernel/processes/scheduler.c:142-255 | the exact condition: from a state that satisfies the invariant, an event keeps it if and only if the event is careful |
| LifecycleRuns.NoLostWakeup | kernel/processes/process.c:271-321 | after any careful events, in any interleaving with timer interrupts, a blocked waiter has its child (any child) in the table and none of the awaited ones is dead |
| LifecycleRuns.ReapedOnce | kernel/processes/syscall.c:185-250 | after any careful events each child is reaped at most once, by its parent, with the code it passed to exit, and its frames are released at most once |
| LifecycleRuns.QueueSound | kernel/processes/scheduler.c:37-115 | after any careful events the queue is without repetition, inside the table, contains the current process, nobody else is running, and no process runs past its exit |
| LifecycleRuns.LastsAsLongAsCareful | kernel/processes/scheduler.c:142-255 | along a run the invariant lasts until the first event that is not careful, and fails right after it |
| LifecycleRuns.StaleSwitch | kernel/processes/scheduler.c:174-231 | a run of the code from boot: a timer inside a yield lets the picked process exit, the late switch revives it, it runs past its exit, and its parent blocks waiting for it |
| LifecycleRuns.HalfLinked | kernel/processes/scheduler.c:58-60 | a run of the code from boot: a timer between two link writes runs the new process, and the next tick follows its NULL successor |
| LifecycleWaits.WaitDecides | kernel/processes/syscall.c:185-250 | along careful runs the scan decides by the table alone: -1 exactly when a wait for any child finds no entry with the caller as parent, the lowest dead awaited child exactly when there is one, otherwise the next event is the step that blocks the caller; nothing else changes |
| LifecycleWaits.ScanDecision | kernel/processes/process.c:291-318 | the same for one step, for any child and for one pid |
| LifecycleWaits.ExitWakesParent | kernel/processes/syscall.c:42-63 | along careful runs the exiting process is marked dead and the parent, if blocked, made ready, with no event in between and no other entry touched |
| LifecycleWaits.WaitReturns | kernel/processes/syscall.c:185-250 | whenever the caller of a wait is back in user code, the wait ended in between: with -1 to a caller without a child in the table, or with the exit code of a child, the awaited one, that is out of the table |
| LifecycleWaits.ServingStep | kernel/processes/syscall.c:185-250 | one event of any process: a wait goes on, or comes back like that |
| LifecycleWaits.RefusedChildless | kernel/processes/syscall.c:226-242 | every -1 ever returned was given to a caller with no child in the table at that moment |
| LifecycleWaits.NobodyMislaid | kernel/processes/process.c:57-173 | every pid ever given out is in the table or was reaped by a finished wait, never both |
| LifecycleWaits.ReapTraced | kernel/processes/syscall.c:206-222 | every finished wait traces back to a fork by the waiter and to the exit call of that child with that code; the child's frames were released, and nobody is reaped twice |
| LifecycleWaits.RestsUntilStirred | kernel/processes/process.c:231-264 | a sleeping or blocked process stays so until the timer finds it due, its child exits, or a yield that noticed or picked it earlier writes to it |
| LifecycleWaits.SleepLasts | kernel/processes/syscall.c:420-444 | a process that goes to sleep stays asleep until one of those |
| LifecycleWaits.SharedWrites | kernel/processes/scheduler.c:123-231 | what the steps that touch another process do, entry by entry: the late wake-up, the switch of a yield, the filled slot, the queue with the child at its end, the queue without the reaped child |
| RoundRobin.TickProgress | kernel/processes/scheduler.c:161-240 | a tick never passes over a ready process: it runs or its bound drops by a tick, and each switch shortens its ring distance |
| RoundRobin.BoundedWaiting | kernel/processes/scheduler.c:142-240 | ticks and switches spent waiting are bounded by the intervening slices and by the ring distance |
| RoundRobin.RunsWithinBound | kernel/processes/scheduler.c:142-240 | a process that stays ready has run after that many ticks |
| RoundRobin.SliceLasts | kernel/processes/scheduler.c:161-170 | a running process with t ticks left is still the current one after any j < t ticks, one less each time, whatever the others do |
| RoundRobin.TickSwitches | kernel/processes/scheduler.c:172-231 | without time left the processor goes to the nearest runnable process along the ring with a full slice, the leaving one being ready only if it was running; a new slice exactly when there is no other |
| RoundRobin.TickOthers | kernel/processes/scheduler.c:123-136 | everyone else is at most woken, exactly when asleep and due |
| Scheduler.RunQueue.Add | kernel/processes/scheduler.c:37-64 | appended to the one simple cycle, ready; others unchanged |
| Scheduler.RunQueue.Remove | kernel/processes/scheduler.c:74-115 | cut out of the cycle, or nothing for a process that is not queued; the walk is bounded by the table size |
| Scheduler.RunQueue.WakeSleepers | kernel/processes/scheduler.c:123-136 | exactly the sleepers of the table whose time has come become ready |
| Scheduler.RunQueue.FindNext | kernel/processes/scheduler.c:174-203 | the first ready process in ring order after the current one, or back at it |
| Scheduler.RunQueue.Reschedule | kernel/processes/scheduler.c:172-240 | the switch, or a new slice for the current process, exactly as specified |
| Scheduler.RunQueue.SwitchTo | kernel/processes/scheduler.c:219-231 | the outgoing process becomes ready only if it was running, the incoming one runs with a full slice |
| Scheduler.RunQueue.TickNow | kernel/processes/scheduler.c:142-240 | the linked ring moves exactly as the specification of a tick, and stays one simple cycle with at most the current process running |
| Scheduler.RunQueue.YieldNow | kernel/processes/scheduler.c:246-255 | a tick with the slice used up |
| Scheduler.RunQueue.Stop | kernel/processes/process.c:231-242 | blocking, dying or going to sleep keeps the queue sound |
| Scheduler.RunQueue.WakeUp | kernel/processes/process.c:248-264 | only a blocked process becomes ready |
| Scheduler.RunQueue.Enter | kernel/processes/process.c:57-173 | a new process in a free slot keeps the queue sound |
| Scheduler.RunQueue.Leave | kernel/processes/syscall.c:218-219 | a reaped process leaves its slot and the queue stays sound |
| SchedulingRefinement.TickRefines | kernel/processes/scheduler.c:142-240 | what the ring's tick does from the timer is a tick the step machine allows, and both agree afterwards |
| SchedulingRefinement.YieldRefines | kernel/processes/scheduler.c:142-255 | in an undisturbed yield the ring's tick is the machine's walk, switch and context switch |
| HeapBlocks.Canonical | kernel/memory/mem.c:135-171 | a tiling without adjacent free blocks is determined by its live blocks |
| HeapBlocks.CarveLive | kernel/memory/mem.c:76-112 | serving a request adds exactly one live block at the address and size handed out |
| HeapBlocks.MergeKeeps | kernel/memory/mem.c:154-163 | merging two free neighbours keeps the tiling and the live blocks |
| HeapBlocks.FitsIffGap | kernel/memory/mem.c:70-130 | some free block is large enough exactly when some gap between live blocks is |
| Heap.RoundedCovers | kernel/memory/mem.c:62-68 | rounding covers the request, with fewer than 4 bytes more, exactly when it does not wrap |
| Heap.KernelHeap.constructor | kernel/memory/mem.c:29-49 | any 16MB of bytes become one free block |
| Heap.KernelHeap.Search | kernel/memory/mem.c:70-117 | the first free block of at least the size, found through the header bytes |
| Heap.KernelHeap.Split | kernel/memory/mem.c:81-101 | the header writes of a split encode the two pieces |
| Heap.KernelHeap.Take | kernel/memory/mem.c:76-112 | the found block is carved in memory and counted, touching no live payload |
| Heap.KernelHeap.Kmalloc | kernel/memory/mem.c:53-131 | the first block that fits is handed out: cut to the rounded size when it is larger by more than 28 bytes, with one free block behind it up to the old end, and whole otherwise; the counter grows by its size; headers still tile the heap, no adjacent free blocks, no live payload byte changes; the out-of-memory panic exactly when no gap can hold the rounded request |
| Heap.KernelHeap.Coalesce | kernel/memory/mem.c:149-170 | one pass leaves no two adjacent free blocks and the live blocks alone |
| Heap.KernelHeap.Absorb | kernel/memory/mem.c:154-163 | one merge of two neighbouring free blocks in memory |
| Heap.KernelHeap.Unmark | kernel/memory/mem.c:143-147 | exactly the block becomes free and leaves the count |
| Heap.KernelHeap.Kfree | kernel/memory/mem.c:135-171 | exactly the block goes and the counter falls by its size, headers still tile the heap, no payload that stays live changes a byte |
| Heap.KernelHeap.Release | kernel/memory/mem.c:143-170 | the same once the block is known: unmarked, then one pass of merging |
| HeapRuns.ServedLive | kernel/memory/mem.c:53-131 | the block served is new and large enough |
| HeapRuns.EnoughBytes | kernel/memory/mem.c:62-68 | the block holds the requested bytes, and fewer than 32 more, exactly for requests up to 2^64 - 4 |
| HeapRuns.WrappedRequest | kernel/memory/mem.c:62-68 | on the fresh heap a request of 2^64 - 1 bytes is served with an empty block |
| HeapRuns.AllocThenFree | kernel/memory/mem.c:53-171 | the block list, the counter and all live payloads are back as they were |
| HeapRuns.FreeAll | kernel/memory/mem.c:135-171 | freeing everything in any order restores the single initial block |
| HeapRuns.Poke | kernel/memory/mem.c:53-171 | a store by a block's owner inside its data keeps the heap intact |
| FileChain.ReadChain | file_system/shadowfs/shadowfs.c:464-512 | contents[p .. min(p+n, length)], byte by byte, for every 32-bit position and size, past the end, with a sum that wraps and a difference that underflows |
| FileChain.FillBlock | file_system/shadowfs/shadowfs.c:588-637 | one block's worth goes to the end of the data, a new block only when the last is full |
| FileChain.AppendChain | file_system/shadowfs/shadowfs.c:562-649 | the data gains exactly the reported prefix, non-last blocks stay full, and everything is written exactly when the quota is not used up before the last block; a short write stops at a block boundary with the quota used up |
| FileChain.TruncateChain | file_system/shadowfs/shadowfs.c:743-806 | exactly the prefix is kept (nothing changes for a larger size) and each block taken off returns its charge |
| FileChain.TrimChain | file_system/shadowfs/shadowfs.c:765-802 | the walk for a positive size, block by block |
| FileChain.Clip | file_system/shadowfs/shadowfs.c:464-470 | clipping the length in 32 bits, wrapped or not, changes nothing before the end of the data |
| FileChain.ChainLength | file_system/shadowfs/shadowfs.c:588-637 | the number of blocks is the data length over 4096, rounded up |
| Directories.UniqueWalk | file_system/shadowfs/shadowfs.c:220-257 | an inode is reached from one root under one sequence of names only |
| Directories.CreatedWalk | file_system/shadowfs/shadowfs.c:260-343 | creation makes exactly one sequence of names lead to the new inode and changes no other |
| Directories.DeletedWalk | file_system/shadowfs/shadowfs.c:345-422 | deletion makes exactly the names through the entry unresolvable |
| Directories.CreateThenDelete | file_system/shadowfs/shadowfs.c:260-422 | creating and deleting an entry restores every inode |
| Directories.RewrittenWalk | file_system/shadowfs/shadowfs.c:523-807 | writing or truncating a file changes what no names lead to |
| ShadowFs.BlockCountExact | file_system/shadowfs/shadowfs.c:577-622 | the recorded block count is the chain length and its charge is within what is used |
| ShadowFs.Store.Mount | file_system/shadowfs/shadowfs.c:142-217 | refused exactly for a full table, a point in use or a quota above half of free memory; otherwise one more empty root |
| ShadowFs.Store.Find | file_system/shadowfs/shadowfs.c:220-257 | the entry list is a name map; a file taken for a directory is Missing when empty and Confused otherwise |
| ShadowFs.Store.FindEntry | file_system/shadowfs/shadowfs.c:240-253 | the list walk finds the first entry of the name, or none |
| ShadowFs.Store.Create | file_system/shadowfs/shadowfs.c:260-343 | fails exactly for a used-up quota or a name in use; names stay unique, every inode has one entry, and the quota books balance |
| ShadowFs.Store.Delete | file_system/shadowfs/shadowfs.c:345-422 | exactly the entry and its inode go; what is used never underflows, and the blocks lost with a non-empty file are accounted for |
| ShadowFs.Store.Read | file_system/shadowfs/shadowfs.c:440-520 | the slice of the file's data at any position |
| ShadowFs.Store.Write | file_system/shadowfs/shadowfs.c:523-650 | appends the reported prefix, charges the mount for the new blocks, keeps all invariants; complete exactly when there is room |
| ShadowFs.Store.Truncate | file_system/shadowfs/shadowfs.c:718-807 | files only; the data is cut, the mount credited, all invariants kept |
| ShadowFs.TruncateTight | file_system/shadowfs/shadowfs.c:804 | the recorded size equals the data length afterwards exactly when truncation does not extend |
| ShadowFs.WriteTight | file_system/shadowfs/shadowfs.c:641 | writing keeps the recorded size true exactly while the length fits 32 bits |
| ShadowFs.ExtendingIsNotTight | file_system/shadowfs/shadowfs.c:804 | truncating the empty file to 5 records 5 bytes and holds none |
| ShadowFs.RunOps | file_system/shadowfs/shadowfs.c:142-807 | over any run of mounts, creations, deletions, writes and truncations every recorded size is the number of bytes, as long as no truncation extends and no file reaches 2^32 bytes |
| ShadowFs.OkDeleted | file_system/shadowfs/shadowfs.c:407 | used equals the charge of all entries and blocks plus the lost ones after a deletion |
| ShadowFs.OkRewritten | file_system/shadowfs/shadowfs.c:577-622 | the books balance after a change of a file's data and its mount's charge |
| ShadowFs.OkCreated | file_system/shadowfs/shadowfs.c:338-339 | the books balance after a creation |
| Paths.ComponentsJoin | file_system/vfs/vfs.c:196-243 | the components of a path are those before a slash, then those after it |
| Paths.DoubledSlash | file_system/vfs/vfs.c:222-226 | a doubled slash means what a single one means |
| Paths.SplitComponents | file_system/vfs/vfs.c:325-364 | an absolute path has its parent's components and then its name, below any common mount point |
| Paths.RelativeName | file_system/vfs/vfs.c:343-364 | a path without a slash names, below the root, itself without its first character |
| Paths.Owner | file_system/vfs/vfs.c:102-143 | the first of the longest mount points that are prefixes of the path, None when there is none |
| Paths.BoundedParent | file_system/vfs/vfs.c:343-364 | a mount point that ends at a component boundary lies within the parent part |
| Vfs.FindMount | file_system/vfs/vfs.c:102-143 | the owner of the path |
| Vfs.WalkPath | file_system/vfs/vfs.c:196-246 | the component loop is lookup folded over the non-empty components |
| Vfs.Resolve | file_system/vfs/vfs.c:147-247 | resolution is that fold from the owner's root, also for the mount point itself and for "/" |
| Vfs.Split | file_system/vfs/vfs.c:330-364 | parent and name around the last slash |
| Vfs.CreateAt | file_system/vfs/vfs.c:325-388 | succeeds exactly when the parent is a directory with room and without the name; then exactly the paths that spell the new place lead to the new inode and all others mean what they meant |
| Vfs.CreateIn | file_system/vfs/vfs.c:375-388 | the same once the parent is found; only vfs_mkdir asks whether it is a directory |
| Vfs.Obtain | file_system/vfs/vfs.c:309-389 | an existing path is found and nothing changes; a missing one is created as above only with O_CREAT |
| Vfs.Remove | file_system/vfs/vfs.c:783-844 | exactly the paths through the deleted entry become unresolvable, all others mean what they meant; the inode is freed |
| Vfs.RemoveFrom | file_system/vfs/vfs.c:827-843 | the same once the parent is found |
| Vfs.CreatedResolves | file_system/vfs/vfs.c:325-388 | after creation the path leads to the new inode exactly when its mount point lies within its parent part |
| Vfs.DeletedUnresolvable | file_system/vfs/vfs.c:783-844 | after deletion no spelling of the path resolves |
| Vfs.BoundedRegular | file_system/vfs/vfs.c:102-143 | mount points at component boundaries make every path but a mount point regular |
| Vfs.IrregularExample | file_system/vfs/vfs.c:119-128 | with "/" and "/temp" mounted, "/tempx" is created in one and looked for in the other |
| OpenFiles.Open | file_system/vfs/vfs.c:309-449 | exactly when it succeeds, which inode it opens, what O_TRUNC and O_APPEND do to data and position, and that the path then leads to that inode |
| OpenFiles.Attach | file_system/vfs/vfs.c:400-446 | only a file is truncated; the position is 0, or the size when appending |
| OpenFiles.ReadFile | file_system/vfs/vfs.c:555-588 | the slice at the position, which advances by what was read; refused exactly for write-only |
| OpenFiles.WriteFile | file_system/vfs/vfs.c:636-670 | appends what fits and moves the position by as much; with room nothing is short, and room for n bytes is room for the rest after writing some |
| OpenFiles.OnlyDataLeads | file_system/shadowfs/shadowfs.c:523-650 | writing to a file changes the meaning of no path that has one |
| Stdio.Fopen | libc/src/stdio.c:177-242 | exactly when it succeeds; by mode letter: r changes nothing, w leaves an empty file, a keeps an existing file as it is and starts at its end; an empty buffer over the opened file, to which the path then leads |
| Stdio.Stream.Fwrite | libc/src/stdio.c:305-338 | always reports all items; with room, file plus buffer holds the old bytes and then the new ones |
| Stdio.Stream.Put | libc/src/stdio.c:316-335 | one turn of the loop: a full buffer is flushed and a chunk taken in, in order |
| Stdio.Stream.Flush | libc/src/stdio.c:318-326 | the buffer goes to the end of the file; a short write counts as a success |
| Stdio.Stream.Fread | libc/src/stdio.c:267-303 | the next bytes of buffer plus file, fewer only at the end, none lost or repeated; whole items counted |
| Stdio.Stream.ReadBytes | libc/src/stdio.c:278-300 | the loop delivers the next bytes |
| Stdio.Stream.Refill | libc/src/stdio.c:280-291 | refilling loses and repeats nothing, and fails only at the end |
| Stdio.Stream.Fclose | libc/src/stdio.c:244-265 | the file holds what was in file plus buffer |
| Stdio.WriteAll | libc/src/stdio.c:305-338 | any split into fwrite calls and fclose leaves the old contents plus the concatenation |
| Stdio.Save | libc/src/stdio.c:177-338 | from the path on: fopen in mode w or a, any split into fwrite calls and fclose leave exactly the data, or the old contents and the data, in the file the path leads to, and every other file as it was; refused exactly when the path is no file and cannot become one |
| Stdio.ReadAll | libc/src/stdio.c:267-303 | any split into fread calls yields consecutive pieces |
| Stdio.ExpectedPrefix | libc/src/stdio.c:267-303 | those pieces concatenate to a prefix of the data |
| Stdio.WriteThenRead | libc/src/stdio.c:177-338 | what any split of writes wrote, any split of reads of the reopened file reads |
| Calendar.EqualsNaiveCount | drivers/rtc/rtc.c:147-157 | days_from_civil is the day count made year by year and month by month, for every integer year |
| Calendar.ClosedForm | drivers/rtc/rtc.c:147-157 | truncating division and 32-bit intermediates give the floored era formula |
| Calendar.Epoch | drivers/rtc/rtc.c:147-157 | 0 at 1970-01-01 |
| Calendar.NextDay | drivers/rtc/rtc.c:147-157 | one more for each next date, across every boundary |
| Calendar.Monotone | drivers/rtc/rtc.c:147-157 | strictly monotone in the date order, both ways, and injective |

## Left out

- Hardware: boot and context-switch assembly, GDT, IDT, TSS, PIC, port I/O, the TLB, page faults. A context switch is a change of the current process.
- Kernel-half mappings, map_page, unmap_page and the kernel's own top-level table, which stays constant. A directory's kernel half is copied by reference and never looked into; 2MB pages met below it are shared and owned by nobody.
- pmm_init: the allocator starts from any bitmap with page 0 set and any counter value; only that the counter keeps its distance to the set bits is claimed.
- libc malloc and free: a FILE and its buffer are always allocated.
- vfs_seek: positions are arbitrary 32-bit values instead.
- The file descriptor table, dup and reference counts: an open file is passed directly; they would only add easy members.
- ShadowFs.Store.Write: always appends, as the code does, whatever the position; the frame allocator's out-of-memory panic inside it is not modelled.
- ShadowFs.Store.Delete: the parent must be a directory; deleting a file that is still open leaves the open file without an inode; reads and writes through it are not described.
- ShadowFs.Store.Mount: also covers the root inode's creation; file times, permissions, owners and inode numbers are not modelled.
- ShadowFs.Store.Create: the parent must be a directory, which the code does not check; Vfs.CreateAt decides what happens otherwise.
- ShadowFs.Store.Read: requires the recorded size not to be below the data length, which it is only after a file has outgrown 32 bits.
- Vfs.WalkPath: components of 64 characters or more, which the code copies past its buffer, are excluded.
- Vfs.Resolve: the same.
- Vfs.Obtain: paths whose components or parent do not fit the 64-byte buffers are excluded.
- Vfs.Remove: the same.
- OpenFiles.Open: the same.
- Vfs.CreateAt: the same; with a file as parent the model stops with Confused and leaves the state as it was; what the code does to memory then is not described.
- Elf.LoadSegment: requires the file size to be at most the memory size and the segment to lie in the user half; the code checks neither.
- Elf.HeapGrow: requires the new end to lie in the user half.
- Elf.GrowAll: the same.
- Stdio.Save: asks of the quota, for the contents, that every mount has room for one entry and the data; a path that leads to a directory is refused, where fopen itself would open it.
- Program.ElfLoad: takes decoded program headers and a nonzero entry point; the iret frame and the register fields are not modelled. elf_load_from_path appears as a load that either delivers the file or fails before anything is mapped.
- ProcessMemory.ProcessTable.Exec: requires of a loadable executable what Elf.LoadSegment requires.
- LifecycleRuns.NoLostWakeup: states the property up to the first event that is not careful, because the code does not keep it beyond; covers exit and wait only, keyboard blocking checks its buffer without cli.
- LifecycleRuns.ReapedOnce: states the property up to the first event that is not careful.
- LifecycleRuns.QueueSound: states the property up to the first event that is not careful.
- LifecycleWaits.WaitDecides: states the property up to the first event that is not careful.
- LifecycleWaits.ExitWakesParent: states the property up to the first event that is not careful.
- LifecycleWaits.WaitReturns: states the property up to the first event that is not careful.
- LifecycleWaits.RefusedChildless: states the property up to the first event that is not careful.
- LifecycleWaits.NobodyMislaid: states the property up to the first event that is not careful.
- LifecycleWaits.ReapTraced: states the property up to the first event that is not careful.
- LifecycleWaits.RestsUntilStirred: states the property up to the first event that is not careful.
- LifecycleWaits.SleepLasts: states the property up to the first event that is not careful.
- LifecycleWaits.SharedWrites: states the property up to the first event that is not careful.
- Scheduler.RunQueue.Remove: the current process is never the one removed, as in every caller.
- Calendar: rtc_read, the BCD and 12-hour conversions and rtc_now_epoch.
- create_user_process, the shell, VGA, serial output, devFS, procFS, kprintf, printf formatting.
