# MiniDOS verification

A Dafny model of the hard parts of MiniDOS: the preemptive kernel scheduler and its guarded stacks, the
two-level page tables and application address spaces, the drawing algorithms of the UI runtime, the window
manager, the text editor, and the file explorer's history. `dafny verify dfyconfig.toml` checks all of it.

Code that changes things step by step is modelled as classes and methods with loops (`Scheduler`,
`PageTables`, `DirtyList`, `RectBatch`, `WindowManager`, `Explorer`, `EditorApp`, the methods of `Blit`, `Glyphs` and
`Drawing`), each proved against a
specification function or a stated property; the theorems about runs are lemmas about those functions.

## Main results

- **Scheduler, every run.** Interrupt handlers and spawns are atomic steps; sleeping, exiting, killing and changing
  the quantum run with interrupts on and are split where a timer tick can land. Every reachable state keeps one
  current slot, no other slot RUNNING, idle READY or RUNNING, a positive slice and quantum, a resumable frame in
  every suspended slot, and the running slot's own kernel stack and address space (`BootedRunInv`). Idle is chosen
  only as a last resort (`IdleIsLastResort`). `slice <= quantum` holds in every state of a run if and only if each
  quantum or slice store meets its guard (`SliceBoundedIff`); between the stores of `scheduler_enable_preemption` it
  can fail (`SliceExceedsQuantum`).
- **Bounded waiting.** A READY slot at round-robin distance `d` runs within `d` context switches
  (`RunsWithinDistance`), and with preemption on within `slice + (d - 1) * quantum` ticks (`RunsWithinBudget`),
  whatever yields, sleeps, exits, spawns and kills of others are interleaved.
- **Ticks.** Idle gives way at the very first tick at which another slot is READY or woken, with preemption on or off
  (`IdleTick`, over runs `IdleEndsAtNextTick`); any other slot keeps the processor until its slice is used up, and for
  ever with preemption off (`SliceTick`).
- **Sleep.** A tick wakes a sleeper exactly when its wait is over or longer than 2^31 + 1 ticks (`TickWakesIff`). From
  the call on, with any run between its two stores and after them, the caller stays BLOCKED until its due tick and is
  awake after it (`SleepFromTheCall`); that tick is the promised one if and only if the unsigned comparison can tell
  the wait from a past one (`DueTickIs`), which covers all requests up to 2^31 + 1. Longer ones end at the very next
  tick (`LongSleepEndsAtOnce`).
- **Context integrity.** The log of saved and resumed frames of every run follows a typestate automaton
  (`RunIsDisciplined`): an activation resumes exactly what was last saved for that slot, once, and never after its
  death (`ActivationResumesLastSave`). A spawn follows it if and only if it does not take the spawner's own slot
  (`SpawnIsObserved`); a task that has exited can reach that case (`OwnSlotIsReachable`), and then the new task's
  first frame is lost (`SpawnIntoOwnSlotLosesFrame`).
- **Spawning.** A spawn takes the least free slot it may take and gives it exactly what was asked for (`SpawnGives`);
  over any run that does not end the task it keeps its entry point and argument, and whenever it has the processor its
  spawner's page directory is loaded (`TaskRunsInItsDirectory`).
- **Killing.** A kill whose stores are separated by any run ends like a kill in one step if and only if the slot is
  still free when the late stores come (`SplitKillIff`). `LateStoresHitNewTask` is a run from boot in which another
  task respawned the slot and the late stores wipe the new task's entry point.
- **Start-up.** From any page-table contents and any framebuffer description, setting up paging and then the scheduler
  succeeds, establishes the scheduler's invariant, and leaves every guard page faulting and every stack page mapped to
  itself (`StartKernel`).
- **Address spaces.** An application directory maps its page-rounded window for user mode, nothing else in that
  4 MiB region, and agrees with the kernel elsewhere (`AppTranslation`, `OnlyWindowIsUser`). It is built if and only
  if the pointers, alignments, size and region meet a condition a caller can check (`AcceptsIff`,
  `BuildSucceedsAfterSetUp`). Set-up maps the low 16 MiB and the framebuffer's first two regions and nothing else
  (`SetUpMaps`). The guard pages fault
  in every directory, built before or after they are armed, over any further unmaps and builds
  (`GuardsFaultForever`), while every stack page stays mapped to itself (`GuardedStacks`).
- **Drawing.** The run-length scaled blit paints each pixel of destination and clip exactly once with its
  colour of the source pixel its coordinates scale to (`BlitIsExact`); clipped text drawn character by character paints exactly the text's pixels
  inside the clip (`TextFallbackIsExact`); batching with its flush barriers, refused requests and their fallbacks is
  invisible (`Drawing.DrawAll`); rectangle algebra is exact on points; a click hits what was painted last
  (`HitIsLastPainted`, `PerformThenClick`).
- **Editor.** Every key and command is described cell by cell and by where the cursor goes (`TypedCharacter`,
  `ErasedCharacter`, `PastedLine`, `FoundNext`, `ExitIff` and their neighbours in `EditorKeys`). Reading back an exported document restores it if and only if no row before the last non-blank one
  uses all 78 columns (`RoundTrip`, `SaveThenOpen`). Over every key sequence the cursor stays in the grid, undo and
  redo are never both possible, and a document not marked dirty is the saved one (`StartedRunOk`,
  `ExitLosesNothing`), and one Undo, or one Redo after an Undo, takes back whatever a key did to the document
  (`OneCommandTakesBack`). Next walks all matches cyclically, each exactly once, and Previous undoes it
  (`NextReachesEachMatchOnce`, `SearchIsReversible`). Replace All is the leftmost replacement cut to the line,
  and its count is exact (`EditorReplace.ReplaceAll`).
- **Scrollbar.** Grabbing the thumb without moving it lowers the value by at most ceil(R / U), and leaves it alone
  if and only if R divides (v - min) * U (`GrabWithoutMoving`, with the drift shown by `GrabDrifts`).
- **Explorer.** The history is a browser's two stacks with eleven places behind (`NavigationRefines`), and k steps
  back then k forward is the identity (`BackThenForward`).

## Assumptions

- The timer is started, so `timer_on_tick` adds 1 modulo 2^32; interrupt entry points get a non-null frame.
- A task that marked itself BLOCKED or TERMINATED finishes its stores, spawns at most into other slots, and traps; the
  idle slot neither sleeps nor exits.
- Interrupt handlers run with interrupts off.
- Page-table frames are page-aligned, distinct, and an application's frames are not the kernel's or another
  application's. Memory outside frames that hold directories and tables is not modelled.
- Screen coordinates are mathematical integers, except in the blit, where the 32-bit bounds are proved.
- A request the kernel refuses draws nothing; a text request of one character paints that character's 8 x 8 cell, with
  the font the runtime uses. Dialogs, file reads and writes are answers supplied with each key.

## Model

| member | source | states |
|---|---|---|
| `KernelLayout.RegionsAreDisjoint` | src/kernel/process/scheduler.c:88-90 | guard-and-stack regions of different slots share no address; the first frame of a slot lies inside its own stack |
| `SchedulerSafety.DistIsCyclic` | src/kernel/process/scheduler.c:253-254 | the scan's distance is ((p - current - 1) mod 8) + 1 |
| `SchedulerSafety.NextReadyIsNearest` | src/kernel/process/scheduler.c:248-264 | the scan returns the READY non-idle slot nearest after the current one, and fails only when there is none |
| `SchedulerSafety.SwitchEffect` | src/kernel/process/scheduler.c:297-321 | a switch resumes the frame saved in a READY slot, suspends the old one with the given frame and touches no third slot; without a switch nothing else is READY |
| `SchedulerSafety.SwitchInv` | src/kernel/process/scheduler.c:297-321 | a switch keeps the invariant, also for a slot caught BLOCKED, READY or TERMINATED before its trap |
| `SchedulerSafety.SwitchTarget` | src/kernel/process/scheduler.c:266-283 | a switch goes to the nearest eligible slot, to idle only when there is none |
| `SchedulerSafety.ExitTarget` | src/kernel/process/scheduler.c:602-607 | an exit from interrupt goes to the nearest eligible slot, else to idle, never back |
| `SchedulerSafety.ExitEffect` | src/kernel/process/scheduler.c:590-608 | an exit from interrupt always resumes another slot's saved frame, leaves the old one TERMINATED and keeps the invariant |
| `SchedulerSafety.ChargeEffect` | src/kernel/process/scheduler.c:470-477 | charging a tick keeps the invariant and every saved frame, and makes READY exactly the blocked slots that are due |
| `SchedulerSafety.TickEffect` | src/kernel/process/scheduler.c:467-498 | after charging, a tick switches, or counts the slice down, or (preemption off) does nothing, and keeps the invariant; SchedulerTick says which |
| `SchedulerSafety.FreeFromIsLeast` | src/kernel/process/scheduler.c:233-246 | a spawn takes the least free slot from its first pid on |
| `SchedulerSafety.SpawnKeepsInv` | src/kernel/process/scheduler.c:346-380 | a spawn into any slot but the current one keeps the invariant |
| `SchedulerSafety.QuietStepInv` | src/kernel/process/scheduler.c:450-545 | each store of a sleep, an exit, a kill and a quantum change, and a spawn, keeps the invariant: a tick may land between any two |
| `SchedulerSafety.StepInv` | src/kernel/process/scheduler.c:467-608 | every legal step keeps the invariant |
| `SchedulerSafety.BootInv` | src/kernel/process/scheduler.c:419-448 | initialization establishes the invariant, whether or not preemption was already switched on |
| `SchedulerSafety.TickDuringInit` | src/kernel/process/scheduler.c:431-448 | a tick that lands between the stores of initialization resumes the boot task and changes only counters, the slice and the boot slot's frame |
| `SchedulerSafety.RunInv` | src/kernel/process/scheduler.c:467-608 | every state of every legal run satisfies the invariant |
| `SchedulerSafety.BootedRunInv` | src/kernel/process/scheduler.c:419-608 | the same for every run from initialization |
| `SchedulerSafety.IdleIsLastResort` | src/kernel/process/scheduler.c:266-283 | a step passes control to idle only when no slot but the one left is READY afterwards |
| `SchedulerSafety.StepKeepsSlice` | src/kernel/process/scheduler.c:450-498 | a step keeps slice <= quantum if and only if it is no quantum store below the slice and no slice store above the quantum; a context switch restores it |
| `SchedulerSafety.SliceBoundedIff` | src/kernel/process/scheduler.c:450-498 | 1 <= slice <= quantum in every state of a run if and only if every store meets that guard |
| `SchedulerSafety.SliceExceedsQuantum` | src/kernel/process/scheduler.c:455-456 | after the first store of enabling a quantum of 1 a tick sees slice 5 and quantum 1 |
| `SchedulerFairness.SwitchServes` | src/kernel/process/scheduler.c:297-321 | with a READY slot waiting, a switch happens and either runs it or strictly lowers its distance |
| `SchedulerFairness.StepServes` | src/kernel/process/scheduler.c:467-498 | no step lengthens a waiting slot's distance or tick budget, and every tick shortens the budget |
| `SchedulerFairness.RunsWithinDistance` | src/kernel/process/scheduler.c:248-321 | a READY slot runs within its distance in context switches, over any legal run |
| `SchedulerFairness.RunsWithinBudget` | src/kernel/process/scheduler.c:467-498 | with preemption on and a fixed quantum it runs within slice + (distance - 1) * quantum ticks |
| `SchedulerTick.ChargeIs` | src/kernel/process/scheduler.c:470-477 | a tick counts one for the current slot, makes exactly the due sleepers READY with wake tick 0, and touches nothing else of any slot |
| `SchedulerTick.IgnoredBeforeInit` | src/kernel/process/scheduler.c:472-474 | without a frame or before initialization the traps do nothing and a tick only counts |
| `SchedulerTick.IdleTick` | src/kernel/process/scheduler.c:479-497 | from idle a tick runs the nearest slot that is READY or woken by it, with preemption on or off, and stays only without one |
| `SchedulerTick.SliceTick` | src/kernel/process/scheduler.c:480-497 | from any other slot: no switch with preemption off or with slice left; at the end of the slice the nearest waiting slot, else the same slot, or idle if it no longer runs |
| `SchedulerTick.YieldDecides` | src/kernel/process/scheduler.c:500-506 | a yield runs the nearest READY slot; without one a RUNNING caller goes on and any other gives way to idle |
| `SchedulerTick.SwitchAccounts` | src/kernel/process/scheduler.c:285-295 | a switch is counted in the slot it resumes and nowhere else |
| `SchedulerTick.TickAccounts` | src/kernel/process/scheduler.c:467-498 | a tick is charged to the slot that was current and to no other |
| `SchedulerTick.IdleEndsAtNextTick` | src/kernel/process/scheduler.c:467-498 | over any run from idle with slot p READY, by the first tick p or a slot before it has the processor |
| `SchedulerSpawn.SpawnGives` | src/kernel/process/scheduler.c:346-380 | a spawn is refused exactly without a name, an entry point or a free slot; else the least free slot is READY with a fresh frame and the requested entry point, argument and directory, and no other slot changes |
| `SchedulerSpawn.RunKeepsTask` | src/kernel/process/scheduler.c:285-295 | a task that nothing ends keeps entry point, argument and directory over any run |
| `SchedulerSpawn.TaskRunsInItsDirectory` | src/kernel/process/scheduler.c:370-371 | whenever a spawned task has the processor, the directory its spawner passed is loaded and its own stack is set |
| `SchedulerSpawn.KillEffect` | src/kernel/process/scheduler.c:791-801 | a kill succeeds exactly for a READY, RUNNING or BLOCKED slot above idle, clears that slot and changes nothing else |
| `SchedulerSpawn.ExitClears` | src/kernel/process/scheduler.c:590-600 | an exit from interrupt clears the slot and keeps the frame it was interrupted at |
| `SchedulerSleep.DueOnNextTick` | src/kernel/process/scheduler.c:330-332 | the unsigned comparison on the next tick holds exactly when at most 1 or more than 2^31 + 1 ticks are left, for all counter values |
| `SchedulerSleep.RunTicks` | src/kernel/process/scheduler.c:467-477 | over any run the counter advances by one modulo 2^32 per tick and by nothing else |
| `SchedulerSleep.RunKeepsArmed` | src/kernel/process/scheduler.c:528-530 | whatever runs between the two stores of a sleep, the wake tick stays as stored |
| `SchedulerSleep.CallLeavesAsleep` | src/kernel/process/scheduler.c:516-532 | a call with n ticks whose stores are t ticks apart leaves the caller BLOCKED with (n - t) mod 2^32 ticks to wait |
| `SchedulerSleep.TickWakesIff` | src/kernel/process/scheduler.c:323-337 | a tick wakes a sleeper if and only if its wait is over or longer than 2^31 + 1, and otherwise shortens it by one |
| `SchedulerSleep.StaysAsleep` | src/kernel/process/scheduler.c:323-337 | a sleeper left alone stays BLOCKED, its wait shortened by the ticks that passed |
| `SchedulerSleep.SleepIsExact` | src/kernel/process/scheduler.c:323-337 | over any run that does not touch it a sleeper, whatever its wake tick, stays BLOCKED until its waking tick and is awake after it |
| `SchedulerSleep.SleepFromTheCall` | src/kernel/process/scheduler.c:516-532 | from the call: BLOCKED until the due tick and awake after it, for any run between the two stores and any run after them |
| `SchedulerSleep.DueTickIs` | src/kernel/process/scheduler.c:323-337 | the due tick is n, or the tick after the second store when that came later, if and only if the unsigned comparison takes what is left for what it is |
| `SchedulerSleep.LongSleepEndsAtOnce` | src/kernel/process/scheduler.c:328-332 | a request above 2^31 + 1 ticks is ended by the first tick |
| `SchedulerContext.SwitchIsObserved` | src/kernel/process/scheduler.c:285-321 | what a switch saves and resumes follows the context discipline |
| `SchedulerContext.SpawnIsObserved` | src/kernel/process/scheduler.c:346-380 | a spawn follows the context discipline if and only if it does not take the current slot, which only a TERMINATED current slot allows; then it keeps the invariant and changes no other context |
| `SchedulerContext.StepIsObserved` | src/kernel/process/scheduler.c:467-608 | every legal step follows the discipline and ends in the contexts the kernel state shows |
| `SchedulerContext.RunIsDisciplined` | src/kernel/process/scheduler.c:285-380 | the log of every legal run follows the discipline |
| `SchedulerContext.SavedComesFromTheLog` | src/kernel/process/scheduler.c:305-306 | a suspended slot's frame is the one of the last log entry about it |
| `SchedulerContext.ActivationResumesLastSave` | src/kernel/process/scheduler.c:285-295 | an activation's frame is the one last saved or spawned for that slot, with nothing about the slot in between |
| `SchedulerContext.SpawnIntoOwnSlotLosesFrame` | src/kernel/process/scheduler.c:305-306 | after a spawn into the spawner's own slot, for any first pid, its next trap overwrites the new task's first frame and leaves the slot READY |
| `SchedulerContext.OwnSlotIsReachable` | src/kernel/process/scheduler.c:768-789 | spawn, yield, exit from initialization on reach a state in which a public spawn takes the current slot |
| `SchedulerKill.ClearCommutes` | src/kernel/process/scheduler.c:106-117 | the stores after the state may come before or after any step that does not respawn the dead slot |
| `SchedulerKill.StepKeepsEntry` | src/kernel/process/scheduler.c:106-117 | a live slot that has an entry point keeps it until it is marked or cleared |
| `SchedulerKill.SplitKillIff` | src/kernel/process/scheduler.c:791-801 | a kill split by any run equals a kill in one step, up to fields no step reads, if and only if the slot is free when the late stores come |
| `SchedulerKill.LateStoresHitNewTask` | src/kernel/process/scheduler.c:106-117 | a run from initialization in which the late stores wipe a new task's entry point |
| `Scheduler.Scheduler.constructor` | src/kernel/process/scheduler.c:33-38 | the scheduler starts without a current slot and not ready |
| `Scheduler.Scheduler.FindFreeSlotFrom` | src/kernel/process/scheduler.c:233-246 | the loop finds the least free slot |
| `Scheduler.Scheduler.FindReadyNonIdle` | src/kernel/process/scheduler.c:248-264 | the loop finds the nearest READY non-idle slot, or none exists; -1 without a current slot |
| `Scheduler.Scheduler.PickNextSlot` | src/kernel/process/scheduler.c:266-283 | computes the specified choice, also without a current slot |
| `Scheduler.Scheduler.ActivateSlot` | src/kernel/process/scheduler.c:285-295 | the whole new state and the returned frame are as specified |
| `Scheduler.Scheduler.SwitchFromFrame` | src/kernel/process/scheduler.c:297-321 | the whole new state and the returned frame are as specified; nothing happens without a current slot |
| `Scheduler.Scheduler.WakeSleepers` | src/kernel/process/scheduler.c:323-337 | every slot is woken exactly as specified |
| `Scheduler.Scheduler.OnTimerTick` | src/kernel/process/scheduler.c:467-498 | the tick handler refines its specification in every state, also before initialization |
| `Scheduler.Scheduler.OnYieldTrap` | src/kernel/process/scheduler.c:500-506 | the yield handler refines its specification |
| `Scheduler.Scheduler.MarkSlotTerminated` | src/kernel/process/scheduler.c:106-117 | marks one slot and no other |
| `Scheduler.Scheduler.ExitCurrentFromInterrupt` | src/kernel/process/scheduler.c:590-608 | refines its specification |
| `Scheduler.Scheduler.TerminateProcess` | src/kernel/process/scheduler.c:791-801 | kills exactly a used slot above idle and says so |
| `Scheduler.Scheduler.StoreWakeTick` | src/kernel/process/scheduler.c:528-529 | first store of a sleep |
| `Scheduler.Scheduler.StoreBlocked` | src/kernel/process/scheduler.c:530-531 | second store of a sleep |
| `Scheduler.Scheduler.PrepareStack` | src/kernel/process/scheduler.c:199-231 | the slot's stack holds the zeroes, first frame and trampoline; no word outside that stack changes |
| `Scheduler.FirstRegisters` | src/kernel/process/scheduler.c:199-231 | each register of the first frame by its place: data segments, cleared registers, bootstrap, code segment, flags, then the trampoline |
| `Scheduler.Scheduler.SpawnThread` | src/kernel/process/scheduler.c:346-380 | refines its specification, stores the requested entry point, argument and directory, and writes no other slot's stack |
| `Scheduler.Scheduler.GuardPagesInit` | src/kernel/process/scheduler.c:149-170 | on success exactly the guard pages are unmapped; with low memory mapped it succeeds if and only if every slot has its region, and refuses a zero base |
| `Scheduler.Scheduler.RuntimeInit` | src/kernel/process/scheduler.c:419-448 | idempotent; otherwise reaches the boot state with guards armed and the idle stack prepared |
| `Scheduler.StartKernel` | src/kernel/core/kernel.c:169-172 | after paging set-up the scheduler starts without failing with the boot slot RUNNING, idle READY and the rest unused, its invariant holds, every guard page faults and every stack page is mapped to itself |
| `Scheduler.Scheduler.EnableWithQuantum` | src/kernel/process/scheduler.c:450-459 | without a tick in between it is the run of its three stores; a zero quantum becomes the default |
| `Scheduler.Scheduler.DisableNow` | src/kernel/process/scheduler.c:461-465 | without a tick in between it is the run of its two stores |
| `Scheduler.Scheduler.DescribeGuardFault` | src/kernel/process/scheduler.c:715-734 | in any state it names a slot whose guard base is the address's page, or there is none; once set up, a slot exactly for addresses in that slot's guard page |
| `Paging.EntryBits` | src/kernel/memory/paging.c:13-17 | an aligned base with flags below it gives back base and flags |
| `Paging.KernelTranslation` | src/kernel/memory/paging.c:505-570 | the set-up kernel maps 16 MiB and at most two framebuffer regions to themselves, for no user, and nothing else |
| `Paging.SetUpIsOk` | src/kernel/memory/paging.c:505-570 | set-up establishes the standing invariant, with every directory entry on a table of its own |
| `Paging.KernelIsIdentity` | src/kernel/memory/paging.c:688-700 | under the invariant the kernel directory maps an address to itself or not at all, never for user mode |
| `AddressSpaces.WindowIsRounded` | src/kernel/memory/paging.c:742-754 | the window is the byte count rounded up to pages and lies in one 4 MiB region |
| `AddressSpaces.AcceptsIff` | src/kernel/memory/paging.c:742-757 | the tests accept exactly non-null pointers, aligned bases, 1 byte to 4 MiB, and a page-rounded window inside one unused 4 MiB region above 16 MiB |
| `AddressSpaces.BuildSucceedsAfterSetUp` | src/kernel/memory/paging.c:735-772 | on a freshly set-up kernel every such window away from the framebuffer is built |
| `AddressSpaces.UserEntryMaps` | src/kernel/memory/paging.c:766-768 | a user table entry maps its page to the matching image page modulo 2^32, or is absent |
| `AddressSpaces.AppTranslation` | src/kernel/memory/paging.c:735-772 | the window maps to the image for user mode, nothing else in its region, the kernel's mapping elsewhere |
| `AddressSpaces.OnlyWindowIsUser` | src/kernel/memory/paging.c:765-770 | user mode reaches exactly the window |
| `AddressSpaces.UnmapKeepsKernel` | src/kernel/memory/paging.c:712-722 | unmapping keeps the invariant and every frame but one kernel table |
| `AddressSpaces.UnmapTranslation` | src/kernel/memory/paging.c:712-722 | unmapping removes exactly one page from the kernel directory |
| `AddressSpaces.UnmapKeepsApp` | src/kernel/memory/paging.c:712-722 | application directories stay well-formed across an unmap |
| `AddressSpaces.BuildMakesApp` | src/kernel/memory/paging.c:735-772 | a build makes a well-formed application directory and changes no other frame; a refused one changes nothing |
| `AddressSpaces.ApplyOk` | src/kernel/memory/paging.c:712-772 | any unmap or build keeps all directories well-formed and apart |
| `AddressSpaces.KernelNeverRemaps` | src/kernel/memory/paging.c:712-772 | no step maps a page again in the kernel directory |
| `AddressSpaces.LowPageUnmappedEverywhere` | src/kernel/memory/paging.c:760-763 | a low page unmapped in the kernel is unmapped in every application directory |
| `AddressSpaces.GuardStaysUnmapped` | src/kernel/memory/paging.c:712-772 | it stays so over any sequence of unmaps and builds |
| `PageTables.PageTables.SetupLow` | src/kernel/memory/paging.c:509-524 | the in-place loops leave the identity tables of low memory |
| `PageTables.PageTables.MapFramebuffer` | src/kernel/memory/paging.c:552-568 | the loop maps the first two non-zero regions of the framebuffer |
| `PageTables.PageTables.Setup` | src/kernel/memory/paging.c:505-570 | reaches the described set-up state for all boot values, also when the framebuffer end wraps |
| `PageTables.SetUpMaps` | src/kernel/memory/paging.c:521-570 | from the boot loader's values: the low 16 MiB and the framebuffer's first two regions after region 0 map to themselves, uncached for the framebuffer, and nothing else is mapped |
| `PageTables.FramebufferIsMapped` | src/kernel/memory/paging.c:521-570 | every byte of the framebuffer in those regions maps to itself |
| `PageTables.PageTables.PagePresent` | src/kernel/memory/paging.c:702-710 | true exactly when the kernel directory translates the address |
| `PageTables.PageTables.Unmap` | src/kernel/memory/paging.c:712-722 | clears the page's entry, or reports that there is no table |
| `PageTables.PageTables.BuildAppDirectory` | src/kernel/memory/paging.c:735-772 | true if and only if a caller-checkable condition holds; then the directory is well-formed, else memory is unchanged |
| `GuardPages.GuardsTranslation` | src/kernel/process/scheduler.c:149-170 | arming guards removes exactly the guard pages |
| `GuardPages.StackStaysPresent` | src/kernel/process/scheduler.c:164-166 | every stack page stays present while guards are armed |
| `GuardPages.GuardedStacks` | src/kernel/process/scheduler.c:119-170 | after arming, each region faults in its guard page and maps to itself in its stack |
| `GuardPages.SetUpMapsLow` | src/kernel/memory/paging.c:512-519 | after set-up all of low memory is mapped |
| `GuardPages.AllStacksGuarded` | src/kernel/process/scheduler.c:149-170 | arming the guards on a freshly set-up kernel leaves every region with a faulting guard page and an identity-mapped stack |
| `GuardPages.GuardsFaultForever` | src/kernel/process/scheduler.c:149-170 | armed guards fault in every directory over any further unmaps and builds |
| `Rect.Intersect` | external_apps/runtime/ui/ui_rect.h:60-69 | intersection of point sets, for all sizes |
| `Rect.Union` | external_apps/runtime/ui/ui_rect.h:71-90 | the least rectangle around both |
| `Rect.ContainsRectIsInclusion` | external_apps/runtime/ui/ui_rect.h:42-50 | decides inclusion of point sets |
| `Rect.PiecesCover` | external_apps/runtime/ui/ui_rect.h:92-129 | the pieces cover exactly rect minus cutout |
| `Rect.PiecesDisjoint` | external_apps/runtime/ui/ui_rect.h:92-129 | at most four pieces, none empty, no two overlapping |
| `Rect.Subtract` | external_apps/runtime/ui/ui_rect.h:92-129 | writes the pieces in order up to the output's capacity and nothing else |
| `Rect.TruncationLosesPoints` | external_apps/runtime/ui/ui_rect.h:115-126 | a cut-off subtraction is exact if and only if no piece was dropped |
| `Rect.AddAbsorbs` | external_apps/runtime/ui/ui_rect.h:138-162 | an add keeps every entry and the new rectangle inside one entry each, within eight entries |
| `Rect.AddIs` | external_apps/runtime/ui/ui_rect.h:138-162 | the first entry nested with the new rectangle stays or is replaced; without one the rectangle is appended, or merged into the eighth entry |
| `Rect.DirtyList.Add` | external_apps/runtime/ui/ui_rect.h:138-162 | the in-place list refines the specification |
| `Rect.DirtyListCovers` | external_apps/runtime/ui/ui_rect.h:138-162 | after any adds: at most eight non-empty entries, each rectangle added inside a single one, none outside a box around them all |
| `Batch.RectBatch.Flush` | external_apps/runtime/ui/ui_batch.h:18-48 | pending rectangles reach the kernel in order, batched or one by one |
| `Batch.RectBatch.Enqueue` | external_apps/runtime/ui/ui_batch.h:50-68 | seen plus pending grows by exactly the new rectangle, across api changes and full batches |
| `Batch.RectBatch.Barrier` | external_apps/runtime/ui/ui_draw.h:232-240 | everything pending is drawn before the request that follows |
| `Batch.RectBatch.FillRect` | external_apps/runtime/ui/ui_draw.h:242-253 | an empty rectangle or a null api draws nothing; any other is drawn after everything before it |
| `Batch.RectBatch.OfferBarrier` | external_apps/runtime/ui/ui_draw.h:1064-1067 | everything pending is drawn before a request that the kernel may refuse |
| `Blit.AreaIsIntersection` | external_apps/runtime/ui/ui_bitmap.h:244-268 | the painted area is destination and clip |
| `Blit.ScaleBounds` | external_apps/runtime/ui/ui_bitmap.h:271-276 | scaled coordinates stay in the source, and their product in a signed int |
| `Blit.OffsetInBuffer` | external_apps/runtime/ui/ui_bitmap.h:237-242 | every byte read lies in the buffer, below 2^32 |
| `Blit.AcceptedIff` | external_apps/runtime/ui/ui_bitmap.h:225-260 | the tests accept exactly sizes up to 16384, positions up to 32768 and a buffer that ends below 4 GiB |
| `Blit.SampleIsNearest` | external_apps/runtime/ui/ui_bitmap.h:271-283 | the sampled pixel is the source pixel the scaled coordinates lie in, its bytes blue, green, red |
| `Blit.NearestIsUnique` | external_apps/runtime/ui/ui_bitmap.h:271-276 | there is one such source pixel |
| `Blit.RunEnd` | external_apps/runtime/ui/ui_bitmap.h:285-300 | the run is all of one colour and ends where the colour changes |
| `Blit.RowIsExact` | external_apps/runtime/ui/ui_bitmap.h:273-310 | the runs of a row paint each of its pixels once and are maximal |
| `Blit.BlitIsExact` | external_apps/runtime/ui/ui_bitmap.h:213-314 | every pixel of destination and clip is painted exactly once, with the colour of the source pixel (sx, sy) with sx * dw <= (px - dx) * sw < (sx + 1) * dw and likewise for sy, and no other pixel is painted |
| `Blit.BlitScaled` | external_apps/runtime/ui/ui_bitmap.h:213-314 | the nested loops queue exactly those runs, nothing when the sizes are refused |
| `Glyphs.CellIsExact` | external_apps/runtime/ui/ui_draw.h:272-332 | a partly visible character is painted pixel for pixel as the whole character, inside the clip and nowhere else |
| `Glyphs.TextFallbackIsExact` | external_apps/runtime/ui/ui_draw.h:365-377 | the per-character fallback gives every pixel in the clip the text's colour and paints no other pixel |
| `Glyphs.NextRun` | external_apps/runtime/ui/ui_draw.h:304-322 | the two inner loops find the next maximal run of set bits inside the clip |
| `Glyphs.PaintCell` | external_apps/runtime/ui/ui_draw.h:272-332 | the loops queue a background rectangle and exactly the runs of the visible rows |
| `Glyphs.PaintText` | external_apps/runtime/ui/ui_draw.h:364-377 | the loop draws each character whole, in part or not at all, in order |
| `Drawing.DrawClippedText` | external_apps/runtime/ui/ui_draw.h:340-378 | everything pending first, then the clipped-text request, or the per-character fallback when it is refused |
| `Drawing.DrawSurface` | external_apps/runtime/ui/ui_draw.h:1064-1076 | everything pending first, then the surface request, or exactly the runs of the scaled blit when it is refused |
| `Drawing.DrawAll` | external_apps/runtime/ui/ui_draw.h:232-267 | any program of fills, clears, texts, clipped texts, blits and presents leaves the log of drawing without a batcher, completely after a present |
| `WindowOrder.OrderIsUnique` | external_apps/runtime/ui/ui_wm.h:1453-1475 | there is one painter's order |
| `WindowOrder.HitIsLastPainted` | external_apps/runtime/ui/ui_wm.h:865-883 | the topmost window at a point is the one painted last over it |
| `WindowOrder.RenumberingKeepsOrder` | external_apps/runtime/ui/ui_wm.h:557-593 | normalizing keeps the order of any two windows and makes z-orders distinct |
| `WindowOrder.RenumberingKeepsPainting` | external_apps/runtime/ui/ui_wm.h:557-593 | normalizing does not change the painter's order |
| `WindowManager.WindowManager.Lowest` | external_apps/runtime/ui/ui_wm.h:574-584 | the inner scan finds the lowest window left |
| `WindowManager.WindowManager.SelectAll` | external_apps/runtime/ui/ui_wm.h:1453-1475 | selection yields exactly the shown windows, bottom first, within one round per slot |
| `WindowManager.WindowManager.DrawOrder` | external_apps/runtime/ui/ui_wm.h:1453-1475 | the draw loop paints the shown windows in painter's order |
| `WindowManager.WindowManager.TopWindowAt` | external_apps/runtime/ui/ui_wm.h:865-883 | the id is that of the shown window of greatest z-order at the point, which is the one the draw loop paints last over it |
| `WindowManager.WindowManager.Normalize` | external_apps/runtime/ui/ui_wm.h:557-593 | the in-place loop numbers the live windows in painter's order |
| `WindowManager.WindowManager.BringToFront` | external_apps/runtime/ui/ui_wm.h:595-613 | the window is above all others, whose order is unchanged; an unknown id changes nothing |
| `WindowManager.WindowManager.CreateWindow` | external_apps/runtime/ui/ui_wm.h:491-539 | refused only when full; otherwise a new id, on top, in a free slot |
| `WindowManager.WindowManager.CloseWindow` | external_apps/runtime/ui/ui_wm.h:1284-1342 | the id is gone, other windows are untouched; closing the active window activates the topmost shown one |
| `WindowManager.WindowManager.ActivateTop` | external_apps/runtime/ui/ui_wm.h:885-907 | the active window is the topmost shown one |
| `WindowManager.WindowManager.MinimizeWindow` | external_apps/runtime/ui/ui_wm.h:1344-1360 | hides exactly that window, exactly when it can be minimized, and activates the topmost shown one if it was active |
| `WindowManager.WindowManager.UnminimizeWindow` | external_apps/runtime/ui/ui_wm.h:1362-1377 | shows and raises it |
| `WindowManager.WindowManager.RestoreWindow` | external_apps/runtime/ui/ui_wm.h:1379-1397 | gives back the bounds from before maximizing and raises it |
| `WindowManager.WindowManager.MaximizeWindow` | external_apps/runtime/ui/ui_wm.h:1399-1418 | remembers the bounds, fills the desktop and raises it |
| `WindowManager.MaximizeThenRestore` | external_apps/runtime/ui/ui_wm.h:1379-1418 | maximizing fills the desktop and restoring gives back the bounds from before |
| `WindowManager.WindowManager.ToggleMaximize` | external_apps/runtime/ui/ui_wm.h:1420-1437 | one or the other |
| `WindowManager.WindowManager.PerformThenClick` | external_apps/runtime/ui/ui_wm.h:865-883 | after any sequence of operations ids and z-orders are distinct and a click hits what is painted last |
| `Scrollbar.Add` | external_apps/runtime/ui/ui_wm.h:774-791 | a created scrollbar has a non-empty range, a positive page and a value inside, so the thumb's quotient is defined |
| `Scrollbar.ThumbLiesInTrack` | external_apps/runtime/ui/ui_draw.h:542-582 | the thumb lies between the two 16-pixel buttons for all values |
| `Scrollbar.ThumbShare` | external_apps/runtime/ui/ui_draw.h:550-567 | the thumb's height is the page's share of the track, at least 12 pixels and at most the track |
| `Scrollbar.ThumbStandsAtValue` | external_apps/runtime/ui/ui_draw.h:569-577 | the thumb stands at the value's share of the way down, rounded down |
| `Scrollbar.DragIsProportional` | external_apps/runtime/ui/ui_wm.h:175-190 | a drag gives the value at the thumb top's share of the way down, rounded down |
| `Scrollbar.ThumbMovesWithValue` | external_apps/runtime/ui/ui_draw.h:569-577 | a larger value never moves the thumb up |
| `Scrollbar.DragStaysInRange` | external_apps/runtime/ui/ui_wm.h:162-190 | dragging yields a value in the range |
| `Scrollbar.DragReachesEnds` | external_apps/runtime/ui/ui_wm.h:182-189 | dragging past an end yields the extreme value |
| `Scrollbar.GrabWithoutMoving` | external_apps/runtime/ui/ui_wm.h:162-190 | the value stays within ceil(R / U) below, and is kept if and only if R divides (v - min) * U |
| `Scrollbar.GrabDrifts` | external_apps/runtime/ui/ui_wm.h:189-190 | a scrollbar as created by ui_wm_add_scrollbar whose value drops when grabbed |
| `EditorText.UsedLength` | external_apps/apps/edit/edit.c:235-241 | length without trailing blanks |
| `EditorText.ExportFits` | external_apps/apps/edit/edit.c:340-363 | an export is shorter than the file buffer |
| `EditorText.ImportKeepsRows` | external_apps/apps/edit/edit.c:312-330 | rows above the import position are final |
| `EditorText.ImportRows` | external_apps/apps/edit/edit.c:307-330 | importing exported rows reproduces them when none before the last is full |
| `EditorText.ImportBreaks` | external_apps/apps/edit/edit.c:323-328 | a full row before the last makes the result differ |
| `EditorText.RoundTrip` | external_apps/apps/edit/edit.c:307-363 | import after export is the identity if and only if no row before the last non-blank one is full |
| `EditorText.ExportIsLines` | external_apps/apps/edit/edit.c:353-361 | an export is the rows without trailing blanks, up to the last non-blank one, with one newline between rows |
| `EditorText.ImportFullRow` | external_apps/apps/edit/edit.c:323-328 | 78 characters fill a row and move on to the next |
| `EditorText.ImportOfLines` | external_apps/apps/edit/edit.c:307-338 | a file of up to 24 short lines is shown line by line, the cursor behind its last character |
| `EditorText.ImportOfLongFile` | external_apps/apps/edit/edit.c:332-337 | a file with 24 newlines or more leaves the cursor in the last cell |
| `EditorText.ImportPassesOver` | external_apps/apps/edit/edit.c:314-322 | bytes other than newlines and printable characters make no difference |
| `EditorText.ImportIsPrintable` | external_apps/apps/edit/edit.c:312-330 | any file imports to a printable document |
| `EditorText.ImportBuffer` | external_apps/apps/edit/edit.c:307-338 | the loop fills lines and cursor as specified |
| `EditorText.ExportBuffer` | external_apps/apps/edit/edit.c:340-363 | the loops write the export as far as the buffer reaches |
| `CyclicSearch.FirstFromIsLeast` | external_apps/apps/edit/edit.c:790-814 | the forward search finds the least match from a position on |
| `CyclicSearch.LastUpToIsGreatest` | external_apps/apps/edit/edit.c:816-844 | the backward search finds the greatest match up to a position |
| `CyclicSearch.NextIsSuccessor` | external_apps/apps/edit/edit.c:1240-1254 | Next is the cyclic successor on the matches |
| `CyclicSearch.PreviousIsPredecessor` | external_apps/apps/edit/edit.c:1255-1269 | Previous is the cyclic predecessor |
| `CyclicSearch.NextPreviousInverse` | external_apps/apps/edit/edit.c:1240-1269 | they undo each other |
| `CyclicSearch.NextVisitsAll` | external_apps/apps/edit/edit.c:1240-1254 | m presses from match k lead to match (k + m) mod n |
| `EditorSearch.ContainsAt` | external_apps/apps/edit/edit.c:778-788 | decides a case-insensitive match |
| `EditorSearch.MatchIs` | external_apps/apps/edit/edit.c:771-788 | a match is an occurrence up to the case of letters |
| `EditorSearch.MatchIgnoresCase` | external_apps/apps/edit/edit.c:771-788 | changing the case of letters in text or query changes no match |
| `EditorSearch.FindForward` | external_apps/apps/edit/edit.c:790-814 | the row loops find the first match from the start cell on |
| `EditorSearch.FindBackward` | external_apps/apps/edit/edit.c:816-844 | the row loops find the last match up to the start cell |
| `EditorSearch.SearchNext` | external_apps/apps/edit/edit.c:1240-1254 | the Next command |
| `EditorSearch.SearchPrevious` | external_apps/apps/edit/edit.c:1255-1269 | the Previous command |
| `EditorSearch.SearchIsReversible` | external_apps/apps/edit/edit.c:1240-1269 | in every document Next and Previous return to the match they left |
| `EditorSearch.NextReachesEachMatchOnce` | external_apps/apps/edit/edit.c:1240-1254 | from any match every match is reached by exactly one number of presses below their count |
| `EditorReplace.NothingToReplace` | external_apps/apps/edit/edit.c:909-942 | a text without the pattern is its own replacement |
| `EditorReplace.ReplacesFirstMatch` | external_apps/apps/edit/edit.c:924-933 | with its first match at i a text becomes what is before it, the new text, and the rest replaced |
| `EditorReplace.RowIsPadded` | external_apps/apps/edit/edit.c:723-730 | a replaced row is the first 78 characters of the replaced text, then blanks |
| `EditorReplace.RowUnchanged` | external_apps/apps/edit/edit.c:936-939 | so is a row |
| `EditorReplace.ReplacedLength` | external_apps/apps/edit/edit.c:924-930 | every replacement changes the length by the difference of the two texts |
| `EditorReplace.CountIsComplete` | external_apps/apps/edit/edit.c:924-930 | the count covers every match when the result leaves room in the line, and never more |
| `EditorReplace.NoneCounted` | external_apps/apps/edit/edit.c:936-941 | nothing is counted if and only if no row has the text, and then every row is its own replacement |
| `EditorReplace.MergeRow` | external_apps/apps/edit/edit.c:919-936 | the merge loop yields the first 78 characters of the leftmost replacement and the number of matches replaced before the line was full |
| `EditorReplace.ReplaceAll` | external_apps/apps/edit/edit.c:909-942 | every row becomes its padded replacement; the result is the number of replacements over all rows, zero exactly when no row has the text, and then nothing changes |
| `EditorModel.TypeCharOk` | external_apps/apps/edit/edit.c:1390-1409 | typing keeps document and cursor well-formed and always marks the document dirty |
| `EditorModel.BackspaceOk` | external_apps/apps/edit/edit.c:1364-1389 | so does erasing, dirty exactly when there was a character position to erase |
| `EditorModel.PasteOk` | external_apps/apps/edit/edit.c:751-769 | so does pasting, dirty exactly when something was copied |
| `EditorModel.SubstituteOk` | external_apps/apps/edit/edit.c:1290-1314 | so does replacing, dirty exactly when both dialogs were answered and some row has the text |
| `EditorModel.SearchMenuOk` | external_apps/apps/edit/edit.c:1221-1314 | searching and going to a line keep the cursor in the grid |
| `EditorModel.OpenOk` | external_apps/apps/edit/edit.c:1089-1113 | an opened document is the saved text |
| `EditorModel.StepOk` | external_apps/apps/edit/edit.c:992-1420 | every key and answer keeps the invariant |
| `EditorModel.RunOk` | external_apps/apps/edit/edit.c:992-1420 | so does every sequence of keys |
| `EditorModel.StartedRunOk` | external_apps/apps/edit/edit.c:944-1420 | from the start of the program |
| `EditorModel.ExitLosesNothing` | external_apps/apps/edit/edit.c:642-700 | a session that ends leaves the saved text, unless unsaved changes were discarded on request |
| `EditorModel.UndoRedo` | external_apps/apps/edit/edit.c:1195-1220 | undo then redo, or the reverse, gives the document back |
| `EditorModel.TextKeyUndoable` | external_apps/apps/edit/edit.c:1348-1410 | every text key keeps the old document for undo or leaves it alone |
| `EditorModel.MenuUndoable` | external_apps/apps/edit/edit.c:1078-1314 | every menu command but Undo keeps the old document for undo or leaves it alone |
| `EditorModel.OneCommandTakesBack` | external_apps/apps/edit/edit.c:992-1420 | whatever one key or menu command did to the document, one Undo takes it back, or one Redo if the command was Undo |
| `EditorModel.SaveThenOpen` | external_apps/apps/edit/edit.c:1089-1129 | saving and opening the written bytes restores the document if and only if no row before the last is full |
| `EditorKeys.TypedCharacter` | external_apps/apps/edit/edit.c:1390-1405 | a printable key puts its character in the cell under the cursor and in no other, and the cursor moves to the next cell, staying in the last |
| `EditorKeys.ErasedCharacter` | external_apps/apps/edit/edit.c:1364-1389 | a backspace blanks exactly the cell before the cursor, or the last used one of the row above, and leaves the cursor on it |
| `EditorKeys.PastedLine` | external_apps/apps/edit/edit.c:751-769 | a paste overwrites with exactly the clip's characters that fit and ends behind them |
| `EditorKeys.CopiedLine` | external_apps/apps/edit/edit.c:732-749 | a copy takes the line without trailing blanks, and a blank line not at all |
| `EditorKeys.CursorKeys` | external_apps/apps/edit/edit.c:1348-1363 | arrows and Enter move the cursor inside the grid; other keys do nothing |
| `EditorKeys.UndoAndRedo` | external_apps/apps/edit/edit.c:1195-1220 | undo shows the undo copy, redo the redo copy, each only when there is one |
| `EditorKeys.Substituted` | external_apps/apps/edit/edit.c:1290-1314 | replace puts the second answer for the first in every row, keeps the old document and remembers the query |
| `EditorKeys.FoundFirst` | external_apps/apps/edit/edit.c:1221-1239 | find puts the cursor on the first occurrence, else changes nothing |
| `EditorKeys.FoundNext` | external_apps/apps/edit/edit.c:1240-1254 | next goes to the first occurrence behind the cursor, else to the first of all |
| `EditorKeys.FoundPrevious` | external_apps/apps/edit/edit.c:1255-1269 | previous goes to the last occurrence before the cursor, else to the last of all |
| `EditorKeys.NumberIsDecimal` | external_apps/apps/edit/edit.c:846-860 | a number is read digit by digit; anything else is none |
| `EditorKeys.WentToLine` | external_apps/apps/edit/edit.c:1270-1289 | go to moves to the named row from 1 to 24 and keeps the column |
| `EditorKeys.FileCommands` | external_apps/apps/edit/edit.c:1080-1146 | new leaves a blank document, open the imported lines, save and save as the export under the right name |
| `EditorKeys.ExitIff` | external_apps/apps/edit/edit.c:642-700 | the session ends exactly for an unchanged document, a discard, or a save that had a name and succeeded |
| `EditorKeys.MenuKeys` | external_apps/apps/edit/edit.c:1039-1076 | alt opens and closes the menu, arrows go round four menus of five items |
| `EditorKeys.MenuEnter` | external_apps/apps/edit/edit.c:1077-1330 | each menu item runs its command |
| `EditorApp.EditorApp.WriteOver` | external_apps/apps/edit/edit.c:751-769 | the paste loop overwrites as far as the line reaches |
| `EditorApp.EditorApp.UndoOnce` | external_apps/apps/edit/edit.c:1195-1206 | refines its specification |
| `EditorApp.EditorApp.RedoOnce` | external_apps/apps/edit/edit.c:1208-1219 | refines its specification |
| `EditorApp.EditorApp.EraseChar` | external_apps/apps/edit/edit.c:1364-1389 | refines its specification |
| `EditorApp.EditorApp.InsertChar` | external_apps/apps/edit/edit.c:1390-1405 | refines its specification |
| `EditorApp.EditorApp.ReplaceEverywhere` | external_apps/apps/edit/edit.c:1290-1314 | refines its specification |
| `EditorApp.EditorApp.WriteDocument` | external_apps/apps/edit/edit.c:1114-1129 | writes the whole export and marks the document saved on success |
| `EditorApp.EditorApp.ExitRequest` | external_apps/apps/edit/edit.c:642-700 | refines its specification |
| `EditorApp.EditorApp.HandleKey` | external_apps/apps/edit/edit.c:992-1420 | one turn of the main loop refines the state machine and keeps the invariant |
| `ExplorerHistory.Visit` | external_apps/apps/win95_demo/win95_explorer.c:345-388 | the new place is current; exactly the forward entries go, and the oldest when twelve would be exceeded; visiting the current place changes nothing |
| `ExplorerHistory.StepRefines` | external_apps/apps/win95_demo/win95_explorer.c:345-396 | one visit, back or forward is the browser's |
| `ExplorerHistory.NavigationRefines` | external_apps/apps/win95_demo/win95_explorer.c:345-396 | so is any navigation |
| `ExplorerHistory.BackThenForward` | external_apps/apps/win95_demo/win95_explorer.c:1204-1246 | k steps back and k forward, or the reverse, restore the history |
| `ExplorerHistory.Explorer.Matches` | external_apps/apps/win95_demo/win95_explorer.c:269-291 | decides whether an entry is the current place |
| `ExplorerHistory.Explorer.Commit` | external_apps/apps/win95_demo/win95_explorer.c:345-388 | the in-place shift and capture refine the visit, also from an empty or out-of-range history |
| `ExplorerHistory.Explorer.RestoreEntry` | external_apps/apps/win95_demo/win95_explorer.c:309-333 | the window is at the entry's place; an index out of range changes nothing |
| `ExplorerHistory.Explorer.GoBack` | external_apps/apps/win95_demo/win95_explorer.c:1204-1222 | refines Back; the entry shown is the current place |
| `ExplorerHistory.Explorer.GoForward` | external_apps/apps/win95_demo/win95_explorer.c:1228-1246 | refines Forward |
| `ExplorerHistory.Explorer.OpenSelected` | external_apps/apps/win95_demo/win95_explorer.c:1112-1161 | a drive or folder is visited, anything else changes nothing |
| `ExplorerHistory.Explorer.GoUp` | external_apps/apps/win95_demo/win95_explorer.c:1167-1198 | visits the parent, then the list of drives |

## Left out

- Inline assembly, interrupt stubs, descriptor tables, port I/O and the panic screens: only the loaded directory and the kernel stack top are kept as values.
- Process names, origins and the process snapshot of the scheduler: display data.
- Order among the stores of `sched_mark_terminated` after the state: they are one step, since no step reads one of them of a dead slot.
- Scheduler.Scheduler.FindReadyNonIdle: a current slot past the table is not considered; no entry point calls it with one.
- PageTables.PageTables.BuildAppDirectory: an accepted call is given two distinct page-aligned frames that are not the kernel's; the source stores through its pointers unchecked.
- Invalidation of the translation cache: translation reads memory.
- FAT16, disk, drives, RTC, shell and application loader: not part of this model.
- Window titles, icons, per-window active flags and controls; popups that reach beyond a window's bounds.
- `ui_wm_dispatch_mouse` and `ui_wm_dispatch_key`: event routing over easy cases; the hit and the scrollbar arithmetic they call are modelled.
- 32-bit overflow of rectangle, z-order and scrollbar arithmetic: coordinates are taken as mathematical integers.
- `ui_gfx_rect_batch_reset`, which throws pending rectangles away on purpose.
- Partial redraw against full redraw: the client-only branch of win95_render.c skips a strip, so the claim does not hold.
- The kernel's own text and surface code, its handling of newlines and of the screen's edges; transparent text. Widgets, themes, fonts, wallpaper decoding: visual, or of the same kind as the blit.
- Editor status texts, blinking, drawing, the file dialog's own key loop and path editing.
- The two PS/2 scancode decoders: table look-ups that would add easy members.
- Explorer lists, file operations and the contents of folders: a failed directory change leaves the location as it is.
