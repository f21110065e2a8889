/** The scheduler itself: global slots mutated in place, proved step by step against SchedulerModel. */
module Scheduler {
  import opened Machine
  import opened KernelLayout
  import opened SchedulerModel
  import opened SchedulerSafety
  import opened GuardPages
  import P = Paging
  import T = PageTables

  const ARENA_WORDS: int := (SLOTS - 1) * REGION_BYTES / 4
  const STACK_WORDS: int := STACK_BYTES / 4

  /** First arena word of a slot's stack. */
  function StackWord(idx: int): int { (StackBase(idx) - ARENA_BASE) / 4 }

  /** The first interrupt frame of a new task, as a function of the bootstrap's address. */
  function FrameImage(bootstrap: int): (f: seq<int>)
    ensures |f| == FRAME_WORDS
  {
    [0x10, 0x10, 0x10, 0x10,         // gs fs es ds
     0, 0, 0, 0, 0, 0, 0, 0,         // edi esi ebp esp ebx edx ecx eax
     0, 0,                           // vector, error code
     bootstrap, 0x08, 0x202]         // eip, cs, eflags with interrupts on
  }

  /** Word k of a prepared stack: zeroes, then the frame, then the trampoline as return address. */
  function FreshWord(k: int, bootstrap: int, trampoline: int): int {
    var frameAt := STACK_WORDS - 1 - FRAME_WORDS;
    if k == STACK_WORDS - 1 then trampoline
    else if frameAt <= k < STACK_WORDS - 1 then FrameImage(bootstrap)[k - frameAt]
    else 0
  }

  /**
   The registers a new task starts with, by their place in irq_frame_t: kernel data segments, cleared general
   registers, the bootstrap at eip with the kernel code segment and interrupts on, and the trampoline as the
   return address above them; everything below is zero.
   */
  lemma FirstRegisters(bootstrap: int, trampoline: int)
    ensures var f := STACK_WORDS - 18;
            && (forall k :: f <= k < f + 4 ==> FreshWord(k, bootstrap, trampoline) == 0x10)
            && (forall k :: f + 4 <= k < f + 14 ==> FreshWord(k, bootstrap, trampoline) == 0)
            && FreshWord(f + 14, bootstrap, trampoline) == bootstrap
            && FreshWord(f + 15, bootstrap, trampoline) == 0x08
            && FreshWord(f + 16, bootstrap, trampoline) == 0x200 + 0x2
            && FreshWord(f + 17, bootstrap, trampoline) == trampoline
            && forall k :: 0 <= k < f ==> FreshWord(k, bootstrap, trampoline) == 0
    ensures forall idx :: IDLE <= idx < SLOTS ==>
              ARENA_BASE + 4 * (StackWord(idx) + STACK_WORDS - 18) == FreshFrame(idx)
  {
  }

  class Scheduler {
    const slots: array<Pcb>
    const arena: array<int>
    const kernelDir: int
    const bootstrap: int
    const trampoline: int
    const idleEntry: int
    var current: int
    var runtimeReady: bool
    var preempt: bool
    var quantum: int
    var slice: int
    var ticks: int
    var cr3: int
    var esp0: int

    ghost predicate Valid()
      reads this
    {
      slots.Length == SLOTS && arena.Length == ARENA_WORDS
    }

    ghost function View(): Kernel
      reads this, slots
    {
      Kernel(slots[..], current, runtimeReady, preempt, quantum, slice, ticks, kernelDir, cr3, esp0)
    }

    /** Slot idx's stack holds the image of a task that has not run yet. */
    ghost predicate Prepared(idx: int)
      requires Valid() && IDLE <= idx < SLOTS
      reads this, arena
    {
      forall k :: 0 <= k < STACK_WORDS ==> arena[StackWord(idx) + k] == FreshWord(k, bootstrap, trampoline)
    }

    constructor (kernelDir: int, bootstrap: int, trampoline: int, idleEntry: int, ticks: int)
      ensures Valid() && fresh(slots) && fresh(arena)
      ensures !runtimeReady && current == -1 && this.ticks == ticks
      ensures this.kernelDir == kernelDir && this.idleEntry == idleEntry
    {
      slots := new Pcb[SLOTS](_ => ResetPcb(0, Unused, 0));
      arena := new int[ARENA_WORDS];
      this.kernelDir, this.bootstrap, this.trampoline := kernelDir, bootstrap, trampoline;
      this.idleEntry, this.ticks := idleEntry, ticks;
      current, runtimeReady, preempt, quantum, slice := -1, false, false, 0, 0;
      cr3, esp0 := kernelDir, 0;
    }

    // ----- searching the slots

    method FindFreeSlotFrom(firstPid: int) returns (idx: int)
      requires Valid()
      ensures idx == FindFree(slots[..], firstPid)
    {
      var first := if firstPid < IDLE + 1 then IDLE + 1 else firstPid;
      idx := first;
      while idx < SLOTS
        invariant first <= idx && (idx <= SLOTS || idx == first)
        invariant FreeFrom(slots[..], first) == FreeFrom(slots[..], idx)
      {
        if Free(slots[idx]) {
          return;
        }
        idx := idx + 1;
      }
      idx := -1;
    }

    /** The nearest READY slot after the current one, idle excepted. */
    method FindReadyNonIdle() returns (next: int)
      requires Valid() && current < SLOTS
      ensures next == FirstReady(View())
      ensures current < 0 ==> next == -1
      ensures current >= 0 && next < 0 ==> forall j :: Eligible(slots[..], j) ==> j == current
      ensures next >= 0 ==> Eligible(slots[..], next) && next != current &&
                            forall j :: Eligible(slots[..], j) && j != current ==>
                              Dist(current, next) <= Dist(current, j)
    {
      if current < 0 {
        return -1;
      }
      NextReadyIsNearest(slots[..], current, 1);
      assert forall j :: 0 <= j < SLOTS ==> 1 <= Dist(current, j);
      var step := 1;
      while step < SLOTS
        invariant 1 <= step <= SLOTS
        invariant NextReady(slots[..], current, 1) == NextReady(slots[..], current, step)
      {
        next := (current + step) % SLOTS;
        if next != IDLE && slots[next].status == Ready {
          return;
        }
        step := step + 1;
      }
      next := -1;
    }

    method PickNextSlot() returns (next: int)
      requires Valid() && current < SLOTS
      ensures next == PickNext(View()) && -1 <= next < SLOTS
    {
      next := FindReadyNonIdle();
      if next >= 0 {
        return;
      }
      if current >= 0 && slots[current].status == Running {
        return current;
      }
      if slots[IDLE].status == Ready || slots[IDLE].status == Running {
        return IDLE;
      }
      next := -1;
    }

    // ----- switching

    method ActivateSlot(next: int) returns (frame: int)
      requires Valid() && 0 <= next < SLOTS
      modifies this, slots
      ensures Valid() && Outcome(View(), frame) == Activate(old(View()), next)
    {
      slots[next] := slots[next].(status := Running, switchCount := Wrap(slots[next].switchCount + 1));
      current := next;
      slice := quantum;
      cr3 := if slots[next].pageDir == 0 then kernelDir else slots[next].pageDir;
      esp0 := slots[next].stackTop;
      frame := slots[next].frame;
    }

    method SwitchFromFrame(frame: int) returns (resume: int)
      requires Valid()
      modifies this, slots
      ensures Valid() && Outcome(View(), resume) == SwitchFrom(old(View()), frame)
    {
      if current < 0 || current >= SLOTS {
        return 0;
      }
      slots[current] := slots[current].(frame := frame);
      assert slots[..] == old(slots[..])[current := old(slots[..])[current].(frame := frame)];
      var next := PickNextSlot();
      if next < 0 || next == current {
        if slots[current].status == Ready {
          slots[current] := slots[current].(status := Running);
        }
        return 0;
      }
      if slots[current].status == Running {
        slots[current] := slots[current].(status := Ready);
      }
      resume := ActivateSlot(next);
    }

    method WakeSleepers(now: int)
      requires Valid()
      modifies slots
      ensures Valid() && slots[..] == WakeAll(old(slots[..]), now)
    {
      for idx := 0 to SLOTS
        invariant forall j :: 0 <= j < idx ==> slots[j] == Wake(old(slots[j]), now)
        invariant forall j :: idx <= j < SLOTS ==> slots[j] == old(slots[j])
      {
        if slots[idx].status == Blocked && Wrap(now - slots[idx].wakeTick) < HALF {
          slots[idx] := slots[idx].(wakeTick := 0, status := Ready);
        }
      }
    }

    /** Charge the tick to the current slot and wake the sleepers that are due. */
    method ChargeAndWake()
      requires Valid() && 0 <= current < SLOTS
      modifies slots
      ensures Valid()
      ensures var p := old(slots[..])[current];
              slots[..] == WakeAll(old(slots[..])[current := p.(runtimeTicks := Wrap(p.runtimeTicks + 1))], ticks)
    {
      ghost var p := slots[current];
      slots[current] := slots[current].(runtimeTicks := Wrap(slots[current].runtimeTicks + 1));
      assert slots[..] == old(slots[..])[current := p.(runtimeTicks := Wrap(p.runtimeTicks + 1))];
      WakeSleepers(ticks);
    }

    method OnTimerTick(frame: int) returns (resume: int)
      requires Valid()
      modifies this, slots
      ensures Valid() && Outcome(View(), resume) == OnTick(old(View()), frame)
    {
      ticks := Wrap(ticks + 1);
      if frame == 0 || !runtimeReady || current < 0 || current >= SLOTS {
        return 0;
      }
      ChargeAndWake();
      assert View() == TickCharged(old(View()));
      var forced := -1;
      if current == IDLE {
        forced := FindReadyNonIdle();
      }
      if !preempt || quantum == 0 {
        if forced >= 0 {
          resume := SwitchFromFrame(frame);
          return;
        }
        return 0;
      }
      if forced < 0 {
        if slice > 1 {
          slice := slice - 1;
          return 0;
        }
      }
      slice := quantum;
      resume := SwitchFromFrame(frame);
    }

    method OnYieldTrap(frame: int) returns (resume: int)
      requires Valid()
      modifies this, slots
      ensures Valid() && Outcome(View(), resume) == OnYield(old(View()), frame)
    {
      if frame == 0 || !runtimeReady || current < 0 || current >= SLOTS {
        return 0;
      }
      resume := SwitchFromFrame(frame);
    }

    // ----- ending and blocking tasks

    method MarkSlotTerminated(i: int)
      requires Valid() && 0 <= i < SLOTS
      modifies slots
      ensures Valid() && View() == MarkTerminated(old(View()), i)
    {
      slots[i] := slots[i].(status := Terminated);
      slots[i] := slots[i].(wakeTick := 0, entry := 0, arg := 0, userEsp := 0, pageDir := kernelDir);
    }

    method ExitCurrentFromInterrupt(frame: int) returns (resume: int)
      requires Valid()
      modifies this, slots
      ensures Valid() && Outcome(View(), resume) == OnExitInterrupt(old(View()), frame)
    {
      if frame == 0 || !runtimeReady || current < 0 || current >= SLOTS {
        return 0;
      }
      slots[current] := slots[current].(frame := frame);
      assert slots[..] == old(slots[..])[current := old(slots[..])[current].(frame := frame)];
      MarkSlotTerminated(current);
      var next := PickNextSlot();
      if next < 0 {
        return 0;
      }
      resume := ActivateSlot(next);
    }

    method TerminateProcess(pid: int) returns (stopped: bool)
      requires Valid()
      modifies slots
      ensures Valid() && View() == Kill(old(View()), pid) && stopped == Killable(old(View()), pid)
    {
      if !runtimeReady || pid <= IDLE || pid >= SLOTS || Free(slots[pid]) {
        return false;
      }
      MarkSlotTerminated(pid);
      stopped := true;
    }

    /** scheduler_sleep_ticks up to its yield trap, in the two stores a tick can separate. */
    method StoreWakeTick(n: int)
      requires Valid()
      modifies slots
      ensures Valid() && View() == ArmSleep(old(View()), n)
    {
      if runtimeReady && 0 <= current < SLOTS {
        slots[current] := slots[current].(wakeTick := Wrap(ticks + n));
      }
    }

    method StoreBlocked()
      requires Valid()
      modifies slots
      ensures Valid() && View() == BlockSelf(old(View()))
    {
      if runtimeReady && 0 <= current < SLOTS {
        slots[current] := slots[current].(status := Blocked);
      }
    }

    // ----- spawning

    /**
     Build the first frame of a new task on its own stack.  No word of another slot's stack, and no
     guard page, is written.
     */
    method PrepareStack(idx: int)
      requires Valid() && IDLE <= idx < SLOTS
      modifies arena
      ensures Prepared(idx)
      ensures forall w :: 0 <= w < ARENA_WORDS && !(StackWord(idx) <= w < StackWord(idx) + STACK_WORDS) ==>
                arena[w] == old(arena[w])
    {
      var lo := StackWord(idx);
      ZeroWords(lo);
      var top := lo + STACK_WORDS;
      arena[top - 1] := trampoline;
      var f := top - 1 - FRAME_WORDS;
      var image := FrameImage(bootstrap);
      for i := 0 to FRAME_WORDS
        invariant arena[top - 1] == trampoline
        invariant forall k :: 0 <= k < i ==> arena[f + k] == image[k]
        invariant forall w :: lo <= w < f ==> arena[w] == 0
        invariant forall w :: 0 <= w < ARENA_WORDS && !(lo <= w < top) ==> arena[w] == old(arena[w])
      {
        arena[f + i] := image[i];
      }
      forall k | 0 <= k < STACK_WORDS
        ensures arena[lo + k] == FreshWord(k, bootstrap, trampoline)
      {
        if f <= lo + k < top - 1 {
          assert arena[f + (lo + k - f)] == image[lo + k - f];
        }
      }
    }

    method ZeroWords(lo: int)
      requires Valid() && 0 <= lo && lo + STACK_WORDS <= ARENA_WORDS
      modifies arena
      ensures forall w :: lo <= w < lo + STACK_WORDS ==> arena[w] == 0
      ensures forall w :: 0 <= w < ARENA_WORDS && !(lo <= w < lo + STACK_WORDS) ==> arena[w] == old(arena[w])
    {
      for i := 0 to STACK_WORDS
        invariant forall w :: lo <= w < lo + i ==> arena[w] == 0
        invariant forall w :: 0 <= w < ARENA_WORDS && !(lo <= w < lo + i) ==> arena[w] == old(arena[w])
      {
        arena[lo + i] := 0;
      }
    }

    /** sched_spawn_kernel_thread_internal, with interrupts off. */
    method SpawnThread(r: Request, firstPid: int) returns (pid: int)
      requires Valid()
      modifies slots, arena
      ensures Valid() && View() == Spawn(old(View()), r, firstPid)
      ensures pid == SpawnSlot(old(View()), r, firstPid) && (pid == -1 || IDLE < pid < SLOTS)
      ensures pid >= 0 ==> Prepared(pid) && slots[pid].entry == r.entry && slots[pid].arg == r.arg
                           && slots[pid].pageDir == if r.pageDir == 0 then kernelDir else r.pageDir
      ensures forall w :: 0 <= w < ARENA_WORDS &&
                          !(pid >= 0 && StackWord(pid) <= w < StackWord(pid) + STACK_WORDS) ==>
                arena[w] == old(arena[w])
    {
      FreeFromIsLeast(slots[..], if firstPid < IDLE + 1 then IDLE + 1 else firstPid);
      pid := FindFreeSlotFrom(firstPid);
      if pid < 0 || !r.named || r.entry == 0 {
        return -1;
      }
      slots[pid] := ResetPcb(pid, Blocked, kernelDir);
      if r.pageDir != 0 {
        slots[pid] := slots[pid].(pageDir := r.pageDir);
      }
      PrepareStack(pid);
      slots[pid] := slots[pid].(entry := r.entry, arg := r.arg, frame := FreshFrame(pid));
      slots[pid] := slots[pid].(status := Ready);
    }

    // ----- start-up and configuration

    /** The stack fields of slot i are its own region's, or one of them is still zero. */
    ghost predicate RegionSetOrZero(i: int)
      requires Valid() && IDLE <= i < SLOTS
      reads this, slots
    {
      OwnRegion(slots[i], i) || slots[i].guardBase == 0 || slots[i].stackBase == 0
    }

    method GuardPagesInit(pages: T.PageTables) returns (ok: bool)
      requires Valid() && forall i :: IDLE <= i < SLOTS ==> RegionSetOrZero(i)
      requires P.KernelOk(pages.mem, pages.layout)
      modifies pages
      ensures P.KernelOk(pages.mem, pages.layout)
      ensures ok ==> pages.mem == UnmapGuards(old(pages.mem), pages.layout, SLOTS)
                     && forall i :: IDLE <= i < SLOTS ==> OwnRegion(slots[i], i)
      ensures LowMapped(old(pages.mem), pages.layout) ==>
                (ok <==> forall i :: IDLE <= i < SLOTS ==> OwnRegion(slots[i], i))
    {
      ghost var m0, l := pages.mem, pages.layout;
      for idx := IDLE to SLOTS
        invariant P.KernelOk(m0, l) && P.KernelOk(pages.mem, l)
        invariant pages.mem == UnmapGuards(m0, l, idx)
        invariant forall i :: IDLE <= i < SLOTS ==> RegionSetOrZero(i)
        invariant forall i :: IDLE <= i < idx ==> OwnRegion(slots[i], i)
      {
        var guard, stack := slots[idx].guardBase, slots[idx].stackBase;
        GuardAddresses(idx);
        assert RegionSetOrZero(idx);
        if guard == 0 || stack == 0 {
          assert !OwnRegion(slots[idx], idx);
          return false;
        }
        var armed := ArmGuard(pages, idx, m0);
        if !armed {
          return false;
        }
      }
      ok := true;
    }

    /** One round of the loop: unmap the guard page, then look at it and at the two stack pages above. */
    method ArmGuard(pages: T.PageTables, idx: int, ghost m0: P.Mem) returns (ok: bool)
      requires Valid() && IDLE <= idx < SLOTS && OwnRegion(slots[idx], idx)
      requires P.KernelOk(m0, pages.layout) && P.KernelOk(pages.mem, pages.layout)
      requires pages.mem == UnmapGuards(m0, pages.layout, idx)
      modifies pages
      ensures P.KernelOk(pages.mem, pages.layout)
      ensures pages.mem == UnmapGuards(m0, pages.layout, idx + 1)
      ensures LowMapped(m0, pages.layout) ==> ok
    {
      ghost var l := pages.layout;
      var guard, stack := slots[idx].guardBase, slots[idx].stackBase;
      GuardAddresses(idx);
      GuardStepSucceeds(m0, l, idx);
      if LowMapped(m0, l) {
        GuardTableIsPresent(m0, l, idx);
        StackStaysPresent(m0, l, idx, idx + 1, StackBase(idx));
        StackStaysPresent(m0, l, idx, idx + 1, StackBase(idx) + PAGE);
      }
      var unmapped := pages.Unmap(guard);
      if !unmapped {
        return false;
      }
      var there := pages.PagePresent(guard);
      if there {
        return false;
      }
      var first := pages.PagePresent(stack);
      var second := pages.PagePresent(stack + PAGE);
      ok := first && second;
    }

    method ResetSlot(idx: int, s: Status)
      requires Valid() && 0 <= idx < SLOTS
      modifies slots
      ensures Valid() && slots[..] == old(slots[..])[idx := ResetPcb(idx, s, kernelDir)]
    {
      slots[idx] := ResetPcb(idx, s, kernelDir);
    }

    /** scheduler_runtime_init. */
    method RuntimeInit(pages: T.PageTables) returns (ok: bool)
      requires Valid() && P.KernelOk(pages.mem, pages.layout)
      modifies this, slots, arena, pages
      ensures Valid()
      ensures old(runtimeReady) ==> ok && View() == old(View()) && pages.mem == old(pages.mem)
      ensures !old(runtimeReady) && ok ==>
                && View() == Boot(old(ticks), old(preempt), kernelDir, idleEntry)
                && pages.mem == UnmapGuards(old(pages.mem), pages.layout, SLOTS)
                && Prepared(IDLE)
      ensures LowMapped(old(pages.mem), pages.layout) ==> ok
    {
      if runtimeReady {
        return true;
      }
      ResetAll();
      ok := GuardPagesInit(pages);
      if !ok {
        return;
      }
      StartIdle();
      StartRuntime();
    }

    method StartRuntime()
      requires Valid() && slots[..] == Boot(ticks, preempt, kernelDir, idleEntry).slots
      modifies this
      ensures Valid() && View() == Boot(old(ticks), old(preempt), kernelDir, idleEntry)
    {
      current := BOOT;
      runtimeReady := true;
      quantum := DEFAULT_QUANTUM;
      slice := DEFAULT_QUANTUM;
      assert slots[BOOT] == slots[..][BOOT];
      cr3 := slots[current].pageDir;
      esp0 := slots[current].stackTop;
    }

    method ResetAll()
      requires Valid()
      modifies slots
      ensures Valid()
      ensures forall j :: 0 <= j < SLOTS ==>
                slots[j] == ResetPcb(j, if j == BOOT then Running else if j == IDLE then Ready else Unused, kernelDir)
    {
      for idx := 0 to SLOTS
        invariant Valid()
        invariant forall j :: 0 <= j < idx ==> slots[j] == ResetPcb(j, Unused, kernelDir)
      {
        ResetSlot(idx, Unused);
      }
      ResetSlot(BOOT, Running);
      ResetSlot(IDLE, Ready);
    }

    method StartIdle()
      requires Valid()
      requires forall j :: 0 <= j < SLOTS ==>
                 slots[j] == ResetPcb(j, if j == BOOT then Running else if j == IDLE then Ready else Unused, kernelDir)
      modifies slots, arena
      ensures Valid() && Prepared(IDLE) && slots[..] == Boot(ticks, preempt, kernelDir, idleEntry).slots
    {
      PrepareStack(IDLE);
      slots[IDLE] := slots[IDLE].(entry := idleEntry, arg := 0, frame := FreshFrame(IDLE));
    }

    method EnableWithQuantum(q: int)
      requires Valid()
      modifies this
      ensures Valid() && View() == Run(old(View()), EnableStores(q))
      ensures quantum == slice == (if q == 0 then 5 else q) && preempt
    {
      EnableRun(View(), q);
      quantum := if q == 0 then DEFAULT_QUANTUM else q;
      slice := quantum;
      preempt := true;
    }

    method DisableNow()
      requires Valid()
      modifies this
      ensures Valid() && View() == Run(old(View()), [SetPreempt(false)] + [SetSlice(old(quantum))])
    {
      ghost var k := View();
      preempt := false;
      slice := quantum;
      RunTail(k, SetPreempt(false), [SetSlice(k.quantum)]);
      RunTail(k.(preempt := false), SetSlice(k.quantum), []);
      assert [SetSlice(k.quantum)] + [] == [SetSlice(k.quantum)];
    }

    /**
     scheduler_describe_guard_fault: the first slot whose guard base is the page of the address.  Once the
     slots are set up that is the slot whose guard page the address lies in, and none for other addresses.
     */
    method DescribeGuardFault(addr: int) returns (pid: Option<int>)
      requires Valid() && P.Address(addr)
      ensures pid == None ==> forall i :: IDLE <= i < SLOTS ==> slots[i].guardBase != addr - addr % PAGE
      ensures pid.Some? ==> exists i :: IDLE <= i < SLOTS && slots[i].guardBase == addr - addr % PAGE
                                        && pid.value == slots[i].pid
      ensures Inv(View()) ==>
                && (pid == None <==> !InGuard(addr, SLOTS))
                && (pid.Some? ==> IDLE <= pid.value < SLOTS && GuardBase(pid.value) <= addr < StackBase(pid.value))
    {
      var page := addr - addr % PAGE;
      for idx := IDLE to SLOTS
        invariant forall i :: IDLE <= i < idx ==> slots[i].guardBase != page
        invariant Inv(View()) ==> !InGuard(addr, idx)
      {
        GuardAddresses(idx);
        assert Inv(View()) ==> SlotOk(View(), idx);
        if slots[idx].guardBase == page {
          if Inv(View()) {
            assert InGuard(addr, SLOTS);
          }
          return Some(slots[idx].pid);
        }
        InGuardStep(addr, idx + 1);
      }
      pid := None;
    }
  }

  /**
   The part of start-up this model covers: paging is set up, then the scheduler.  It cannot fail, the
   scheduler's invariant holds, every guard page faults and every stack page is mapped to itself.
   */
  method StartKernel(pages: T.PageTables, s: Scheduler, b: T.BootVideo) returns (ok: bool)
    requires P.Frames(pages.mem) && P.LayoutOk(pages.layout, pages.mem) && T.BootVideoArgs(b)
    requires s.Valid() && !s.runtimeReady && s.kernelDir == pages.layout.dir != 0 && 0 <= s.ticks < U32
    modifies s, s.slots, s.arena, pages
    ensures ok && s.Valid() && s.Prepared(IDLE)
    ensures s.View() == Boot(old(s.ticks), old(s.preempt), s.kernelDir, s.idleEntry) && Inv(s.View())
    ensures s.current == BOOT && s.quantum == s.slice == 5 && s.ticks == old(s.ticks) && s.cr3 == s.kernelDir
    ensures s.slots[BOOT].status == Running && s.slots[IDLE].status == Ready
    ensures forall i :: IDLE < i < SLOTS ==> s.slots[i].status == Unused
    ensures s.slots[IDLE].entry == s.idleEntry && s.slots[IDLE].frame == StackTop(IDLE) - 72
    ensures StacksGuarded(pages.mem, pages.layout)
  {
    pages.Setup(b);
    AllStacksGuarded(pages.mem, pages.layout, T.FbStart(b), T.FbEnd(b));
    ok := s.RuntimeInit(pages);
    BootInv(old(s.ticks), old(s.preempt), s.kernelDir, s.idleEntry);
    assert forall i :: 0 <= i < SLOTS ==> s.slots[i] == s.View().slots[i];
  }
}
