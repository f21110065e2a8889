/** What every reachable scheduler state satisfies, in particular between a self-mark and its trap. */
module SchedulerSafety {
  import opened Machine
  import opened KernelLayout
  import opened SchedulerModel

  /** The stack fields of a slot hold the addresses of its own region. */
  predicate OwnRegion(p: Pcb, i: int) {
    && p.guardBase == (if i == BOOT then 0 else GuardBase(i))
    && p.stackBase == (if i == BOOT then 0 else StackBase(i))
    && p.stackTop == (if i == BOOT then 0 else StackTop(i))
  }

  predicate SlotOk(k: Kernel, i: int)
    requires InRange(k) && 0 <= i < SLOTS
  {
    var p := k.slots[i];
    && p.pid == i
    && OwnRegion(p, i)
    && p.pageDir != 0
    && (i != k.current ==> p.status != Running)
    && (i != k.current && !Free(p) ==> p.frame != 0)
    && (i == k.current ==> p.status != Unused)
    && (i == IDLE ==> p.status == (if k.current == IDLE then Running else Ready))
  }

  ghost predicate Inv(k: Kernel) {
    && InRange(k)
    && k.runtimeReady
    && k.kernelDir != 0
    && 0 <= k.ticks < U32
    && 1 <= k.slice && 1 <= k.quantum
    && (forall i :: 0 <= i < SLOTS ==> SlotOk(k, i))
    // the running task has its own kernel stack, and its own address space until it is terminated
    && k.esp0 == k.slots[k.current].stackTop
    && (k.slots[k.current].status != Terminated ==> k.cr3 == k.slots[k.current].pageDir)
  }

  // ----- the round-robin scan

  /** Dist is the cyclic distance ((p - current - 1) mod 8) + 1. */
  lemma DistIsCyclic(current: int, p: int)
    requires 0 <= current < SLOTS && 0 <= p < SLOTS
    ensures Dist(current, p) == (p - current - 1) % SLOTS + 1
    ensures 1 <= Dist(current, p) <= SLOTS
  {
  }

  lemma DistOfStep(current: int, step: int)
    requires 0 <= current < SLOTS && 1 <= step < SLOTS
    ensures Dist(current, (current + step) % SLOTS) == step
    ensures forall j :: 0 <= j < SLOTS && Dist(current, j) == step ==> j == (current + step) % SLOTS
  {
  }

  /** The scan finds the eligible slot nearest after `current`, and fails only when there is none. */
  lemma {:induction false} NextReadyIsNearest(slots: seq<Pcb>, current: int, step: int)
    requires |slots| == SLOTS && 0 <= current < SLOTS && 1 <= step <= SLOTS
    ensures var r := NextReady(slots, current, step);
            if r < 0 then
              r == -1 && forall j :: Eligible(slots, j) && j != current ==> Dist(current, j) < step
            else
              && Eligible(slots, r) && r != current && step <= Dist(current, r)
              && forall j :: Eligible(slots, j) && j != current && step <= Dist(current, j)
                             ==> Dist(current, r) <= Dist(current, j)
    decreases SLOTS - step
  {
    if step < SLOTS {
      DistOfStep(current, step);
      NextReadyIsNearest(slots, current, step + 1);
    } else {
      assert forall j :: 0 <= j < SLOTS && j != current ==> Dist(current, j) < SLOTS;
    }
  }

  // ----- a switch

  /** The three possible effects of sched_switch_from_frame on a state that satisfies the invariant. */
  lemma SwitchEffect(k: Kernel, frame: int)
    requires Inv(k) && frame != 0
    ensures var o := SwitchFrom(k, frame);
            var cur, next := k.current, o.k.current;
            && InRange(o.k)
            && (o.frame == 0 ==>
                  && o.k == k.(slots := k.slots[cur := k.slots[cur].(frame := frame)])
                  && k.slots[cur].status == Running
                  && forall j :: Eligible(k.slots, j) ==> j == cur)
            && (o.frame != 0 ==>
                  && next != cur && k.slots[next].status == Ready
                  && o.frame == k.slots[next].frame
                  && o.k.slots[cur].frame == frame
                  && o.k.slots[cur].status ==
                       (if k.slots[cur].status == Running then Ready else k.slots[cur].status)
                  && o.k.slots[cur].wakeTick == k.slots[cur].wakeTick
                  && o.k.slots[next].status == Running
                  && (forall j :: 0 <= j < SLOTS && j != cur && j != next ==> o.k.slots[j] == k.slots[j])
                  && o.k.slice == o.k.quantum)
            && o.k.quantum == k.quantum && o.k.preempt == k.preempt && o.k.ticks == k.ticks
  {
    var cur := k.current;
    assert SlotOk(k, cur) && SlotOk(k, IDLE);
    var saved := k.(slots := k.slots[cur := k.slots[cur].(frame := frame)]);
    assert forall j :: Eligible(saved.slots, j) <==> Eligible(k.slots, j);
    NextReadyIsNearest(saved.slots, cur, 1);
    var next := PickNext(saved);
    assert 0 <= next < SLOTS;
    assert SlotOk(k, next);
  }

  lemma SwitchInv(k: Kernel, frame: int)
    requires Inv(k) && frame != 0
    ensures Inv(SwitchFrom(k, frame).k)
  {
    SwitchEffect(k, frame);
    var o := SwitchFrom(k, frame);
    assert SlotOk(k, k.current) && SlotOk(k, o.k.current);
    forall i | 0 <= i < SLOTS
      ensures SlotOk(o.k, i)
    {
      assert SlotOk(k, i);
    }
  }

  /** Where a switch goes: to the nearest eligible slot, and to idle only when there is none. */
  lemma SwitchTarget(k: Kernel, frame: int)
    requires Inv(k) && frame != 0 && SwitchFrom(k, frame).frame != 0
    ensures var next := SwitchFrom(k, frame).k.current;
            && (next == IDLE ==> forall j :: Eligible(k.slots, j) ==> j == k.current)
            && (next != IDLE ==> Eligible(k.slots, next))
            && forall j :: Eligible(k.slots, j) && j != k.current ==>
                 next != IDLE && Dist(k.current, next) <= Dist(k.current, j)
  {
    var cur := k.current;
    assert SlotOk(k, cur) && SlotOk(k, IDLE);
    var saved := k.(slots := k.slots[cur := k.slots[cur].(frame := frame)]);
    assert forall j :: Eligible(saved.slots, j) <==> Eligible(k.slots, j);
    NextReadyIsNearest(saved.slots, cur, 1);
  }

  /** An exit goes to the nearest eligible slot, and to idle only when there is none. */
  lemma ExitTarget(k: Kernel, frame: int) returns (next: int)
    requires Inv(k) && frame != 0 && k.current != IDLE
    ensures next == OnExitInterrupt(k, frame).k.current && 0 <= next < SLOTS && next != k.current
    ensures k.slots[next].status == Ready
    ensures next == IDLE ==> forall j :: Eligible(k.slots, j) ==> j == k.current
    ensures forall j :: Eligible(k.slots, j) && j != k.current ==>
              next != IDLE && Dist(k.current, next) <= Dist(k.current, j)
  {
    var cur := k.current;
    assert SlotOk(k, cur) && SlotOk(k, IDLE);
    var saved := k.(slots := k.slots[cur := k.slots[cur].(frame := frame)]);
    var dead := MarkTerminated(saved, cur);
    assert forall j :: Eligible(dead.slots, j) <==> Eligible(k.slots, j) && j != cur;
    NextReadyIsNearest(dead.slots, cur, 1);
    next := PickNext(dead);
  }

  lemma ExitEffect(k: Kernel, frame: int)
    requires Inv(k) && frame != 0 && k.current != IDLE
    ensures var o := OnExitInterrupt(k, frame);
            var cur, next := k.current, o.k.current;
            && Inv(o.k)
            && o.frame != 0 && next != cur && k.slots[next].status == Ready
            && o.frame == k.slots[next].frame
            && o.k.slots[cur].status == Terminated
            && o.k.slots[next].status == Running
            && (forall j :: 0 <= j < SLOTS && j != cur && j != next ==> o.k.slots[j] == k.slots[j])
            && o.k.slice == o.k.quantum
            && o.k.quantum == k.quantum && o.k.preempt == k.preempt && o.k.ticks == k.ticks
  {
    var cur := k.current;
    var next := ExitTarget(k, frame);
    assert SlotOk(k, cur) && SlotOk(k, next);
    var o := OnExitInterrupt(k, frame);
    forall i | 0 <= i < SLOTS
      ensures SlotOk(o.k, i)
    {
      assert SlotOk(k, i);
    }
  }

  // ----- a tick

  lemma ChargeEffect(k: Kernel)
    requires Inv(k)
    ensures var t := TickCharged(k);
            && Inv(t) && t.current == k.current && t.slice == k.slice
            && t.quantum == k.quantum && t.preempt == k.preempt && t.ticks == Wrap(k.ticks + 1)
            && forall i :: 0 <= i < SLOTS ==>
                 && t.slots[i].frame == k.slots[i].frame
                 && t.slots[i].pageDir == k.slots[i].pageDir
                 && if k.slots[i].status == Blocked && Due(t.ticks, k.slots[i].wakeTick)
                    then t.slots[i].status == Ready
                    else t.slots[i].status == k.slots[i].status && t.slots[i].wakeTick == k.slots[i].wakeTick
  {
    var t := TickCharged(k);
    forall i | 0 <= i < SLOTS
      ensures SlotOk(t, i)
    {
      assert SlotOk(k, i);
    }
  }

  /** A tick charges and wakes, then either runs a switch or only counts the slice down. */
  lemma TickEffect(k: Kernel, frame: int)
    requires Inv(k) && frame != 0
    ensures var t := TickCharged(k);
            var o := OnTick(k, frame);
            && Inv(o.k) && Inv(t) && Inv(t.(slice := t.quantum))
            && (|| o == SwitchFrom(t.(slice := t.quantum), frame)
                || (o == SwitchFrom(t, frame) && k.current == IDLE)
                || (o == Outcome(t, 0) && !t.preempt)
                || (o == Outcome(t.(slice := t.slice - 1), 0) && t.slice > 1))
            && (t.preempt && !(o == Outcome(t.(slice := t.slice - 1), 0) && t.slice > 1)
                ==> o == SwitchFrom(t.(slice := t.quantum), frame))
  {
    ChargeEffect(k);
    var t := TickCharged(k);
    var u := t.(slice := t.quantum);
    assert Inv(u) by {
      forall i | 0 <= i < SLOTS ensures SlotOk(u, i) { assert SlotOk(t, i); }
    }
    SwitchInv(t, frame);
    SwitchInv(u, frame);
    if t.slice > 1 {
      var v := t.(slice := t.slice - 1);
      forall i | 0 <= i < SLOTS ensures SlotOk(v, i) { assert SlotOk(t, i); }
    }
  }

  // ----- every step

  lemma FreeFromIsLeast(slots: seq<Pcb>, from: int)
    requires |slots| == SLOTS && 0 <= from
    ensures var r := FreeFrom(slots, from);
            if r < 0 then r == -1 && forall j :: from <= j < SLOTS ==> !Free(slots[j])
            else from <= r < SLOTS && Free(slots[r]) && forall j :: from <= j < r ==> !Free(slots[j])
    decreases SLOTS - from
  {
  }

  lemma SpawnKeepsInv(k: Kernel, r: Request, first: int)
    requires Inv(k) && SpawnSlot(k, r, first) != k.current
    ensures Inv(Spawn(k, r, first))
  {
    FreeFromIsLeast(k.slots, if first < IDLE + 1 then IDLE + 1 else first);
    var s := Spawn(k, r, first);
    forall i | 0 <= i < SLOTS ensures SlotOk(s, i) { assert SlotOk(k, i); }
  }

  lemma QuietStepInv(k: Kernel, e: Event)
    requires Inv(k) && Legal(k, e) && !e.Tick? && !e.Yield? && !e.ExitInterrupt?
    ensures Inv(Step(k, e).k)
  {
    if e.Start? {
      FreeFromIsLeast(k.slots, if e.firstPid < IDLE + 1 then IDLE + 1 else e.firstPid);
    }
    var k' := Step(k, e).k;
    assert SlotOk(k, k.current);
    forall i | 0 <= i < SLOTS
      ensures SlotOk(k', i)
    {
      assert SlotOk(k, i);
    }
  }

  lemma StepInv(k: Kernel, e: Event)
    requires Inv(k) && Legal(k, e)
    ensures Inv(Step(k, e).k)
  {
    match e
    case Tick(f) => TickEffect(k, f);
    case Yield(f) => SwitchInv(k, f);
    case ExitInterrupt(f) => ExitEffect(k, f);
    case _ => QuietStepInv(k, e);
  }

  lemma BootInv(ticks: int, preempt: bool, kernelDir: int, idleEntry: int)
    requires 0 <= ticks < U32 && kernelDir != 0
    ensures Inv(Boot(ticks, preempt, kernelDir, idleEntry)) && |Boot(ticks, preempt, kernelDir, idleEntry).slots| == 8
  {
    var k := Boot(ticks, preempt, kernelDir, idleEntry);
    assert k.slots[BOOT].status == Running;
    forall i | 0 <= i < SLOTS ensures SlotOk(k, i) { }
  }

  /**
   scheduler_runtime_init runs with interrupts on.  Once its slots are set up, a tick between any two of its
   stores resumes the boot task and changes only the counter, the slice and the boot slot's tick count and frame.
   */
  lemma TickDuringInit(k: Kernel, frame: int)
    requires |k.slots| == SLOTS && k.current in {-1, BOOT} && 0 <= k.slice && 0 <= k.quantum
    requires k.slots[BOOT].status == Running && k.slots[IDLE].status == Ready
    requires forall i :: IDLE < i < SLOTS ==> k.slots[i].status == Unused
    ensures var o := OnTick(k, frame);
            && o.frame == 0 && o.k.ticks == Wrap(k.ticks + 1)
            && (forall i :: IDLE <= i < SLOTS ==> o.k.slots[i] == k.slots[i])
            && (exists n, f :: o.k.slots[BOOT] == k.slots[BOOT].(runtimeTicks := n, frame := f))
            && o.k == k.(ticks := o.k.ticks, slots := o.k.slots, slice := o.k.slice)
  {
    var o := OnTick(k, frame);
    if Accepting(k, frame) {
      var t := TickCharged(k);
      var saved := t.slots[BOOT := t.slots[BOOT].(frame := frame)];
      NextReadyIsNearest(t.slots, BOOT, 1);
      NextReadyIsNearest(saved, BOOT, 1);
    }
    var b := o.k.slots[BOOT];
    assert b == k.slots[BOOT].(runtimeTicks := b.runtimeTicks, frame := b.frame);
  }

  /** Every state of every legal run satisfies the invariant. */
  lemma {:induction false} RunInv(k: Kernel, es: seq<Event>)
    requires Inv(k) && LegalRun(k, es)
    ensures Inv(Run(k, es))
    decreases |es|
  {
    if es != [] {
      StepInv(k, es[0]);
      RunInv(Step(k, es[0]).k, es[1..]);
    }
  }

  lemma {:induction false} RunAppend(k: Kernel, a: seq<Event>, b: seq<Event>)
    requires Inv(k) && LegalRun(k, a)
    ensures Inv(Run(k, a)) && Run(k, a + b) == Run(Run(k, a), b)
    ensures LegalRun(k, a + b) <==> LegalRun(Run(k, a), b)
    decreases |a|
  {
    if a == [] {
      assert a + b == b;
    } else {
      StepInv(k, a[0]);
      assert (a + b)[1..] == a[1..] + b;
      RunAppend(Step(k, a[0]).k, a[1..], b);
    }
  }

  lemma BootedRunInv(ticks: int, preempt: bool, kernelDir: int, idleEntry: int, es: seq<Event>)
    requires 0 <= ticks < U32 && kernelDir != 0
    requires LegalRun(Boot(ticks, preempt, kernelDir, idleEntry), es)
    ensures Inv(Run(Boot(ticks, preempt, kernelDir, idleEntry), es))
  {
    BootInv(ticks, preempt, kernelDir, idleEntry);
    RunInv(Boot(ticks, preempt, kernelDir, idleEntry), es);
  }

  /** A switch to idle leaves no slot READY except possibly the one it left. */
  lemma SwitchToIdle(k: Kernel, frame: int)
    requires Inv(k) && frame != 0 && k.current != IDLE && SwitchFrom(k, frame).k.current == IDLE
    ensures forall j :: Eligible(SwitchFrom(k, frame).k.slots, j) ==> j == k.current
  {
    SwitchEffect(k, frame);
    SwitchTarget(k, frame);
  }

  lemma TickToIdle(k: Kernel, frame: int)
    requires Inv(k) && frame != 0 && k.current != IDLE && OnTick(k, frame).k.current == IDLE
    ensures forall j :: Eligible(OnTick(k, frame).k.slots, j) ==> j == k.current
  {
    TickEffect(k, frame);
    var t := TickCharged(k);
    SwitchToIdle(t.(slice := t.quantum), frame);
  }

  lemma ExitToIdle(k: Kernel, frame: int)
    requires Inv(k) && frame != 0 && k.current != IDLE && OnExitInterrupt(k, frame).k.current == IDLE
    ensures forall j :: Eligible(OnExitInterrupt(k, frame).k.slots, j) ==> j == k.current
  {
    ExitEffect(k, frame);
    var next := ExitTarget(k, frame);
    var o := OnExitInterrupt(k, frame);
    forall j | Eligible(o.k.slots, j)
      ensures j == k.current
    {
      assert j != next && (j == k.current || Eligible(k.slots, j));
    }
  }

  /** Over a step, control passes to idle only when every other slot is not READY afterwards. */
  lemma IdleIsLastResort(k: Kernel, e: Event)
    requires Inv(k) && Legal(k, e)
    requires k.current != IDLE && Step(k, e).k.current == IDLE
    ensures forall j :: 0 <= j < SLOTS && j != IDLE && Step(k, e).k.slots[j].status == Ready ==> j == k.current
  {
    forall j | 0 <= j < SLOTS && j != IDLE && Step(k, e).k.slots[j].status == Ready
      ensures j == k.current
    {
      assert Eligible(Step(k, e).k.slots, j);
      EligibleAfterIdle(k, e);
    }
  }

  lemma EligibleAfterIdle(k: Kernel, e: Event)
    requires Inv(k) && Legal(k, e)
    requires k.current != IDLE && Step(k, e).k.current == IDLE
    ensures forall j :: Eligible(Step(k, e).k.slots, j) ==> j == k.current
  {
    match e
    case Tick(f) => TickToIdle(k, f);
    case Yield(f) => SwitchToIdle(k, f);
    case ExitInterrupt(f) => ExitToIdle(k, f);
    case _ =>
  }

  // ----- the slice against the quantum

  predicate SliceBounded(k: Kernel) { k.slice <= k.quantum }

  /** The guard of a store that keeps the slice within the quantum. */
  predicate BoundedStore(k: Kernel, e: Event) {
    (e.SetQuantum? ==> k.slice <= e.q) && (e.SetSlice? ==> e.q <= k.quantum)
  }

  /** A step keeps the slice within the quantum exactly when it is no store outside the guard. */
  lemma StepKeepsSlice(k: Kernel, e: Event)
    requires Inv(k) && Legal(k, e)
    ensures SliceBounded(k) ==> (SliceBounded(Step(k, e).k) <==> BoundedStore(k, e))
    ensures Step(k, e).frame != 0 ==> SliceBounded(Step(k, e).k)
  {
    match e
    case Tick(f) =>
      TickEffect(k, f);
      ChargeEffect(k);
      var t := TickCharged(k);
      SwitchEffect(t, f);
      SwitchEffect(t.(slice := t.quantum), f);
    case Yield(f) => SwitchEffect(k, f);
    case ExitInterrupt(f) => ExitEffect(k, f);
    case _ =>
  }

  predicate SliceAlwaysBounded(k: Kernel, es: seq<Event>)
    requires |k.slots| == SLOTS
    decreases |es|
  {
    SliceBounded(k) && (es == [] || SliceAlwaysBounded(Step(k, es[0]).k, es[1..]))
  }

  predicate BoundedStores(k: Kernel, es: seq<Event>)
    requires |k.slots| == SLOTS
    decreases |es|
  {
    es == [] || (BoundedStore(k, es[0]) && BoundedStores(Step(k, es[0]).k, es[1..]))
  }

  /** Over a run, 1 <= slice <= quantum in every state if and only if every store meets its guard. */
  lemma {:induction false} SliceBoundedIff(k: Kernel, es: seq<Event>)
    requires Inv(k) && LegalRun(k, es) && SliceBounded(k)
    ensures SliceAlwaysBounded(k, es) <==> BoundedStores(k, es)
    decreases |es|
  {
    if es != [] {
      StepInv(k, es[0]);
      StepKeepsSlice(k, es[0]);
      var k1 := Step(k, es[0]).k;
      if SliceBounded(k1) {
        SliceBoundedIff(k1, es[1..]);
      } else {
        assert !SliceAlwaysBounded(k1, es[1..]);
      }
    }
  }

  /** A tick that lands inside scheduler_enable_preemption can see a slice longer than the quantum. */
  lemma SliceExceedsQuantum(ticks: int, preempt: bool, kernelDir: int, idleEntry: int)
    requires 0 <= ticks < U32 && kernelDir != 0
    ensures var k, es := Boot(ticks, preempt, kernelDir, idleEntry), [SetQuantum(1)];
            && SliceBounded(k) && LegalRun(k, es)
            && Run(k, es).slice == DEFAULT_QUANTUM && Run(k, es).quantum == 1
  {
    BootInv(ticks, preempt, kernelDir, idleEntry);
    var k := Boot(ticks, preempt, kernelDir, idleEntry);
    assert k.slots[BOOT].status == Running;
    var k1 := Step(k, SetQuantum(1)).k;
    assert [SetQuantum(1)][1..] == [];
    assert Run(k1, []) == k1 && LegalRun(k1, []);
  }
}
