/**
 Killing a task is two groups of stores with interrupts on.  When is that the same as killing it at once?
 */
module SchedulerKill {
  import opened Machine
  import opened KernelLayout
  import opened SchedulerModel
  import opened SchedulerSafety

  // ----- nothing reads the cleared fields of a dead slot

  predicate SameStatus(a: seq<Pcb>, b: seq<Pcb>) {
    |a| == |b| == SLOTS && forall i :: 0 <= i < SLOTS ==> a[i].status == b[i].status
  }

  lemma {:induction false} SameScan(a: seq<Pcb>, b: seq<Pcb>, current: int, step: int)
    requires SameStatus(a, b) && 0 <= current < SLOTS && 1 <= step <= SLOTS
    ensures NextReady(a, current, step) == NextReady(b, current, step)
    decreases SLOTS - step
  {
    if step < SLOTS {
      SameScan(a, b, current, step + 1);
    }
  }

  lemma {:induction false} SameFree(a: seq<Pcb>, b: seq<Pcb>, from: int)
    requires SameStatus(a, b) && 0 <= from
    ensures FreeFrom(a, from) == FreeFrom(b, from)
    decreases SLOTS - from
  {
    if from < SLOTS {
      SameFree(a, b, from + 1);
    }
  }

  lemma StatusCommutes(b: Kernel, i: int, st: Status, pid: int)
    requires |b.slots| == SLOTS && 0 <= i < SLOTS && 0 <= pid < SLOTS
    ensures SetStatus(ClearSlot(b, pid), i, st) == ClearSlot(SetStatus(b, i, st), pid)
  {
    assert SetStatus(ClearSlot(b, pid), i, st).slots == ClearSlot(SetStatus(b, i, st), pid).slots;
  }

  lemma ActivateCommutes(b: Kernel, next: int, pid: int)
    requires |b.slots| == SLOTS && 0 <= next < SLOTS && 0 <= pid < SLOTS && next != pid
    ensures var o := Activate(b, next);
            Activate(ClearSlot(b, pid), next) == Outcome(ClearSlot(o.k, pid), o.frame)
  {
    assert Activate(ClearSlot(b, pid), next).k.slots == ClearSlot(Activate(b, next).k, pid).slots;
  }

  /** With the interrupted frame stored, the two states still differ by the clearing, and choose alike. */
  lemma SaveCommutes(b: Kernel, frame: int, pid: int)
    requires InRange(b) && 0 <= pid < SLOTS
    ensures var a := ClearSlot(b, pid);
            var savedA := a.(slots := a.slots[a.current := a.slots[a.current].(frame := frame)]);
            var savedB := b.(slots := b.slots[b.current := b.slots[b.current].(frame := frame)]);
            savedA == ClearSlot(savedB, pid)
  {
    var a := ClearSlot(b, pid);
    var savedB := b.(slots := b.slots[b.current := b.slots[b.current].(frame := frame)]);
    assert a.slots[a.current := a.slots[a.current].(frame := frame)] == ClearSlot(savedB, pid).slots;
  }

  lemma PickCommutes(b: Kernel, pid: int)
    requires InRange(b) && 0 <= pid < SLOTS
    ensures PickNext(ClearSlot(b, pid)) == PickNext(b)
  {
    SameScan(ClearSlot(b, pid).slots, b.slots, b.current, 1);
  }

  lemma SwitchCommutes(b: Kernel, frame: int, pid: int)
    requires Inv(b) && frame != 0 && 0 <= pid < SLOTS && b.slots[pid].status == Terminated
    ensures var o := SwitchFrom(b, frame);
            && SwitchFrom(ClearSlot(b, pid), frame) == Outcome(ClearSlot(o.k, pid), o.frame)
            && o.k.slots[pid].status == Terminated
  {
    SwitchEffect(b, frame);
    var cur := b.current;
    var saved := b.(slots := b.slots[cur := b.slots[cur].(frame := frame)]);
    SaveCommutes(b, frame, pid);
    PickCommutes(saved, pid);
    StatusCommutes(saved, cur, Running, pid);
    StatusCommutes(saved, cur, Ready, pid);
    var next := PickNext(saved);
    if 0 <= next < SLOTS && next != cur {
      assert next == SwitchFrom(b, frame).k.current;
      ActivateCommutes(saved, next, pid);
      ActivateCommutes(SetStatus(saved, cur, Ready), next, pid);
    }
  }

  lemma ChargeCommutes(b: Kernel, pid: int)
    requires Inv(b) && 0 <= pid < SLOTS && b.slots[pid].status == Terminated
    ensures TickCharged(ClearSlot(b, pid)) == ClearSlot(TickCharged(b), pid)
    ensures TickCharged(b).slots[pid].status == Terminated
  {
    assert TickCharged(ClearSlot(b, pid)).slots == ClearSlot(TickCharged(b), pid).slots;
  }

  lemma TickCommutes(b: Kernel, frame: int, pid: int)
    requires Inv(b) && frame != 0 && 0 <= pid < SLOTS && b.slots[pid].status == Terminated
    ensures var o := OnTick(b, frame);
            && OnTick(ClearSlot(b, pid), frame) == Outcome(ClearSlot(o.k, pid), o.frame)
            && o.k.slots[pid].status == Terminated
  {
    ChargeCommutes(b, pid);
    TickEffect(b, frame);
    var t := TickCharged(b);
    SameScan(ClearSlot(t, pid).slots, t.slots, t.current, 1);
    SwitchCommutes(t, frame, pid);
    SwitchCommutes(t.(slice := t.quantum), frame, pid);
  }

  lemma ExitCommutes(b: Kernel, frame: int, pid: int)
    requires Inv(b) && frame != 0 && b.current != IDLE
    requires 0 <= pid < SLOTS && pid != b.current && b.slots[pid].status == Terminated
    ensures var o := OnExitInterrupt(b, frame);
            && OnExitInterrupt(ClearSlot(b, pid), frame) == Outcome(ClearSlot(o.k, pid), o.frame)
            && o.k.slots[pid].status == Terminated
  {
    ExitEffect(b, frame);
    var cur := b.current;
    var saved := b.(slots := b.slots[cur := b.slots[cur].(frame := frame)]);
    SaveCommutes(b, frame, pid);
    StatusCommutes(saved, cur, Terminated, pid);
    var dead := MarkTerminated(saved, cur);
    assert ClearSlot(ClearSlot(SetStatus(saved, cur, Terminated), pid), cur) == ClearSlot(dead, pid) by {
      assert ClearSlot(ClearSlot(SetStatus(saved, cur, Terminated), pid), cur).slots == ClearSlot(dead, pid).slots;
    }
    PickCommutes(dead, pid);
    var next := PickNext(dead);
    if 0 <= next < SLOTS {
      assert next == OnExitInterrupt(b, frame).k.current;
      ActivateCommutes(dead, next, pid);
    }
  }

  /** Clearing a dead slot before a step or after it makes no difference, unless the step respawns the slot. */
  lemma ClearCommutes(b: Kernel, e: Event, pid: int)
    requires Inv(b) && Legal(b, e) && 0 <= pid < SLOTS && b.slots[pid].status == Terminated && !e.Start?
    ensures var k' := Step(b, e).k;
            Step(ClearSlot(b, pid), e).k == ClearSlot(k', pid) && k'.slots[pid].status == Terminated
  {
    match e
    case Tick(f) => TickCommutes(b, f, pid);
    case Yield(f) => SwitchCommutes(b, f, pid);
    case ExitInterrupt(f) => ExitCommutes(b, f, pid);
    case Start(_, _) =>
    case _ => assert Step(ClearSlot(b, pid), e).k.slots == ClearSlot(Step(b, e).k, pid).slots;
  }

  lemma SpawnCommutes(b: Kernel, r: Request, first: int, pid: int)
    requires Inv(b) && 0 <= pid < SLOTS && b.slots[pid].status == Terminated
    ensures SpawnSlot(ClearSlot(b, pid), r, first) == SpawnSlot(b, r, first)
    ensures var k', k1 := Spawn(b, r, first), Spawn(ClearSlot(b, pid), r, first);
            if SpawnSlot(b, r, first) == pid then k1 == k' && k'.slots[pid].entry != 0
            else k1 == ClearSlot(k', pid) && k'.slots[pid].status == Terminated
  {
    var from := if first < IDLE + 1 then IDLE + 1 else first;
    SameFree(ClearSlot(b, pid).slots, b.slots, from);
    FreeFromIsLeast(b.slots, from);
    var k', k1 := Spawn(b, r, first), Spawn(ClearSlot(b, pid), r, first);
    if SpawnSlot(b, r, first) == pid {
      assert k1.slots == k'.slots;
    } else {
      assert k1.slots == ClearSlot(k', pid).slots;
    }
  }

  // ----- a live task has an entry point until it is cleared

  predicate HasEntry(k: Kernel, i: int)
    requires |k.slots| == SLOTS && 0 <= i < SLOTS
  {
    Free(k.slots[i]) || k.slots[i].entry != 0
  }

  lemma SwitchKeepsEntry(k: Kernel, frame: int, i: int)
    requires Inv(k) && frame != 0 && 0 <= i < SLOTS && HasEntry(k, i)
    ensures HasEntry(SwitchFrom(k, frame).k, i)
  {
    SwitchEffect(k, frame);
  }

  lemma StepKeepsEntry(k: Kernel, e: Event, i: int)
    requires Inv(k) && Legal(k, e) && 0 <= i < SLOTS && HasEntry(k, i) && e != Clear(i)
    ensures HasEntry(Step(k, e).k, i)
  {
    match e
    case Tick(f) =>
      TickEffect(k, f);
      ChargeEffect(k);
      var t := TickCharged(k);
      SwitchKeepsEntry(t, f, i);
      SwitchKeepsEntry(t.(slice := t.quantum), f, i);
    case Yield(f) => SwitchKeepsEntry(k, f, i);
    case ExitInterrupt(f) => ExitEffect(k, f);
    case _ =>
  }

  // ----- the two runs side by side

  /** a: the slot was killed at once; b: its remaining stores are still to come. */
  ghost predicate Twins(a: Kernel, b: Kernel, pid: int)
    requires |b.slots| == SLOTS && 0 <= pid < SLOTS
  {
    || (b.slots[pid].status == Terminated && a == ClearSlot(b, pid))
    || (a == b && HasEntry(b, pid))
  }

  lemma StepKeepsTwins(a: Kernel, b: Kernel, e: Event, pid: int)
    requires Inv(b) && Legal(b, e) && 0 <= pid < SLOTS && Twins(a, b, pid) && e != Clear(pid)
    ensures |a.slots| == SLOTS && Twins(Step(a, e).k, Step(b, e).k, pid)
  {
    if a == b && HasEntry(b, pid) {
      StepKeepsEntry(b, e, pid);
    } else if e.Start? {
      SpawnCommutes(b, e.request, e.firstPid, pid);
    } else {
      ClearCommutes(b, e, pid);
    }
  }

  lemma {:induction false} RunKeepsTwins(a: Kernel, b: Kernel, es: seq<Event>, pid: int)
    requires Inv(b) && LegalRun(b, es) && 0 <= pid < SLOTS && Twins(a, b, pid) && Clear(pid) !in es
    ensures |a.slots| == SLOTS && Twins(Run(a, es), Run(b, es), pid)
    decreases |es|
  {
    if es != [] {
      StepInv(b, es[0]);
      StepKeepsTwins(a, b, es[0], pid);
      RunKeepsTwins(Step(a, es[0]).k, Step(b, es[0]).k, es[1..], pid);
    }
  }

  /** Equal, up to what no step reads: the cleared fields of a slot that is dead in both. */
  ghost predicate Same(a: Kernel, b: Kernel, pid: int)
    requires |a.slots| == SLOTS && |b.slots| == SLOTS && 0 <= pid < SLOTS
  {
    a == b || (Free(a.slots[pid]) && Free(b.slots[pid]) && ClearSlot(a, pid) == ClearSlot(b, pid))
  }

  /**
   A kill whose stores are separated by any run `es` ends like a kill in one step followed by `es` if and
   only if the slot is still free when the late stores come.
   */
  lemma SplitKillIff(k: Kernel, pid: int, es: seq<Event>)
    requires Inv(k) && Legal(k, Stop(pid)) && Killable(k, pid)
    requires InRange(MarkKilled(k, pid)) && LegalRun(MarkKilled(k, pid), es) && Clear(pid) !in es
    ensures var late := Run(MarkKilled(k, pid), es);
            Same(ClearSlot(late, pid), Run(Kill(k, pid), es), pid) <==> Free(late.slots[pid])
  {
    StepInv(k, Stop(pid));
    var b := MarkKilled(k, pid);
    assert Step(k, Stop(pid)).k == b;
    RunKeepsTwins(Kill(k, pid), b, es, pid);
    var late := Run(b, es);
    if !Free(late.slots[pid]) {
      assert ClearSlot(late, pid).slots[pid].entry == 0;
    }
  }

  // ----- a run in which the late stores hit a new task

  predicate Shows(k: Kernel, current: int, third: Status, fourth: Status) {
    && InRange(k) && k.current == current && k.preempt && k.slice == 1 && k.quantum == 1
    && k.slots[BOOT].status == (if current == BOOT then Running else Ready)
    && k.slots[2].status == Unused && k.slots[3].status == third && k.slots[4].status == fourth
    && forall i :: 5 <= i < SLOTS ==> k.slots[i].status == Unused
  }

  /** The boot task spawns two tasks into slots 3 and 4 and turns preemption on with a quantum of one tick. */
  lemma TwoTasksReady(ticks: int, preempt: bool, kernelDir: int, idleEntry: int, r: Request)
    returns (k: Kernel, es: seq<Event>)
    requires 0 <= ticks < U32 && kernelDir != 0 && r.named && r.entry != 0
    ensures Inv(Boot(ticks, preempt, kernelDir, idleEntry)) && LegalRun(Boot(ticks, preempt, kernelDir, idleEntry), es)
    ensures k == Run(Boot(ticks, preempt, kernelDir, idleEntry), es) && Inv(k) && Shows(k, BOOT, Ready, Ready)
  {
    BootInv(ticks, preempt, kernelDir, idleEntry);
    var k0 := Boot(ticks, preempt, kernelDir, idleEntry);
    assert k0.slots[BOOT].status == Running && forall i :: 2 <= i < SLOTS ==> k0.slots[i].status == Unused;
    var start := Start(r, EXTERNAL_PID_MIN);
    assert FreeFrom(k0.slots, 3) == 3;
    var k1 := Step(k0, start).k;
    StepInv(k0, start);
    assert FreeFrom(k1.slots, 3) == FreeFrom(k1.slots, 4) == 4;
    var k2 := Step(k1, start).k;
    StepInv(k1, start);
    var sets := EnableStores(1);
    k := k2.(quantum := 1, slice := 1, preempt := true);
    PreemptionIsOn(k2);
    RunCons(k1, start, sets);
    RunCons(k0, start, [start] + sets);
    es := [start] + ([start] + sets);
    RunInv(k0, es);
  }

  lemma PreemptionIsOn(k: Kernel)
    requires Inv(k) && k.slots[k.current].status == Running
    ensures LegalRun(k, EnableStores(1)) && Run(k, EnableStores(1)) == k.(quantum := 1, slice := 1, preempt := true)
  {
    EnableRun(k, 1);
    var k1 := k.(quantum := 1);
    var k2 := k1.(slice := 1);
    RunCons(k2, SetPreempt(true), []);
    RunCons(k1, SetSlice(1), [SetPreempt(true)] + []);
    RunCons(k, SetQuantum(1), [SetSlice(1)] + ([SetPreempt(true)] + []));
  }

  /** A tick at the end of a slice runs the nearest eligible slot. */
  lemma TickRuns(k: Kernel, frame: int, third: Status, next: int)
    requires Inv(k) && frame != 0 && third in {Ready, Terminated}
    requires (k.current == BOOT && third == Terminated && next == 4) || (k.current == 4 && next == BOOT)
    requires Shows(k, k.current, third, if k.current == 4 then Running else Ready)
    ensures Shows(OnTick(k, frame).k, next, third, if next == 4 then Running else Ready)
    ensures forall i :: 0 <= i < SLOTS && i != k.current && i != next ==>
              OnTick(k, frame).k.slots[i].entry == k.slots[i].entry
  {
    TickEffect(k, frame);
    ChargeEffect(k);
    var t := TickCharged(k);
    var u := t.(slice := t.quantum);
    assert Eligible(u.slots, next) && Dist(u.current, next) == 4;
    SwitchEffect(u, frame);
    SwitchTarget(u, frame);
  }

  /** Slot 3 is dead: two ticks and a spawn later the preempted killer runs again, and slot 3 is a new task. */
  lemma SlotIsRespawned(k: Kernel, r: Request, frame: int) returns (gap: seq<Event>)
    requires Inv(k) && Shows(k, BOOT, Terminated, Ready) && r.named && r.entry != 0 && frame != 0
    ensures Clear(3) !in gap && LegalRun(k, gap) && Shows(Run(k, gap), BOOT, Ready, Ready)
    ensures Run(k, gap).slots[3].entry == r.entry
  {
    TickRuns(k, frame, Terminated, 4);
    StepInv(k, Tick(frame));
    var k1 := Step(k, Tick(frame)).k;
    var start := Start(r, EXTERNAL_PID_MIN);
    assert FreeFrom(k1.slots, 3) == 3;
    StepInv(k1, start);
    var k2 := Step(k1, start).k;
    TickRuns(k2, frame, Ready, BOOT);
    StepInv(k2, Tick(frame));
    RunCons(k2, Tick(frame), []);
    RunCons(k1, start, [Tick(frame)] + []);
    RunCons(k, Tick(frame), [start] + ([Tick(frame)] + []));
    gap := [Tick(frame)] + ([start] + ([Tick(frame)] + []));
  }

  /**
   The boot task kills slot 3 and is preempted between the stores; slot 4 spawns into slot 3 and is
   preempted in turn: the boot task's late stores then wipe the new task's entry point.
   */
  lemma LateStoresHitNewTask(ticks: int, preempt: bool, kernelDir: int, idleEntry: int, r: Request, frame: int)
    returns (k: Kernel, es: seq<Event>, gap: seq<Event>)
    requires 0 <= ticks < U32 && kernelDir != 0 && r.named && r.entry != 0 && frame != 0
    ensures Inv(Boot(ticks, preempt, kernelDir, idleEntry)) && LegalRun(Boot(ticks, preempt, kernelDir, idleEntry), es)
    ensures k == Run(Boot(ticks, preempt, kernelDir, idleEntry), es)
    ensures Inv(k) && Legal(k, Stop(3)) && Killable(k, 3) && InRange(MarkKilled(k, 3)) && Clear(3) !in gap
    ensures LegalRun(MarkKilled(k, 3), gap)
    ensures var late := Run(MarkKilled(k, 3), gap);
            && InRange(late) && Legal(late, Clear(3))
            && late.slots[3].status == Ready && late.slots[3].entry == r.entry
            && ClearSlot(late, 3).slots[3].entry == 0
  {
    k, es := TwoTasksReady(ticks, preempt, kernelDir, idleEntry, r);
    StepInv(k, Stop(3));
    var k1 := MarkKilled(k, 3);
    assert k1 == Step(k, Stop(3)).k;
    gap := SlotIsRespawned(k1, r, frame);
  }
}
