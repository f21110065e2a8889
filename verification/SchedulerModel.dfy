/**
 The scheduler's state and its entry points as functions of that state.  An interrupt handler or a spawn
 runs with interrupts off, so it is one atomic step.  Sleeping, exiting, killing and changing the quantum
 run with interrupts on: they are split at the stores between which a timer tick can land.
 */
module SchedulerModel {
  import opened Machine
  import opened KernelLayout

  const DEFAULT_QUANTUM: int := 5

  /** The first slot scheduler_spawn_kernel_task considers. */
  const EXTERNAL_PID_MIN: int := 3

  datatype Status = Unused | Ready | Running | Blocked | Terminated

  datatype Pcb = Pcb(
    pid: int,
    status: Status,
    frame: int,         // saved interrupt frame, 0 when there is none
    userEsp: int,
    pageDir: int,
    guardBase: int,
    stackBase: int,
    stackTop: int,
    wakeTick: int,
    runtimeTicks: int,
    switchCount: int,
    entry: int,
    arg: int)

  datatype Kernel = Kernel(
    slots: seq<Pcb>,
    current: int,
    runtimeReady: bool,
    preempt: bool,
    quantum: int,
    slice: int,
    ticks: int,         // the timer's 32-bit tick counter
    kernelDir: int,     // address of the kernel page directory
    cr3: int,           // directory loaded by the last paging_activate_directory
    esp0: int)          // kernel stack top set by the last paging_set_kernel_stack_top

  /** The state after a step, and the frame handed to the interrupt stub: 0 resumes the caller. */
  datatype Outcome = Outcome(k: Kernel, frame: int)

  predicate InRange(k: Kernel) { |k.slots| == SLOTS && 0 <= k.current < SLOTS }

  // ----- choosing the next slot

  /** How many slots after `current` the round-robin scan reaches `p`, going round: 8 for `current` itself. */
  function Dist(current: int, p: int): int {
    if p > current then p - current else p - current + SLOTS
  }

  predicate Eligible(slots: seq<Pcb>, i: int)
    requires |slots| == SLOTS
  {
    0 <= i < SLOTS && i != IDLE && slots[i].status == Ready
  }

  /** The round-robin scan from distance `step` on. */
  function NextReady(slots: seq<Pcb>, current: int, step: int): int
    requires |slots| == SLOTS && 0 <= current < SLOTS && 1 <= step <= SLOTS
    decreases SLOTS - step
  {
    if step == SLOTS then -1
    else
      var i := (current + step) % SLOTS;
      if Eligible(slots, i) then i else NextReady(slots, current, step + 1)
  }

  function FirstReady(k: Kernel): int
    requires |k.slots| == SLOTS && k.current < SLOTS
  {
    if k.current < 0 then -1 else NextReady(k.slots, k.current, 1)
  }

  function PickNext(k: Kernel): int
    requires |k.slots| == SLOTS && k.current < SLOTS
  {
    var next := FirstReady(k);
    if next >= 0 then next
    else if k.current >= 0 && k.slots[k.current].status == Running then k.current
    else if k.slots[IDLE].status == Ready || k.slots[IDLE].status == Running then IDLE
    else -1
  }

  function Activate(k: Kernel, next: int): (o: Outcome)
    requires |k.slots| == SLOTS && 0 <= next < SLOTS
    ensures |o.k.slots| == SLOTS
  {
    var p := k.slots[next];
    Outcome(
      k.(slots := k.slots[next := p.(status := Running, switchCount := Wrap(p.switchCount + 1))],
         current := next,
         slice := k.quantum,
         cr3 := if p.pageDir == 0 then k.kernelDir else p.pageDir,
         esp0 := p.stackTop),
      p.frame)
  }

  function SetStatus(k: Kernel, i: int, s: Status): Kernel
    requires |k.slots| == SLOTS && 0 <= i < SLOTS
  {
    k.(slots := k.slots[i := k.slots[i].(status := s)])
  }

  function SwitchFrom(k: Kernel, frame: int): (o: Outcome)
    requires |k.slots| == SLOTS
    ensures |o.k.slots| == SLOTS
  {
    var cur := k.current;
    if !(0 <= cur < SLOTS) then Outcome(k, 0)
    else
      var saved := k.(slots := k.slots[cur := k.slots[cur].(frame := frame)]);
      var next := PickNext(saved);
      if next < 0 || next == cur then
        Outcome(if saved.slots[cur].status == Ready then SetStatus(saved, cur, Running) else saved, 0)
      else
        Activate(if saved.slots[cur].status == Running then SetStatus(saved, cur, Ready) else saved, next)
  }

  // ----- interrupt entry points

  /** The unsigned comparison of sched_wake_sleepers. */
  predicate Due(now: int, wakeTick: int) { Wrap(now - wakeTick) < HALF }

  function Wake(p: Pcb, now: int): Pcb {
    if p.status == Blocked && Due(now, p.wakeTick) then p.(wakeTick := 0, status := Ready) else p
  }

  function WakeAll(slots: seq<Pcb>, now: int): seq<Pcb> {
    seq(|slots|, i requires 0 <= i < |slots| => Wake(slots[i], now))
  }

  predicate Accepting(k: Kernel, frame: int) { frame != 0 && k.runtimeReady && 0 <= k.current < SLOTS }

  /** The timer interrupt up to the point where it decides whether to switch. */
  function TickCharged(k: Kernel): Kernel
    requires InRange(k)
  {
    var now := Wrap(k.ticks + 1);
    var charged := k.slots[k.current].(runtimeTicks := Wrap(k.slots[k.current].runtimeTicks + 1));
    k.(ticks := now, slots := WakeAll(k.slots[k.current := charged], now))
  }

  function OnTick(k: Kernel, frame: int): (o: Outcome)
    requires |k.slots| == SLOTS
    ensures |o.k.slots| == SLOTS
  {
    if !Accepting(k, frame) then Outcome(k.(ticks := Wrap(k.ticks + 1)), 0)
    else
      var t := TickCharged(k);
      var forced := t.current == IDLE && NextReady(t.slots, t.current, 1) >= 0;
      if !t.preempt || t.quantum == 0 then
        if forced then SwitchFrom(t, frame) else Outcome(t, 0)
      else if !forced && t.slice > 1 then
        Outcome(t.(slice := t.slice - 1), 0)
      else
        SwitchFrom(t.(slice := t.quantum), frame)
  }

  function OnYield(k: Kernel, frame: int): (o: Outcome)
    requires |k.slots| == SLOTS
    ensures |o.k.slots| == SLOTS
  {
    if Accepting(k, frame) then SwitchFrom(k, frame) else Outcome(k, 0)
  }

  function Cleared(p: Pcb, kernelDir: int): Pcb {
    p.(wakeTick := 0, entry := 0, arg := 0, userEsp := 0, pageDir := kernelDir)
  }

  /** The stores of sched_mark_terminated that follow the state. */
  function ClearSlot(k: Kernel, i: int): Kernel
    requires |k.slots| == SLOTS && 0 <= i < SLOTS
  {
    k.(slots := k.slots[i := Cleared(k.slots[i], k.kernelDir)])
  }

  /** sched_mark_terminated without a tick in between. */
  function MarkTerminated(k: Kernel, i: int): Kernel
    requires |k.slots| == SLOTS && 0 <= i < SLOTS
  {
    ClearSlot(SetStatus(k, i, Terminated), i)
  }

  function OnExitInterrupt(k: Kernel, frame: int): (o: Outcome)
    requires |k.slots| == SLOTS
    ensures |o.k.slots| == SLOTS
  {
    if !Accepting(k, frame) then Outcome(k, 0)
    else
      var saved := k.(slots := k.slots[k.current := k.slots[k.current].(frame := frame)]);
      var dead := MarkTerminated(saved, k.current);
      var next := PickNext(dead);
      if next < 0 then Outcome(dead, 0) else Activate(dead, next)
  }

  // ----- operations of the running task

  /** First half of scheduler_sleep_ticks: the wake tick is computed and stored. */
  function ArmSleep(k: Kernel, n: int): Kernel
    requires |k.slots| == SLOTS
  {
    if !k.runtimeReady || !(0 <= k.current < SLOTS) then k
    else k.(slots := k.slots[k.current := k.slots[k.current].(wakeTick := Wrap(k.ticks + n))])
  }

  /** Second half: the sleeper marks itself BLOCKED and is about to trap into the yield handler. */
  function BlockSelf(k: Kernel): Kernel
    requires |k.slots| == SLOTS
  {
    if !k.runtimeReady || !(0 <= k.current < SLOTS) then k else SetStatus(k, k.current, Blocked)
  }

  /** First store of sched_exit_current. */
  function ExitSelf(k: Kernel): Kernel
    requires |k.slots| == SLOTS
  {
    if 0 <= k.current < SLOTS then SetStatus(k, k.current, Terminated) else k
  }

  predicate Free(p: Pcb) { p.status == Unused || p.status == Terminated }

  /** The least free slot from `from` on, or -1. */
  function FreeFrom(slots: seq<Pcb>, from: int): int
    requires |slots| == SLOTS && 0 <= from
    decreases SLOTS - from
  {
    if from >= SLOTS then -1
    else if Free(slots[from]) then from
    else FreeFrom(slots, from + 1)
  }

  function FindFree(slots: seq<Pcb>, firstPid: int): int
    requires |slots| == SLOTS
  {
    FreeFrom(slots, if firstPid < IDLE + 1 then IDLE + 1 else firstPid)
  }

  function ResetPcb(idx: int, s: Status, kernelDir: int): Pcb {
    Pcb(idx, s, 0, 0, kernelDir,
        if idx == BOOT then 0 else GuardBase(idx),
        if idx == BOOT then 0 else StackBase(idx),
        if idx == BOOT then 0 else StackTop(idx),
        0, 0, 0, 0, 0)
  }

  /** What the spawner passes: a name, an entry point and its argument, and a directory (0 for none). */
  datatype Request = Request(named: bool, entry: int, arg: int, pageDir: int)

  function SpawnedPcb(idx: int, r: Request, kernelDir: int): Pcb {
    ResetPcb(idx, Ready, kernelDir).(
      frame := FreshFrame(idx), entry := r.entry, arg := r.arg,
      pageDir := if r.pageDir == 0 then kernelDir else r.pageDir)
  }

  /** The slot a spawn takes, or -1 when it is refused. */
  function SpawnSlot(k: Kernel, r: Request, firstPid: int): int
    requires |k.slots| == SLOTS
  {
    var idx := FindFree(k.slots, firstPid);
    if idx < 0 || !r.named || r.entry == 0 then -1 else idx
  }

  function Spawn(k: Kernel, r: Request, firstPid: int): Kernel
    requires |k.slots| == SLOTS
  {
    var idx := SpawnSlot(k, r, firstPid);
    if 0 <= idx < SLOTS then k.(slots := k.slots[idx := SpawnedPcb(idx, r, k.kernelDir)]) else k
  }

  predicate Killable(k: Kernel, pid: int)
    requires |k.slots| == SLOTS
  {
    k.runtimeReady && IDLE < pid < SLOTS && !Free(k.slots[pid])
  }

  /** First store of scheduler_terminate_process, when it does not refuse. */
  function MarkKilled(k: Kernel, pid: int): Kernel
    requires |k.slots| == SLOTS
  {
    if Killable(k, pid) then SetStatus(k, pid, Terminated) else k
  }

  /** scheduler_terminate_process without a tick in between. */
  function Kill(k: Kernel, pid: int): Kernel
    requires |k.slots| == SLOTS
  {
    if Killable(k, pid) then MarkTerminated(k, pid) else k
  }

  /** The state scheduler_runtime_init leaves when the guard pages could be armed. */
  function Boot(ticks: int, preempt: bool, kernelDir: int, idleEntry: int): Kernel {
    var slots := seq(SLOTS, i =>
      if i == BOOT then ResetPcb(i, Running, kernelDir)
      else if i == IDLE then ResetPcb(i, Ready, kernelDir).(frame := FreshFrame(IDLE), entry := idleEntry)
      else ResetPcb(i, Unused, kernelDir));
    Kernel(slots, BOOT, true, preempt, DEFAULT_QUANTUM, DEFAULT_QUANTUM, ticks, kernelDir, kernelDir, 0)
  }

  // ----- runs

  datatype Event =
    | Tick(frame: int)
    | Yield(frame: int)
    | ExitInterrupt(frame: int)
    | Arm(n: int)
    | Block
    | Exit
    | Start(request: Request, firstPid: int)
    | Stop(pid: int)
    | Clear(pid: int)        // the stores that follow an Exit or a Stop
    | SetQuantum(q: int)     // the stores of the preemption switches
    | SetSlice(q: int)
    | SetPreempt(on: bool)

  function Step(k: Kernel, e: Event): (o: Outcome)
    requires |k.slots| == SLOTS
    ensures |o.k.slots| == SLOTS
  {
    match e
    case Tick(f) => OnTick(k, f)
    case Yield(f) => OnYield(k, f)
    case ExitInterrupt(f) => OnExitInterrupt(k, f)
    case Arm(n) => Outcome(ArmSleep(k, n), 0)
    case Block => Outcome(BlockSelf(k), 0)
    case Exit => Outcome(ExitSelf(k), 0)
    case Start(r, first) => Outcome(Spawn(k, r, first), 0)
    case Stop(pid) => Outcome(MarkKilled(k, pid), 0)
    case Clear(pid) => Outcome(if 0 <= pid < SLOTS then ClearSlot(k, pid) else k, 0)
    case SetQuantum(q) => Outcome(k.(quantum := q), 0)
    case SetSlice(q) => Outcome(k.(slice := q), 0)
    case SetPreempt(on) => Outcome(k.(preempt := on), 0)
  }

  /** What a task that is no longer RUNNING may still do before its trap. */
  predicate LegalAfterMark(k: Kernel, e: Event)
    requires InRange(k)
  {
    || e.Tick? || e.Yield?
    || (e.Start? && SpawnSlot(k, e.request, e.firstPid) != k.current)
    || (e == Clear(k.current) && k.slots[k.current].status == Terminated)
  }

  /**
   What the environment respects.  The stub passes a real frame; a task that has marked itself BLOCKED or
   TERMINATED finishes its stores, may spawn into another slot, and traps; only a dead task's stores can
   hit its own slot; the idle task neither sleeps nor exits.
   */
  predicate Legal(k: Kernel, e: Event)
    requires InRange(k)
  {
    && (k.slots[k.current].status == Running || LegalAfterMark(k, e))
    && (e.Tick? || e.Yield? || e.ExitInterrupt? ==> e.frame != 0)
    && (e.ExitInterrupt? || e.Arm? || e.Block? || e.Exit? ==> k.current != IDLE)
    && (e.Arm? ==> 1 <= e.n < U32)
    && (e.Clear? ==> 0 <= e.pid < SLOTS && (e.pid == k.current ==> k.slots[k.current].status == Terminated))
    && (e.SetQuantum? || e.SetSlice? ==> 1 <= e.q < U32)
  }

  function Run(k: Kernel, es: seq<Event>): (r: Kernel)
    requires |k.slots| == SLOTS
    ensures |r.slots| == SLOTS
    decreases |es|
  {
    if es == [] then k else Run(Step(k, es[0]).k, es[1..])
  }

  predicate LegalRun(k: Kernel, es: seq<Event>)
    requires InRange(k)
    decreases |es|
  {
    es == [] || (Legal(k, es[0]) && InRange(Step(k, es[0]).k) && LegalRun(Step(k, es[0]).k, es[1..]))
  }

  lemma RunTail(k: Kernel, e: Event, es: seq<Event>)
    requires |k.slots| == SLOTS
    ensures Run(k, [e] + es) == Run(Step(k, e).k, es)
  {
    assert ([e] + es)[1..] == es;
  }

  lemma RunCons(k: Kernel, e: Event, es: seq<Event>)
    requires InRange(k) && Legal(k, e) && InRange(Step(k, e).k)
    ensures LegalRun(k, [e] + es) <==> LegalRun(Step(k, e).k, es)
    ensures Run(k, [e] + es) == Run(Step(k, e).k, es)
  {
    RunTail(k, e, es);
    assert ([e] + es)[1..] == es;
  }

  /** The three stores of scheduler_enable_preemption. */
  function EnableStores(q: int): seq<Event> {
    var n := if q == 0 then DEFAULT_QUANTUM else q;
    [SetQuantum(n)] + ([SetSlice(n)] + ([SetPreempt(true)] + []))
  }

  lemma EnableRun(k: Kernel, q: int)
    requires |k.slots| == SLOTS
    ensures var n := if q == 0 then DEFAULT_QUANTUM else q;
            Run(k, EnableStores(q)) == k.(quantum := n, slice := n, preempt := true)
  {
    var n := if q == 0 then DEFAULT_QUANTUM else q;
    RunTail(k, SetQuantum(n), [SetSlice(n)] + ([SetPreempt(true)] + []));
    RunTail(k.(quantum := n), SetSlice(n), [SetPreempt(true)] + []);
    RunTail(k.(quantum := n, slice := n), SetPreempt(true), []);
  }
}
