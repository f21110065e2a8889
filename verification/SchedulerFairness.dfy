/** Bounded waiting: how long a READY task can be passed over, in switches and in ticks. */
module SchedulerFairness {
  import opened KernelLayout
  import opened SchedulerModel
  import opened SchedulerSafety

  predicate Waiting(k: Kernel, p: int)
    requires InRange(k)
  {
    0 <= p < SLOTS && p != IDLE && p != k.current && k.slots[p].status == Ready
  }

  /** Ticks left until `p` runs, at worst: the rest of this slice and a full quantum per slot before it. */
  function Budget(k: Kernel, p: int): int { k.slice + (Dist(k.current, p) - 1) * k.quantum }

  /** Context switches in a run: steps that hand the interrupt stub a frame to resume. */
  function Switches(k: Kernel, es: seq<Event>): nat
    requires |k.slots| == SLOTS
    decreases |es|
  {
    if es == [] then 0
    else (if Step(k, es[0]).frame != 0 then 1 else 0) + Switches(Step(k, es[0]).k, es[1..])
  }

  function Ticks(es: seq<Event>): nat {
    if es == [] then 0 else (if es[0].Tick? then 1 else 0) + Ticks(es[1..])
  }

  lemma DistShrinks(current: int, next: int, p: int)
    requires 0 <= current < SLOTS && 0 <= next < SLOTS && 0 <= p < SLOTS
    requires next != p && Dist(current, next) <= Dist(current, p)
    ensures Dist(next, p) == Dist(current, p) - Dist(current, next)
  {
  }

  lemma BudgetDrops(d': int, d: int, q: int, slice: int)
    requires 1 <= d' < d && 1 <= q && 1 <= slice
    ensures q + (d' - 1) * q + 1 <= slice + (d - 1) * q
  {
    NonNegative(d - 1 - d', q);
  }

  lemma BudgetPositive(k: Kernel, p: int)
    requires 1 <= k.slice && 0 <= k.quantum && 0 <= k.current < SLOTS && 0 <= p < SLOTS
    ensures 1 <= Budget(k, p)
  {
    NonNegative(Dist(k.current, p) - 1, k.quantum);
  }

  lemma NonNegative(a: int, b: int)
    requires 0 <= a && 0 <= b
    ensures 0 <= a * b
  {
  }

  /** A switch either runs the waiting task or brings it strictly nearer. */
  lemma SwitchServes(k: Kernel, frame: int, p: int)
    requires Inv(k) && frame != 0 && Waiting(k, p)
    ensures var o := SwitchFrom(k, frame);
            && InRange(o.k) && o.frame != 0
            && o.k.quantum == k.quantum && o.k.preempt == k.preempt && o.k.slice == k.quantum
            && (o.k.current == p || (Waiting(o.k, p) && Dist(o.k.current, p) < Dist(k.current, p)))
  {
    assert Eligible(k.slots, p);
    SwitchEffect(k, frame);
    SwitchTarget(k, frame);
    var next := SwitchFrom(k, frame).k.current;
    if next != p {
      DistShrinks(k.current, next, p);
    }
  }

  /** What one step may do to a waiting task. */
  ghost predicate Served(k: Kernel, o: Outcome, p: int, tick: bool)
    requires InRange(k)
  {
    && InRange(o.k)
    && (o.k.current == p ==> o.frame != 0)
    && (o.k.current != p ==>
          && Waiting(o.k, p)
          && Dist(o.k.current, p) + (if o.frame != 0 then 1 else 0) <= Dist(k.current, p)
          && (k.preempt ==> Budget(o.k, p) + (if tick then 1 else 0) <= Budget(k, p)))
  }

  /** Serving through a switch out of `u`, a state that differs from `k` only in what the tick charged. */
  lemma SwitchIsServed(k: Kernel, u: Kernel, frame: int, p: int)
    requires InRange(k) && 1 <= k.slice
    requires Inv(u) && frame != 0 && Waiting(u, p)
    requires u.current == k.current && u.quantum == k.quantum
    ensures Served(k, SwitchFrom(u, frame), p, true)
  {
    SwitchServes(u, frame, p);
    var o := SwitchFrom(u, frame);
    if o.k.current != p {
      BudgetDrops(Dist(o.k.current, p), Dist(k.current, p), k.quantum, k.slice);
    }
  }

  lemma TickServes(k: Kernel, frame: int, p: int)
    requires Inv(k) && frame != 0 && Waiting(k, p)
    ensures var o := OnTick(k, frame);
            Served(k, o, p, true) && o.k.quantum == k.quantum && o.k.preempt == k.preempt
  {
    TickEffect(k, frame);
    ChargeEffect(k);
    var t := TickCharged(k);
    var u := t.(slice := t.quantum);
    if OnTick(k, frame) == SwitchFrom(u, frame) {
      SwitchIsServed(k, u, frame, p);
      SwitchServes(u, frame, p);
    } else if OnTick(k, frame) == SwitchFrom(t, frame) {
      SwitchIsServed(k, t, frame, p);
      SwitchServes(t, frame, p);
    }
  }

  lemma YieldServes(k: Kernel, frame: int, p: int)
    requires Inv(k) && frame != 0 && Waiting(k, p)
    ensures var o := OnYield(k, frame);
            Served(k, o, p, false) && o.k.quantum == k.quantum && o.k.preempt == k.preempt
  {
    SwitchServes(k, frame, p);
    SwitchIsServed(k, k, frame, p);
    assert Served(k, SwitchFrom(k, frame), p, false);
  }

  lemma ExitServes(k: Kernel, frame: int, p: int)
    requires Inv(k) && frame != 0 && k.current != IDLE && Waiting(k, p)
    ensures var o := OnExitInterrupt(k, frame);
            Served(k, o, p, false) && o.k.quantum == k.quantum && o.k.preempt == k.preempt
  {
    assert Eligible(k.slots, p);
    ExitEffect(k, frame);
    var next := ExitTarget(k, frame);
    if next != p {
      DistShrinks(k.current, next, p);
      BudgetDrops(Dist(next, p), Dist(k.current, p), k.quantum, k.slice);
    }
  }

  lemma QuietServes(k: Kernel, e: Event, p: int)
    requires Inv(k) && Legal(k, e) && Waiting(k, p) && e != Stop(p)
    requires !e.Tick? && !e.Yield? && !e.ExitInterrupt? && !ChangesQuantum(e)
    ensures var o := Step(k, e);
            Served(k, o, p, false) && o.k.quantum == k.quantum && o.k.preempt == k.preempt
  {
    if e.Start? {
      FreeFromIsLeast(k.slots, if e.firstPid < IDLE + 1 then IDLE + 1 else e.firstPid);
    }
  }

  predicate Undisturbed(es: seq<Event>, p: int) { Stop(p) !in es }

  predicate ChangesQuantum(e: Event) { e.SetQuantum? || e.SetSlice? || e.SetPreempt? }

  predicate FixedQuantum(es: seq<Event>) {
    forall i :: 0 <= i < |es| ==> !ChangesQuantum(es[i])
  }

  lemma StepServes(k: Kernel, e: Event, p: int)
    requires Inv(k) && Legal(k, e) && Waiting(k, p) && e != Stop(p) && !ChangesQuantum(e)
    ensures var o := Step(k, e);
            Served(k, o, p, e.Tick?) && o.k.quantum == k.quantum && o.k.preempt == k.preempt
  {
    match e
    case Tick(f) => TickServes(k, f, p);
    case Yield(f) => YieldServes(k, f, p);
    case ExitInterrupt(f) => ExitServes(k, f, p);
    case _ => QuietServes(k, e, p);
  }

  lemma StepBringsNearer(k: Kernel, e: Event, p: int)
    requires Inv(k) && Legal(k, e) && Waiting(k, p) && e != Stop(p)
    ensures var o := Step(k, e);
            && InRange(o.k)
            && (o.k.current == p ==> o.frame != 0)
            && (o.k.current != p ==>
                  Waiting(o.k, p) && Dist(o.k.current, p) + (if o.frame != 0 then 1 else 0) <= Dist(k.current, p))
  {
    if !ChangesQuantum(e) {
      StepServes(k, e, p);
    }
  }

  /**
   A READY task runs within Dist(current, p) context switches, whatever ticks, yields, sleeps, exits,
   spawns, kills of others and quantum changes are interleaved.
   */
  lemma {:induction false} RunsWithinDistance(k: Kernel, es: seq<Event>, p: int) returns (n: nat)
    requires Inv(k) && LegalRun(k, es) && Waiting(k, p) && Undisturbed(es, p)
    requires Switches(k, es) >= Dist(k.current, p)
    ensures n <= |es| && Run(k, es[..n]).current == p
    ensures Switches(k, es[..n]) <= Dist(k.current, p)
    decreases |es|
  {
    var k1 := Step(k, es[0]).k;
    StepInv(k, es[0]);
    StepBringsNearer(k, es[0], p);
    if k1.current == p {
      n := 1;
      assert es[..1][1..] == [];
      assert Run(k1, []) == k1;
    } else {
      var m := RunsWithinDistance(k1, es[1..], p);
      n := m + 1;
      assert es[..n][1..] == es[1..][..m];
    }
  }

  /**
   With preemption on, a READY task runs within slice + (Dist - 1) * quantum timer ticks.
   */
  lemma {:induction false} RunsWithinBudget(k: Kernel, es: seq<Event>, p: int) returns (n: nat)
    requires Inv(k) && LegalRun(k, es) && Waiting(k, p) && Undisturbed(es, p)
    requires k.preempt && FixedQuantum(es)
    requires Ticks(es) >= Budget(k, p)
    ensures n <= |es| && Run(k, es[..n]).current == p
    ensures Ticks(es[..n]) <= Budget(k, p)
    decreases |es|
  {
    BudgetPositive(k, p);
    var k1 := Step(k, es[0]).k;
    StepInv(k, es[0]);
    StepServes(k, es[0], p);
    if k1.current == p {
      n := 1;
      assert es[..1][1..] == [];
      assert Run(k1, []) == k1;
    } else {
      var m := RunsWithinBudget(k1, es[1..], p);
      n := m + 1;
      assert es[..n][1..] == es[1..][..m];
    }
  }
}
