/** Sleeping over the 32-bit tick counter: exactly which tick wakes a blocked task. */
module SchedulerSleep {
  import opened Machine
  import opened KernelLayout
  import opened SchedulerModel
  import opened SchedulerSafety
  import opened SchedulerFairness

  predicate Asleep(k: Kernel, p: int)
    requires |k.slots| == SLOTS
  {
    0 <= p < SLOTS && k.slots[p].status == Blocked
  }

  predicate Awake(k: Kernel, p: int)
    requires |k.slots| == SLOTS
  {
    0 <= p < SLOTS && (k.slots[p].status == Ready || k.slots[p].status == Running)
  }

  /** Ticks from now to the wake tick, going forward around the 32-bit counter. */
  function Remaining(k: Kernel, p: int): nat
    requires |k.slots| == SLOTS && 0 <= p < SLOTS
  {
    Wrap(k.slots[p].wakeTick - k.ticks)
  }

  /** The longest distance the unsigned comparison can tell from a wake tick in the past. */
  const LONGEST: int := HALF + 1

  /** The tick, counted from now, that ends a wait of `left`: a wait taken for past ends at the next one. */
  function WakingTick(left: int): int { if 1 <= left <= LONGEST then left else 1 }

  predicate EndsInTick(es: seq<Event>) { es != [] && es[|es| - 1].Tick? }

  predicate Touches(e: Event, p: int) { e == Stop(p) || e == Clear(p) }

  /** No kill of slot p, and no late store of an earlier one, lands in the run. */
  predicate Untouched(es: seq<Event>, p: int) { forall i :: 0 <= i < |es| ==> !Touches(es[i], p) }

  /** The remainder is determined by any quotient that leaves it in range. */
  lemma WrapIs(x: int, q: int, r: int)
    requires x == q * U32 + r && 0 <= r < U32
    ensures Wrap(x) == r
  {
  }

  lemma DueOnNextTick(ticks: int, wakeTick: int)
    ensures var left := Wrap(wakeTick - ticks);
            && (Due(Wrap(ticks + 1), wakeTick) <==> left <= 1 || left > LONGEST)
            && (left >= 1 ==> Wrap(wakeTick - Wrap(ticks + 1)) == left - 1)
  {
    var left, q := Wrap(wakeTick - ticks), (wakeTick - ticks) / U32;
    var now, p := Wrap(ticks + 1), (ticks + 1) / U32;
    assert now - wakeTick == 1 - left - (q + p) * U32;
    if left <= 1 {
      WrapIs(now - wakeTick, -(q + p), 1 - left);
    } else {
      WrapIs(now - wakeTick, -(q + p) - 1, U32 + 1 - left);
    }
    if left >= 1 {
      WrapIs(wakeTick - now, q + p, left - 1);
    }
  }

  /** A switch disturbs no sleeper, not even the current task caught before its yield trap. */
  lemma SwitchKeepsSleeper(k: Kernel, frame: int, p: int)
    requires Inv(k) && frame != 0 && Asleep(k, p)
    ensures var o := SwitchFrom(k, frame);
            Asleep(o.k, p) && o.k.slots[p].wakeTick == k.slots[p].wakeTick && o.k.ticks == k.ticks
  {
    SwitchEffect(k, frame);
  }

  lemma SwitchKeepsAwake(k: Kernel, frame: int, p: int)
    requires Inv(k) && frame != 0 && Awake(k, p)
    ensures Awake(SwitchFrom(k, frame).k, p)
  {
    SwitchEffect(k, frame);
  }

  lemma TickOnSleeper(k: Kernel, frame: int, p: int)
    requires Inv(k) && frame != 0 && Asleep(k, p)
    ensures var k' := OnTick(k, frame).k;
            if Due(Wrap(k.ticks + 1), k.slots[p].wakeTick) then Awake(k', p)
            else Asleep(k', p) && k'.slots[p].wakeTick == k.slots[p].wakeTick && k'.ticks == Wrap(k.ticks + 1)
  {
    TickEffect(k, frame);
    ChargeEffect(k);
    var t := TickCharged(k);
    var u := t.(slice := t.quantum);
    if Due(t.ticks, k.slots[p].wakeTick) {
      SwitchKeepsAwake(t, frame, p);
      SwitchKeepsAwake(u, frame, p);
    } else {
      SwitchKeepsSleeper(t, frame, p);
      SwitchKeepsSleeper(u, frame, p);
    }
  }

  lemma StepOnSleeper(k: Kernel, e: Event, p: int)
    requires Inv(k) && Legal(k, e) && Asleep(k, p) && !Touches(e, p) && !e.Tick?
    ensures var k' := Step(k, e).k;
            Asleep(k', p) && k'.slots[p].wakeTick == k.slots[p].wakeTick && k'.ticks == k.ticks
  {
    match e
    case Yield(f) => SwitchKeepsSleeper(k, f, p);
    case ExitInterrupt(f) => ExitEffect(k, f);
    case Start(r, first) => FreeFromIsLeast(k.slots, if first < IDLE + 1 then IDLE + 1 else first);
    case _ =>
  }

  /**
   A tick wakes a sleeper exactly when its wait is over, or when the wait is longer than 2^31 + 1 ticks,
   which the unsigned comparison takes for a wake tick already past.
   */
  lemma TickWakesIff(k: Kernel, frame: int, p: int)
    requires Inv(k) && frame != 0 && Asleep(k, p)
    ensures var k' := OnTick(k, frame).k;
            && (Awake(k', p) <==> Remaining(k, p) <= 1 || Remaining(k, p) > LONGEST)
            && (!Awake(k', p) ==> Asleep(k', p) && Remaining(k', p) == Remaining(k, p) - 1)
  {
    TickOnSleeper(k, frame, p);
    DueOnNextTick(k.ticks, k.slots[p].wakeTick);
  }

  lemma SleeperStep(k: Kernel, e: Event, p: int)
    requires Inv(k) && Legal(k, e) && Asleep(k, p) && !Touches(e, p)
    ensures var k' := Step(k, e).k;
            var w := WakingTick(Remaining(k, p));
            && Inv(k')
            && if e.Tick? && w == 1 then Awake(k', p)
               else Asleep(k', p) && WakingTick(Remaining(k', p)) == w - (if e.Tick? then 1 else 0)
  {
    StepInv(k, e);
    if e.Tick? {
      TickWakesIff(k, e.frame, p);
      TickOnSleeper(k, e.frame, p);
    } else {
      StepOnSleeper(k, e, p);
    }
  }

  /** A sleeper that is left alone stays BLOCKED, its wait shortened by the ticks that passed. */
  lemma {:induction false} StaysAsleep(k: Kernel, es: seq<Event>, p: int)
    requires Inv(k) && LegalRun(k, es) && Asleep(k, p) && Untouched(es, p)
    requires Ticks(es) < WakingTick(Remaining(k, p))
    ensures Asleep(Run(k, es), p)
    ensures WakingTick(Remaining(Run(k, es), p)) == WakingTick(Remaining(k, p)) - Ticks(es)
    decreases |es|
  {
    if es != [] {
      SleeperStep(k, es[0], p);
      StaysAsleep(Step(k, es[0]).k, es[1..], p);
    }
  }

  lemma {:induction false} TicksOfLast(es: seq<Event>, e: Event)
    ensures Ticks(es + [e]) == Ticks(es) + (if e.Tick? then 1 else 0)
    decreases |es|
  {
    if es == [] {
      assert [e][1..] == [];
    } else {
      assert (es + [e])[1..] == es[1..] + [e];
      TicksOfLast(es[1..], e);
    }
  }

  /** The tick at which the wait is over wakes it. */
  lemma WakesOnTime(k: Kernel, es: seq<Event>, e: Event, p: int)
    requires Inv(k) && LegalRun(k, es + [e]) && LegalRun(k, es) && Asleep(k, p) && Untouched(es + [e], p)
    requires e.Tick? && Ticks(es) + 1 == WakingTick(Remaining(k, p))
    ensures Awake(Run(k, es + [e]), p)
  {
    assert forall i :: 0 <= i < |es| ==> es[i] == (es + [e])[i];
    assert !Touches((es + [e])[|es|], p);
    StaysAsleep(k, es, p);
    RunAppend(k, es, [e]);
    var z := Run(k, es);
    assert LegalRun(z, [e]) && [e][1..] == [];
    SleeperStep(z, e, p);
    assert Run(z, [e]) == Step(z, e).k;
  }

  lemma {:induction false} LegalPrefix(k: Kernel, es: seq<Event>, e: Event)
    requires InRange(k) && LegalRun(k, es + [e])
    ensures LegalRun(k, es)
    decreases |es|
  {
    if es != [] {
      assert (es + [e])[1..] == es[1..] + [e];
      LegalPrefix(Step(k, es[0]).k, es[1..], e);
    }
  }

  /**
   Over any run that does not touch it, a sleeper is BLOCKED until its waking tick and is awake right after
   that tick: the wait itself up to 2^31 + 1 ticks, the very next tick for a wait that looks past.
   */
  lemma SleepIsExact(k: Kernel, es: seq<Event>, p: int)
    requires Inv(k) && LegalRun(k, es) && Asleep(k, p) && Untouched(es, p)
    ensures Ticks(es) < WakingTick(Remaining(k, p)) ==> Asleep(Run(k, es), p)
    ensures Ticks(es) == WakingTick(Remaining(k, p)) && EndsInTick(es) ==> Awake(Run(k, es), p)
  {
    if Ticks(es) < WakingTick(Remaining(k, p)) {
      StaysAsleep(k, es, p);
    } else if Ticks(es) == WakingTick(Remaining(k, p)) && EndsInTick(es) {
      var init, e := es[..|es| - 1], es[|es| - 1];
      assert es == init + [e];
      LegalPrefix(k, init, e);
      TicksOfLast(init, e);
      WakesOnTime(k, init, e, p);
    }
  }

  // ----- from the call

  /** Slot p, between the two stores of its sleep, does nothing of its own: it can only be preempted. */
  predicate Paused(k: Kernel, es: seq<Event>, p: int)
    requires |k.slots| == SLOTS
    decreases |es|
  {
    es == [] || ((k.current == p ==> es[0].Tick?) && Paused(Step(k, es[0]).k, es[1..], p))
  }

  predicate Armed(k: Kernel, p: int, wakeTick: int)
    requires |k.slots| == SLOTS
  {
    Awake(k, p) && k.slots[p].wakeTick == wakeTick
  }

  lemma SwitchKeepsArmed(k: Kernel, frame: int, p: int, wakeTick: int)
    requires Inv(k) && frame != 0 && Armed(k, p, wakeTick)
    ensures Armed(SwitchFrom(k, frame).k, p, wakeTick)
  {
    SwitchEffect(k, frame);
  }

  lemma StepKeepsArmed(k: Kernel, e: Event, p: int, wakeTick: int)
    requires Inv(k) && Legal(k, e) && Armed(k, p, wakeTick) && !Touches(e, p)
    requires k.current == p ==> e.Tick?
    ensures Armed(Step(k, e).k, p, wakeTick)
  {
    match e
    case Tick(f) =>
      TickEffect(k, f);
      ChargeEffect(k);
      var t := TickCharged(k);
      SwitchKeepsArmed(t, f, p, wakeTick);
      SwitchKeepsArmed(t.(slice := t.quantum), f, p, wakeTick);
    case Yield(f) => SwitchKeepsArmed(k, f, p, wakeTick);
    case ExitInterrupt(f) => ExitEffect(k, f);
    case Start(r, first) => FreeFromIsLeast(k.slots, if first < IDLE + 1 then IDLE + 1 else first);
    case _ =>
  }

  lemma {:induction false} RunKeepsArmed(k: Kernel, es: seq<Event>, p: int, wakeTick: int)
    requires Inv(k) && LegalRun(k, es) && Armed(k, p, wakeTick) && Untouched(es, p) && Paused(k, es, p)
    ensures Inv(Run(k, es)) && Armed(Run(k, es), p, wakeTick)
    decreases |es|
  {
    if es != [] {
      StepInv(k, es[0]);
      StepKeepsArmed(k, es[0], p, wakeTick);
      RunKeepsArmed(Step(k, es[0]).k, es[1..], p, wakeTick);
    }
  }

  lemma WrapAdd(a: int, b: int, c: int)
    ensures Wrap(Wrap(a + b) + c) == Wrap(a + (b + c))
  {
    WrapIs(Wrap(a + b) + c, (a + (b + c)) / U32 - (a + b) / U32, Wrap(a + (b + c)));
  }

  /** The counter after n ticks, one by one. */
  function Advance(ticks: int, n: nat): int
    decreases n
  {
    if n == 0 then ticks else Advance(Wrap(ticks + 1), n - 1)
  }

  lemma {:induction false} AdvanceIs(ticks: int, n: nat)
    requires 0 <= ticks < U32
    ensures Advance(ticks, n) == Wrap(ticks + n)
    decreases n
  {
    if n > 0 {
      AdvanceIs(Wrap(ticks + 1), n - 1);
      WrapAdd(ticks, 1, n - 1);
    }
  }

  lemma StepTicks(k: Kernel, e: Event)
    requires Inv(k) && Legal(k, e)
    ensures Step(k, e).k.ticks == if e.Tick? then Wrap(k.ticks + 1) else k.ticks
  {
    match e
    case Tick(f) =>
      TickEffect(k, f);
      ChargeEffect(k);
      var t := TickCharged(k);
      SwitchEffect(t, f);
      SwitchEffect(t.(slice := t.quantum), f);
    case Yield(f) => SwitchEffect(k, f);
    case ExitInterrupt(f) => ExitEffect(k, f);
    case _ =>
  }

  ghost predicate CountsTicks(k: Kernel, es: seq<Event>)
    requires |k.slots| == SLOTS
  {
    Run(k, es).ticks == Advance(k.ticks, Ticks(es))
  }

  lemma CountsOneMore(k: Kernel, es: seq<Event>)
    requires Inv(k) && es != [] && Legal(k, es[0]) && CountsTicks(Step(k, es[0]).k, es[1..])
    ensures CountsTicks(k, es)
  {
    StepTicks(k, es[0]);
  }

  lemma {:induction false} RunTicks(k: Kernel, es: seq<Event>)
    requires Inv(k) && LegalRun(k, es)
    ensures CountsTicks(k, es)
    decreases |es|
  {
    if es != [] {
      StepInv(k, es[0]);
      RunTicks(Step(k, es[0]).k, es[1..]);
      CountsOneMore(k, es);
    }
  }

  lemma ArmLeavesArmed(k: Kernel, n: int)
    requires Inv(k) && Legal(k, Arm(n))
    ensures Inv(ArmSleep(k, n)) && ArmSleep(k, n).ticks == k.ticks
    ensures Armed(ArmSleep(k, n), k.current, Wrap(k.ticks + n))
  {
    StepInv(k, Arm(n));
    assert Step(k, Arm(n)).k == ArmSleep(k, n);
  }

  lemma BlockLeavesAsleep(k: Kernel)
    requires Inv(k) && Legal(k, Block)
    ensures Inv(BlockSelf(k)) && Asleep(BlockSelf(k), k.current)
    ensures Remaining(BlockSelf(k), k.current) == Wrap(k.slots[k.current].wakeTick - k.ticks)
  {
    StepInv(k, Block);
    assert Step(k, Block).k == BlockSelf(k);
  }

  /** scheduler_sleep_ticks(n) up to its trap, with the run `gap` between its two stores. */
  ghost predicate SleepCall(k: Kernel, n: int, gap: seq<Event>) {
    && Inv(k) && Legal(k, Arm(n)) && LegalRun(ArmSleep(k, n), gap)
    && Untouched(gap, k.current) && Paused(ArmSleep(k, n), gap, k.current)
    && Run(ArmSleep(k, n), gap).current == k.current
    && Legal(Run(ArmSleep(k, n), gap), Block)
  }

  function AfterCall(k: Kernel, n: int, gap: seq<Event>): (z: Kernel)
    requires |k.slots| == SLOTS
    ensures |z.slots| == SLOTS
  {
    BlockSelf(Run(ArmSleep(k, n), gap))
  }

  /** The gap leaves the wake tick as the first store set it, and the counter that many ticks on. */
  lemma GapKeepsArmed(k: Kernel, n: int, gap: seq<Event>)
    requires SleepCall(k, n, gap)
    ensures var back := Run(ArmSleep(k, n), gap);
            && Inv(back) && back.slots[k.current].wakeTick == Wrap(k.ticks + n)
            && back.ticks == Advance(k.ticks, Ticks(gap))
  {
    ArmLeavesArmed(k, n);
    RunKeepsArmed(ArmSleep(k, n), gap, k.current, Wrap(k.ticks + n));
    RunTicks(ArmSleep(k, n), gap);
  }

  lemma CallLeavesAsleep(k: Kernel, n: int, gap: seq<Event>)
    requires SleepCall(k, n, gap)
    ensures var z := AfterCall(k, n, gap);
            Inv(z) && Asleep(z, k.current) && Remaining(z, k.current) == Wrap(n - Ticks(gap))
  {
    GapKeepsArmed(k, n, gap);
    BlockLeavesAsleep(Run(ArmSleep(k, n), gap));
    AdvanceIs(k.ticks, Ticks(gap));
    WrapOfDifference(k.ticks, n, Ticks(gap));
  }

  lemma WrapOfDifference(a: int, n: int, t: int)
    ensures Wrap(Wrap(a + n) - Wrap(a + t)) == Wrap(n - t)
  {
    WrapIs(Wrap(a + n) - Wrap(a + t), (n - t) / U32 - (a + n) / U32 + (a + t) / U32, Wrap(n - t));
  }

  /** The tick, counted from the first store, that wakes a caller whose second store came after t ticks. */
  function DueTick(n: int, t: int): int { t + WakingTick(Wrap(n - t)) }

  /** Tick n when the second store came before it, else the tick after that store, and exactly when. */
  lemma DueTickIs(n: int, t: int)
    requires 1 <= n < U32 && 0 <= t
    ensures var promised := if t < n then n else t + 1;
            && (DueTick(n, t) == promised <==>
                if t < n then n - t <= LONGEST else Wrap(n - t) <= 1 || LONGEST < Wrap(n - t))
            && (n <= LONGEST && t <= n + HALF - 2 ==> DueTick(n, t) == promised)
  {
    if t <= n {
      WrapIs(n - t, 0, n - t);
    } else if t < n + U32 {
      WrapIs(n - t, -1, n - t + U32);
    }
  }

  /** What a sleeper with DueTick(n, t) - t ticks to go does over a run. */
  ghost predicate WakesWhenDue(z: Kernel, n: int, t: int, es: seq<Event>, p: int)
    requires |z.slots| == SLOTS
  {
    && (t + Ticks(es) < DueTick(n, t) ==> Asleep(Run(z, es), p))
    && (t + Ticks(es) == DueTick(n, t) && EndsInTick(es) ==> Awake(Run(z, es), p))
  }

  lemma WakesAfterCall(z: Kernel, n: int, t: int, es: seq<Event>, p: int)
    requires Inv(z) && Asleep(z, p) && Remaining(z, p) == Wrap(n - t)
    requires LegalRun(z, es) && Untouched(es, p)
    ensures WakesWhenDue(z, n, t, es, p)
  {
    SleepIsExact(z, es, p);
  }

  /**
   From the call: with any run `gap` between the two stores and any run `es` after them, the caller is
   BLOCKED until its due tick and awake right after it.
   */
  lemma SleepFromTheCall(k: Kernel, n: int, gap: seq<Event>, es: seq<Event>)
    requires SleepCall(k, n, gap) && InRange(AfterCall(k, n, gap))
    requires LegalRun(AfterCall(k, n, gap), es) && Untouched(es, k.current)
    ensures WakesWhenDue(AfterCall(k, n, gap), n, Ticks(gap), es, k.current)
  {
    CallLeavesAsleep(k, n, gap);
    WakesAfterCall(AfterCall(k, n, gap), n, Ticks(gap), es, k.current);
  }

  /** A request above 2^31 + 1 ticks is not honoured: the very first tick ends it. */
  lemma LongSleepEndsAtOnce(k: Kernel, n: int, frame: int)
    requires SleepCall(k, n, []) && LONGEST < n && frame != 0
    ensures Awake(OnTick(AfterCall(k, n, []), frame).k, k.current)
  {
    CallLeavesAsleep(k, n, []);
    WrapIs(n - Ticks([]), 0, n);
    TickWakesIff(AfterCall(k, n, []), frame, k.current);
  }
}
