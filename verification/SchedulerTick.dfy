/** What a timer tick decides, with preemption on and off, said of the slots before the tick. */
module SchedulerTick {
  import opened Machine
  import opened KernelLayout
  import opened SchedulerModel
  import opened SchedulerSafety
  import opened SchedulerFairness

  /** Slot j, neither idle nor current, is READY or is woken by the coming tick. */
  predicate WillWait(k: Kernel, j: int)
    requires InRange(k)
  {
    && 0 <= j < SLOTS && j != IDLE && j != k.current
    && (k.slots[j].status == Ready || (k.slots[j].status == Blocked && Due(Wrap(k.ticks + 1), k.slots[j].wakeTick)))
  }

  ghost predicate SomeoneWaits(k: Kernel)
    requires InRange(k)
  {
    exists j :: WillWait(k, j)
  }

  /** The step resumed the frame of the waiting slot that comes first after the current one. */
  ghost predicate RunsNearest(k: Kernel, o: Outcome)
    requires InRange(k)
  {
    var c := o.k.current;
    && o.frame != 0 && WillWait(k, c) && o.frame == k.slots[c].frame
    && forall j :: WillWait(k, j) ==> Dist(k.current, c) <= Dist(k.current, j)
  }

  predicate Stays(k: Kernel, o: Outcome) { o.frame == 0 && o.k.current == k.current }

  /** Before any decision a tick charges the current slot and wakes each sleeper that is due, and no more. */
  lemma ChargeIs(k: Kernel, i: int)
    requires InRange(k) && 0 <= i < SLOTS
    ensures var p, q := k.slots[i], TickCharged(k).slots[i];
            var due := p.status == Blocked && Due(Wrap(k.ticks + 1), p.wakeTick);
            q == p.(status := if due then Ready else p.status,
                    wakeTick := if due then 0 else p.wakeTick,
                    runtimeTicks := if i == k.current then Wrap(p.runtimeTicks + 1) else p.runtimeTicks)
  {
  }

  /** Without a frame, or before initialization, the traps do nothing and a tick only counts. */
  lemma IgnoredBeforeInit(k: Kernel, frame: int)
    requires |k.slots| == SLOTS && (frame == 0 || !k.runtimeReady || !(0 <= k.current < SLOTS))
    ensures OnYield(k, frame) == OnExitInterrupt(k, frame) == Outcome(k, 0)
    ensures OnTick(k, frame) == Outcome(k.(ticks := Wrap(k.ticks + 1)), 0)
  {
  }

  lemma ChargedEligible(k: Kernel, j: int)
    requires Inv(k)
    ensures |TickCharged(k).slots| == SLOTS
    ensures Eligible(TickCharged(k).slots, j) && j != k.current <==> WillWait(k, j)
  {
    ChargeEffect(k);
  }

  lemma ChargedWaiters(k: Kernel, u: Kernel)
    requires Inv(k) && u.slots == TickCharged(k).slots && u.current == k.current
    ensures InRange(u) && forall j :: Eligible(u.slots, j) && j != k.current <==> WillWait(k, j)
  {
    forall j ensures Eligible(u.slots, j) && j != k.current <==> WillWait(k, j) { ChargedEligible(k, j); }
  }

  /** A switch out of a charged state `u`. */
  lemma ChargedSwitch(k: Kernel, u: Kernel, frame: int)
    requires Inv(k) && Inv(u) && frame != 0 && u.slots == TickCharged(k).slots && u.current == k.current
    ensures var o := SwitchFrom(u, frame);
            if SomeoneWaits(k) then RunsNearest(k, o)
            else if k.slots[k.current].status == Running then Stays(k, o)
            else o.frame != 0 && o.k.current == IDLE
  {
    ChargedWaiters(k, u);
    ChargeEffect(k);
    SwitchEffect(u, frame);
    if SwitchFrom(u, frame).frame != 0 {
      SwitchTarget(u, frame);
    }
    assert SlotOk(k, k.current);
    if !SomeoneWaits(k) && k.slots[k.current].status == Running {
      SwitchStays(u, frame);
    }
  }

  lemma SwitchStays(u: Kernel, frame: int)
    requires Inv(u) && frame != 0 && u.slots[u.current].status == Running
    requires forall j :: Eligible(u.slots, j) ==> j == u.current
    ensures SwitchFrom(u, frame).frame == 0 && SwitchFrom(u, frame).k.current == u.current
  {
    var saved := u.slots[u.current := u.slots[u.current].(frame := frame)];
    assert forall j :: Eligible(saved, j) <==> Eligible(u.slots, j);
    NextReadyIsNearest(saved, u.current, 1);
  }

  /** Idle never holds on to the processor: the first tick after a slot became READY, or that wakes it, runs it. */
  lemma IdleTick(k: Kernel, frame: int)
    requires Inv(k) && frame != 0 && k.current == IDLE
    ensures if SomeoneWaits(k) then RunsNearest(k, OnTick(k, frame)) else Stays(k, OnTick(k, frame))
  {
    ChargeEffect(k);
    var t := TickCharged(k);
    var u := t.(slice := t.quantum);
    TickEffect(k, frame);
    NextReadyIsNearest(t.slots, IDLE, 1);
    ChargedWaiters(k, t);
    assert NextReady(t.slots, IDLE, 1) >= 0 <==> SomeoneWaits(k);
    assert SlotOk(k, IDLE);
    ChargedSwitch(k, t, frame);
    ChargedSwitch(k, u, frame);
  }

  /** Any other slot keeps the processor until its slice is used up, and for ever with preemption off. */
  lemma SliceTick(k: Kernel, frame: int)
    requires Inv(k) && frame != 0 && k.current != IDLE
    ensures var o := OnTick(k, frame);
            if !k.preempt then Stays(k, o) && o.k.slice == k.slice
            else if k.slice > 1 then Stays(k, o) && o.k.slice == k.slice - 1
            else if SomeoneWaits(k) then RunsNearest(k, o) && o.k.slice == k.quantum
            else if k.slots[k.current].status == Running then Stays(k, o) && o.k.slice == k.quantum
            else o.frame != 0 && o.k.current == IDLE
  {
    ChargeEffect(k);
    var t := TickCharged(k);
    var u := t.(slice := t.quantum);
    TickEffect(k, frame);
    ChargedSwitch(k, u, frame);
    SwitchEffect(u, frame);
  }

  /** A yield runs the first READY slot; without one a RUNNING caller goes on and any other gives way to idle. */
  lemma YieldDecides(k: Kernel, frame: int)
    requires Inv(k) && frame != 0
    ensures var o := OnYield(k, frame);
            && (forall p :: Waiting(k, p) ==>
                  Waiting(k, o.k.current) && o.frame == k.slots[o.k.current].frame != 0
                  && Dist(k.current, o.k.current) <= Dist(k.current, p))
            && ((forall p :: !Waiting(k, p)) ==>
                  if k.slots[k.current].status == Running then Stays(k, o) else o.frame != 0 && o.k.current == IDLE)
  {
    assert forall p :: Waiting(k, p) <==> Eligible(k.slots, p) && p != k.current;
    SwitchEffect(k, frame);
    if OnYield(k, frame).frame != 0 {
      SwitchTarget(k, frame);
    }
    assert SlotOk(k, k.current) && SlotOk(k, IDLE);
    if (forall p :: !Waiting(k, p)) && k.slots[k.current].status == Running {
      SwitchStays(k, frame);
    }
  }

  /** Slot i's counters after a step that charged one tick to slot `charged` (-1: to none). */
  predicate Counted(k: Kernel, o: Outcome, charged: int, i: int)
    requires |k.slots| == SLOTS && |o.k.slots| == SLOTS && 0 <= i < SLOTS
  {
    && o.k.slots[i].runtimeTicks ==
       (if i == charged then Wrap(k.slots[i].runtimeTicks + 1) else k.slots[i].runtimeTicks)
    && o.k.slots[i].switchCount ==
       (if o.frame != 0 && i == o.k.current then Wrap(k.slots[i].switchCount + 1) else k.slots[i].switchCount)
  }

  /** A switch is counted in the slot it resumes and nowhere else, and charges nobody. */
  lemma SwitchAccounts(k: Kernel, frame: int, i: int)
    requires Inv(k) && frame != 0 && 0 <= i < SLOTS
    ensures Counted(k, SwitchFrom(k, frame), -1, i)
  {
    SwitchEffect(k, frame);
  }

  lemma ChargeAccounts(k: Kernel, i: int)
    requires InRange(k) && 0 <= i < SLOTS
    ensures Counted(k, Outcome(TickCharged(k), 0), k.current, i)
  {
  }

  /** A tick is charged to the slot that was current and to no other. */
  lemma TickAccounts(k: Kernel, frame: int, i: int)
    requires Inv(k) && frame != 0 && 0 <= i < SLOTS
    ensures Counted(k, OnTick(k, frame), k.current, i)
  {
    ChargeAccounts(k, i);
    ChargeEffect(k);
    var t := TickCharged(k);
    TickEffect(k, frame);
    SwitchAccounts(t, frame, i);
    SwitchAccounts(t.(slice := t.quantum), frame, i);
  }

  /** A step out of idle runs a slot at or before p. */
  lemma LeavesIdleFor(k: Kernel, e: Event, p: int)
    requires Inv(k) && Legal(k, e) && k.current == IDLE && Waiting(k, p) && Step(k, e).k.current != IDLE
    ensures Dist(IDLE, Step(k, e).k.current) <= Dist(IDLE, p)
  {
    if e.Tick? {
      assert WillWait(k, p);
      IdleTick(k, e.frame);
    } else if e.Yield? {
      SwitchEffect(k, e.frame);
      SwitchTarget(k, e.frame);
      assert Eligible(k.slots, p);
    }
  }

  /** After the first n events, at most one of them a tick, a slot at or before p has the processor. */
  ghost predicate IdleEnded(k: Kernel, es: seq<Event>, n: nat, p: int)
    requires |k.slots| == SLOTS
  {
    && n <= |es| && Ticks(es[..n]) <= 1
    && Run(k, es[..n]).current != IDLE && Dist(IDLE, Run(k, es[..n]).current) <= Dist(IDLE, p)
  }

  lemma EndsNow(k: Kernel, es: seq<Event>, p: int)
    requires Inv(k) && es != [] && Legal(k, es[0]) && k.current == IDLE && Waiting(k, p)
    requires Step(k, es[0]).k.current != IDLE
    ensures IdleEnded(k, es, 1, p)
  {
    LeavesIdleFor(k, es[0], p);
    assert es[..1][1..] == [];
    assert Ticks([]) == 0;
  }

  lemma EndsLater(k: Kernel, es: seq<Event>, n: nat, p: int)
    requires |k.slots| == SLOTS && es != [] && !es[0].Tick? && IdleEnded(Step(k, es[0]).k, es[1..], n, p)
    ensures IdleEnded(k, es, n + 1, p)
  {
    assert es[..n + 1][1..] == es[1..][..n];
  }

  /** In idle with p waiting, a step that stays in idle is no tick and leaves p waiting. */
  lemma StaysInIdle(k: Kernel, e: Event, p: int)
    requires Inv(k) && Legal(k, e) && k.current == IDLE && Waiting(k, p) && e != Stop(p)
    requires Step(k, e).k.current == IDLE
    ensures Inv(Step(k, e).k) && Waiting(Step(k, e).k, p) && !e.Tick?
  {
    StepInv(k, e);
    StepBringsNearer(k, e, p);
    if e.Tick? {
      IdleTick(k, e.frame);
      assert WillWait(k, p);
    }
  }

  /**
   From idle, whether preemption is on or off, the first tick of any run gives the processor to a READY slot:
   to p or to one that comes before it.
   */
  lemma {:induction false} IdleEndsAtNextTick(k: Kernel, es: seq<Event>, p: int) returns (n: nat)
    requires Inv(k) && LegalRun(k, es) && k.current == IDLE && Waiting(k, p) && Undisturbed(es, p)
    requires Ticks(es) >= 1
    ensures IdleEnded(k, es, n, p)
    decreases |es|
  {
    var k1 := Step(k, es[0]).k;
    if k1.current != IDLE {
      n := 1;
      EndsNow(k, es, p);
    } else {
      StaysInIdle(k, es[0], p);
      var m := IdleEndsAtNextTick(k1, es[1..], p);
      EndsLater(k, es, m, p);
      n := m + 1;
    }
  }
}
