/** Context integrity: every activation resumes exactly what was last saved for that slot. */
module SchedulerContext {
  import opened Machine
  import opened KernelLayout
  import opened SchedulerModel
  import opened SchedulerSafety

  /** What an observer of the machine sees of the slots' execution contexts. */
  datatype Entry =
    | Spawned(slot: int, frame: int)
    | Suspended(slot: int, frame: int)
    | Activated(slot: int, frame: int)
    | Died(slot: int)

  /** A slot's execution is going on, saved in a frame, or over. */
  datatype Context = Live | Saved(frame: int) | Dead

  /** The discipline, independent of how slots are kept: None for a forbidden entry. */
  function Observe(c: Context, x: Entry): Option<Context> {
    match x
    case Spawned(_, f) => if c == Dead then Some(Saved(f)) else None
    case Suspended(_, f) => if c == Live then Some(Saved(f)) else None
    case Activated(_, f) => if c == Saved(f) then Some(Live) else None
    case Died(_) => if c != Dead then Some(Dead) else None
  }

  function Replay(cs: seq<Context>, log: seq<Entry>): Option<seq<Context>>
    decreases |log|
  {
    if log == [] then Some(cs)
    else if !(0 <= log[0].slot < |cs|) then None
    else
      match Observe(cs[log[0].slot], log[0])
      case None => None
      case Some(c) => Replay(cs[log[0].slot := c], log[1..])
  }

  function SwitchLog(k: Kernel, frame: int, o: Outcome): seq<Entry>
    requires InRange(k)
  {
    if o.frame == 0 then []
    else
      (if k.slots[k.current].status == Terminated then [] else [Suspended(k.current, frame)])
      + [Activated(o.k.current, o.frame)]
  }

  /** What a step shows: the frames the stub saved and resumed, spawns and deaths. */
  function Log(k: Kernel, e: Event): seq<Entry>
    requires InRange(k)
  {
    var o := Step(k, e);
    match e
    case Tick(f) => SwitchLog(k, f, o)
    case Yield(f) => SwitchLog(k, f, o)
    case ExitInterrupt(f) =>
      [Died(k.current)] + (if o.frame == 0 then [] else [Activated(o.k.current, o.frame)])
    case Exit => [Died(k.current)]
    case Stop(pid) => if Killable(k, pid) then [Died(pid)] else []
    case Start(r, first) =>
      var idx := SpawnSlot(k, r, first);
      if idx < 0 then [] else [Spawned(idx, FreshFrame(idx))]
    case _ => []
  }

  function RunLog(k: Kernel, es: seq<Event>): seq<Entry>
    requires InRange(k) && LegalRun(k, es)
    decreases |es|
  {
    if es == [] then [] else Log(k, es[0]) + RunLog(Step(k, es[0]).k, es[1..])
  }

  /** The context a slot is in, read off the kernel state. */
  function ContextOf(k: Kernel, i: int): Context
    requires InRange(k) && 0 <= i < SLOTS
  {
    var p := k.slots[i];
    if Free(p) then Dead
    else if i == k.current then Live
    else Saved(p.frame)
  }

  function Contexts(k: Kernel): seq<Context>
    requires InRange(k)
  {
    seq(SLOTS, i requires 0 <= i < SLOTS => ContextOf(k, i))
  }

  lemma {:induction false} ReplayAppend(cs: seq<Context>, a: seq<Entry>, b: seq<Entry>)
    ensures Replay(cs, a + b) == match Replay(cs, a)
                                 case None => None
                                 case Some(ds) => Replay(ds, b)
    decreases |a|
  {
    if a == [] {
      assert a + b == b;
    } else {
      assert (a + b)[1..] == a[1..] + b;
      if 0 <= a[0].slot < |cs| {
        match Observe(cs[a[0].slot], a[0])
        case None =>
        case Some(c) => ReplayAppend(cs[a[0].slot := c], a[1..], b);
      }
    }
  }

  lemma ReplayOne(cs: seq<Context>, x: Entry, c: Context)
    requires 0 <= x.slot < |cs| && Observe(cs[x.slot], x) == Some(c)
    ensures Replay(cs, [x]) == Some(cs[x.slot := c])
  {
    assert [x][1..] == [];
  }

  lemma ReplayTwo(cs: seq<Context>, x: Entry, c: Context, y: Entry, d: Context)
    requires 0 <= x.slot < |cs| && Observe(cs[x.slot], x) == Some(c)
    requires 0 <= y.slot < |cs| && Observe(cs[x.slot := c][y.slot], y) == Some(d)
    ensures Replay(cs, [x, y]) == Some(cs[x.slot := c][y.slot := d])
  {
    ReplayOne(cs, x, c);
    ReplayOne(cs[x.slot := c], y, d);
    assert [x, y] == [x] + [y];
    ReplayAppend(cs, [x], [y]);
  }

  lemma SwitchIsObserved(k: Kernel, frame: int)
    requires Inv(k) && frame != 0
    ensures var o := SwitchFrom(k, frame);
            InRange(o.k) && Replay(Contexts(k), SwitchLog(k, frame, o)) == Some(Contexts(o.k))
  {
    SwitchEffect(k, frame);
    var o := SwitchFrom(k, frame);
    var cs := Contexts(k);
    var cur, next := k.current, o.k.current;
    if o.frame == 0 {
      assert Contexts(o.k) == cs;
    } else if k.slots[cur].status == Terminated {
      ReplayOne(cs, Activated(next, o.frame), Live);
      assert Contexts(o.k) == cs[next := Live];
    } else {
      assert SlotOk(k, cur);
      ReplayTwo(cs, Suspended(cur, frame), Saved(frame), Activated(next, o.frame), Live);
      assert Contexts(o.k) == cs[cur := Saved(frame)][next := Live];
    }
  }

  lemma ChargeIsUnobserved(k: Kernel)
    requires Inv(k)
    ensures var t := TickCharged(k);
            Contexts(t) == Contexts(k) && Free(t.slots[t.current]) == Free(k.slots[k.current])
            && (t.slots[t.current].status == Terminated <==> k.slots[k.current].status == Terminated)
  {
    ChargeEffect(k);
  }

  lemma TickIsObserved(k: Kernel, frame: int)
    requires Inv(k) && frame != 0
    ensures var o := OnTick(k, frame);
            InRange(o.k) && Replay(Contexts(k), SwitchLog(k, frame, o)) == Some(Contexts(o.k))
  {
    TickEffect(k, frame);
    ChargeIsUnobserved(k);
    var t := TickCharged(k);
    var u := t.(slice := t.quantum);
    assert Contexts(u) == Contexts(t);
    var o := OnTick(k, frame);
    if o == SwitchFrom(u, frame) {
      SwitchIsObserved(u, frame);
    } else if o == SwitchFrom(t, frame) {
      SwitchIsObserved(t, frame);
    } else {
      assert Contexts(o.k) == Contexts(t);
    }
  }

  lemma ExitIsObserved(k: Kernel, frame: int)
    requires Inv(k) && frame != 0 && k.current != IDLE && k.slots[k.current].status == Running
    ensures var o := OnExitInterrupt(k, frame);
            InRange(o.k) && Replay(Contexts(k), Log(k, ExitInterrupt(frame))) == Some(Contexts(o.k))
  {
    ExitEffect(k, frame);
    var o := OnExitInterrupt(k, frame);
    var cs := Contexts(k);
    ReplayTwo(cs, Died(k.current), Dead, Activated(o.k.current, o.frame), Live);
    assert Contexts(o.k) == cs[k.current := Dead][o.k.current := Live];
    assert Log(k, ExitInterrupt(frame)) == [Died(k.current), Activated(o.k.current, o.frame)];
  }

  /**
   A spawn is harmless if and only if it does not take the spawner's own slot: then it starts a context in
   a dead slot, changes no other and keeps the invariant.
   */
  lemma SpawnIsObserved(k: Kernel, r: Request, first: int)
    requires Inv(k)
    ensures Replay(Contexts(k), Log(k, Start(r, first))) == Some(Contexts(Spawn(k, r, first)))
       <==> SpawnSlot(k, r, first) != k.current
    ensures SpawnSlot(k, r, first) != k.current ==> Inv(Spawn(k, r, first))
    ensures SpawnSlot(k, r, first) == k.current ==> k.slots[k.current].status == Terminated
  {
    FreeFromIsLeast(k.slots, if first < IDLE + 1 then IDLE + 1 else first);
    var idx, s := SpawnSlot(k, r, first), Spawn(k, r, first);
    assert SlotOk(k, k.current);
    if idx >= 0 {
      ReplayOne(Contexts(k), Spawned(idx, FreshFrame(idx)), Saved(FreshFrame(idx)));
      assert Contexts(s)[idx] == (if idx == k.current then Live else Saved(FreshFrame(idx)));
      assert idx != k.current ==> Contexts(s) == Contexts(k)[idx := Saved(FreshFrame(idx))];
    }
    if idx != k.current {
      SpawnKeepsInv(k, r, first);
    }
  }

  lemma DeathIsObserved(k: Kernel, i: int)
    requires InRange(k) && 0 <= i < SLOTS && !Free(k.slots[i])
    ensures Replay(Contexts(k), [Died(i)]) == Some(Contexts(SetStatus(k, i, Terminated)))
  {
    ReplayOne(Contexts(k), Died(i), Dead);
    assert Contexts(SetStatus(k, i, Terminated)) == Contexts(k)[i := Dead];
  }

  lemma StepIsObserved(k: Kernel, e: Event)
    requires Inv(k) && Legal(k, e)
    ensures InRange(Step(k, e).k)
    ensures Replay(Contexts(k), Log(k, e)) == Some(Contexts(Step(k, e).k))
  {
    StepInv(k, e);
    match e
    case Tick(f) => TickIsObserved(k, f);
    case Yield(f) => SwitchIsObserved(k, f);
    case ExitInterrupt(f) => ExitIsObserved(k, f);
    case Exit => DeathIsObserved(k, k.current);
    case Stop(pid) => if Killable(k, pid) { DeathIsObserved(k, pid); }
    case Start(r, first) => SpawnIsObserved(k, r, first);
    case _ => assert Contexts(Step(k, e).k) == Contexts(k);
  }

  /** The observable log of every legal run follows the context discipline. */
  lemma {:induction false} RunIsDisciplined(k: Kernel, es: seq<Event>)
    requires Inv(k) && LegalRun(k, es)
    ensures InRange(Run(k, es))
    ensures Replay(Contexts(k), RunLog(k, es)) == Some(Contexts(Run(k, es)))
    decreases |es|
  {
    if es != [] {
      var k1 := Step(k, es[0]).k;
      StepInv(k, es[0]);
      StepIsObserved(k, es[0]);
      RunIsDisciplined(k1, es[1..]);
      ReplayAppend(Contexts(k), Log(k, es[0]), RunLog(k1, es[1..]));
    }
  }

  /** Entry m of the log put `frame` into slot i and nothing later touches the slot. */
  predicate LastSaved(log: seq<Entry>, i: int, frame: int, m: int) {
    && 0 <= m < |log|
    && (log[m] == Spawned(i, frame) || log[m] == Suspended(i, frame))
    && forall j :: m < j < |log| ==> log[j].slot != i
  }

  /** After a disciplined log, a slot that is Saved(f) was saved with f by the last entry about it. */
  lemma {:induction false} SavedComesFromTheLog(cs: seq<Context>, log: seq<Entry>, i: int) returns (m: int)
    requires 0 <= i < |cs| && Replay(cs, log).Some? && |Replay(cs, log).value| == |cs|
    requires Replay(cs, log).value[i].Saved?
    ensures m == -1 ==> cs[i] == Replay(cs, log).value[i] && forall j :: 0 <= j < |log| ==> log[j].slot != i
    ensures m != -1 ==> LastSaved(log, i, Replay(cs, log).value[i].frame, m)
    decreases |log|
  {
    if log == [] {
      m := -1;
    } else {
      var x := log[0];
      var ds := cs[x.slot := Observe(cs[x.slot], x).value];
      var n := SavedComesFromTheLog(ds, log[1..], i);
      if n != -1 {
        m := n + 1;
        assert forall j :: m < j < |log| ==> log[j] == log[1..][j - 1];
      } else {
        assert forall j :: 1 <= j < |log| ==> log[j] == log[1..][j - 1];
        m := if x.slot == i then 0 else -1;
      }
    }
  }

  lemma {:induction false} ReplayLength(cs: seq<Context>, log: seq<Entry>)
    ensures Replay(cs, log).Some? ==> |Replay(cs, log).value| == |cs|
    decreases |log|
  {
    if log != [] && 0 <= log[0].slot < |cs| && Observe(cs[log[0].slot], log[0]).Some? {
      ReplayLength(cs[log[0].slot := Observe(cs[log[0].slot], log[0]).value], log[1..]);
    }
  }

  /**
   In the log of a run, an activation of slot i with frame f is preceded by a suspension or spawn of i
   with the same f, with no other entry about i in between: in particular i has not died and f has not
   been resumed before.  (m == -1: slot i already was suspended with f when the run began.)
   */
  lemma ActivationResumesLastSave(k: Kernel, es: seq<Event>, j: int) returns (m: int)
    requires Inv(k) && LegalRun(k, es)
    requires 0 <= j < |RunLog(k, es)| && RunLog(k, es)[j].Activated?
    ensures var log := RunLog(k, es);
            && 0 <= log[j].slot < SLOTS
            && (m == -1 ==> Contexts(k)[log[j].slot] == Saved(log[j].frame)
                            && forall h :: 0 <= h < j ==> log[h].slot != log[j].slot)
            && (m != -1 ==> LastSaved(log[..j], log[j].slot, log[j].frame, m))
  {
    var log := RunLog(k, es);
    var cs := Contexts(k);
    RunIsDisciplined(k, es);
    assert log == log[..j] + log[j..];
    ReplayAppend(cs, log[..j], log[j..]);
    ReplayLength(cs, log[..j]);
    m := SavedComesFromTheLog(cs, log[..j], log[j].slot);
    assert forall h :: 0 <= h < j ==> log[h] == log[..j][h];
  }

  /**
   What goes wrong when a spawn takes the spawner's own slot: the spawner's trap overwrites the new task's
   first frame, so the slot later resumes the dead task.
   */
  lemma SpawnIntoOwnSlotLosesFrame(k: Kernel, r: Request, first: int, frame: int)
    requires Inv(k) && SpawnSlot(k, r, first) == k.current && frame != 0
    ensures Spawn(k, r, first).slots[k.current].frame == FreshFrame(k.current)
    ensures var z := OnYield(Spawn(k, r, first), frame).k;
            && z.current != k.current
            && z.slots[k.current].status == Ready && z.slots[k.current].frame == frame
  {
    FreeFromIsLeast(k.slots, if first < IDLE + 1 then IDLE + 1 else first);
    var s := Spawn(k, r, first);
    assert SlotOk(k, IDLE);
    NextReadyIsNearest(s.slots, s.current, 1);
    NextReadyIsNearest(s.slots[s.current := s.slots[s.current].(frame := frame)], s.current, 1);
  }

  /** The first task spawned after initialization takes slot 3, and a yield runs it. */
  lemma FirstTaskRuns(ticks: int, preempt: bool, kernelDir: int, idleEntry: int, r: Request, frame: int)
    returns (k: Kernel)
    requires 0 <= ticks < U32 && kernelDir != 0 && frame != 0 && r.named && r.entry != 0
    ensures var boot := Boot(ticks, preempt, kernelDir, idleEntry);
            var es := [Start(r, EXTERNAL_PID_MIN), Yield(frame)];
            && Inv(boot) && LegalRun(boot, es) && k == Run(boot, es)
    ensures Inv(k) && k.current == EXTERNAL_PID_MIN && k.slots[k.current].status == Running
  {
    BootInv(ticks, preempt, kernelDir, idleEntry);
    var k0 := Boot(ticks, preempt, kernelDir, idleEntry);
    var e1, e2 := Start(r, EXTERNAL_PID_MIN), Yield(frame);
    assert k0.slots[BOOT].status == Running && k0.slots[3].status == Unused;
    assert FreeFrom(k0.slots, 3) == 3;
    StepInv(k0, e1);
    var k1 := Step(k0, e1).k;
    assert k1.slots[2].status == Unused && Eligible(k1.slots, 3);
    StepInv(k1, e2);
    SwitchEffect(k1, frame);
    SwitchTarget(k1, frame);
    k := Step(k1, e2).k;
    RunCons(k1, e2, []);
    RunCons(k0, e1, [e2]);
    assert [e1] + [e2] == [e1, e2] && [e2] + [] == [e2];
  }

  /** A run of four calls gets there: spawn a task, yield to it, let it exit, spawn again before its trap. */
  lemma OwnSlotIsReachable(ticks: int, preempt: bool, kernelDir: int, idleEntry: int, r: Request, frame: int)
    requires 0 <= ticks < U32 && kernelDir != 0 && frame != 0 && r.named && r.entry != 0
    ensures var boot := Boot(ticks, preempt, kernelDir, idleEntry);
            var es := [Start(r, EXTERNAL_PID_MIN), Yield(frame)] + [Exit];
            && Inv(boot) && LegalRun(boot, es) && Inv(Run(boot, es))
            && SpawnSlot(Run(boot, es), r, EXTERNAL_PID_MIN) == Run(boot, es).current == EXTERNAL_PID_MIN
  {
    var k := FirstTaskRuns(ticks, preempt, kernelDir, idleEntry, r, frame);
    var boot, es := Boot(ticks, preempt, kernelDir, idleEntry), [Start(r, EXTERNAL_PID_MIN), Yield(frame)];
    StepInv(k, Exit);
    var z := Step(k, Exit).k;
    assert FreeFrom(z.slots, 3) == 3;
    RunCons(k, Exit, []);
    assert [Exit] + [] == [Exit];
    RunAppend(boot, es, [Exit]);
  }
}
