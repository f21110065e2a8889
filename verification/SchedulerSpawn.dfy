/** What a spawned task is given, and that it keeps it for as long as it lives. */
module SchedulerSpawn {
  import opened KernelLayout
  import opened SchedulerModel
  import opened SchedulerSafety

  /** The directory a task runs in when its spawner passes `pageDir`; 0 stands for the kernel's own. */
  function DirectoryFor(k: Kernel, pageDir: int): int { if pageDir == 0 then k.kernelDir else pageDir }

  /** Slot idx is alive with the entry point, argument and address space that were asked for. */
  predicate RunsFor(k: Kernel, idx: int, entry: int, arg: int, dir: int)
    requires |k.slots| == SLOTS && 0 <= idx < SLOTS
  {
    !Free(k.slots[idx]) && k.slots[idx].entry == entry && k.slots[idx].arg == arg && k.slots[idx].pageDir == dir
  }

  /** Slot j may be taken by a spawn that starts looking at `first`; slots 0 and 1 never are. */
  predicate Takeable(k: Kernel, first: int, j: int)
    requires |k.slots| == SLOTS
  {
    2 <= j < SLOTS && first <= j && (k.slots[j].status == Unused || k.slots[j].status == Terminated)
  }

  /**
   A spawn with a name and an entry point takes the least slot it may take, and is refused only when there is
   none.  The slot is READY with a fresh frame, with what was asked for; no other slot changes.
   */
  lemma SpawnGives(k: Kernel, r: Request, first: int)
    requires |k.slots| == SLOTS
    ensures var idx, s := SpawnSlot(k, r, first), Spawn(k, r, first);
            if !r.named || r.entry == 0 || forall j :: !Takeable(k, first, j) then idx == -1 && s == k
            else
              && Takeable(k, first, idx) && (forall j :: Takeable(k, first, j) ==> idx <= j)
              && s.slots[idx].status == Ready && RunsFor(s, idx, r.entry, r.arg, DirectoryFor(k, r.pageDir))
              && s.slots[idx].pid == idx && s.slots[idx].frame == FreshFrame(idx)
              && s.slots[idx].wakeTick == s.slots[idx].runtimeTicks == s.slots[idx].switchCount == 0
              && s == k.(slots := k.slots[idx := s.slots[idx]])
  {
    var from := if first < IDLE + 1 then IDLE + 1 else first;
    FreeFromIsLeast(k.slots, from);
    assert forall j :: Takeable(k, first, j) <==> from <= j < SLOTS && Free(k.slots[j]);
  }

  /** The events of a run leave slot idx alive: nobody kills or clears it, and it does not exit. */
  predicate LivesOn(k: Kernel, es: seq<Event>, idx: int)
    requires |k.slots| == SLOTS
    decreases |es|
  {
    es == [] || (!Ends(k, es[0], idx) && LivesOn(Step(k, es[0]).k, es[1..], idx))
  }

  predicate Ends(k: Kernel, e: Event, idx: int) {
    e == Stop(idx) || e == Clear(idx) || (k.current == idx && (e.Exit? || e.ExitInterrupt?))
  }

  lemma SwitchKeepsTask(k: Kernel, frame: int, idx: int, entry: int, arg: int, dir: int)
    requires Inv(k) && frame != 0 && 0 <= idx < SLOTS && RunsFor(k, idx, entry, arg, dir)
    ensures RunsFor(SwitchFrom(k, frame).k, idx, entry, arg, dir)
  {
    SwitchEffect(k, frame);
  }

  lemma StepKeepsTask(k: Kernel, e: Event, idx: int, entry: int, arg: int, dir: int)
    requires Inv(k) && Legal(k, e) && 0 <= idx < SLOTS && RunsFor(k, idx, entry, arg, dir) && !Ends(k, e, idx)
    ensures RunsFor(Step(k, e).k, idx, entry, arg, dir)
  {
    match e
    case Tick(f) =>
      TickEffect(k, f);
      ChargeEffect(k);
      var t := TickCharged(k);
      assert RunsFor(t, idx, entry, arg, dir);
      SwitchKeepsTask(t, f, idx, entry, arg, dir);
      SwitchKeepsTask(t.(slice := t.quantum), f, idx, entry, arg, dir);
    case Yield(f) => SwitchKeepsTask(k, f, idx, entry, arg, dir);
    case ExitInterrupt(f) => ExitEffect(k, f);
    case Start(r, first) => FreeFromIsLeast(k.slots, if first < IDLE + 1 then IDLE + 1 else first);
    case _ =>
  }

  ghost predicate StillRunsFor(k: Kernel, es: seq<Event>, idx: int, entry: int, arg: int, dir: int)
    requires |k.slots| == SLOTS && 0 <= idx < SLOTS
  {
    Inv(Run(k, es)) && RunsFor(Run(k, es), idx, entry, arg, dir)
  }

  lemma StillAfterStep(k: Kernel, es: seq<Event>, idx: int, entry: int, arg: int, dir: int)
    requires |k.slots| == SLOTS && 0 <= idx < SLOTS && es != []
    requires StillRunsFor(Step(k, es[0]).k, es[1..], idx, entry, arg, dir)
    ensures StillRunsFor(k, es, idx, entry, arg, dir)
  {
  }

  lemma {:induction false} RunKeepsTask(k: Kernel, es: seq<Event>, idx: int, entry: int, arg: int, dir: int)
    requires Inv(k) && LegalRun(k, es) && 0 <= idx < SLOTS && RunsFor(k, idx, entry, arg, dir) && LivesOn(k, es, idx)
    ensures StillRunsFor(k, es, idx, entry, arg, dir)
    decreases |es|
  {
    if es != [] {
      StepInv(k, es[0]);
      StepKeepsTask(k, es[0], idx, entry, arg, dir);
      RunKeepsTask(Step(k, es[0]).k, es[1..], idx, entry, arg, dir);
      StillAfterStep(k, es, idx, entry, arg, dir);
    }
  }

  /**
   From the spawn on, over any run that does not end it, the task keeps its entry point and argument, and
   whenever it has the processor the directory its spawner passed is loaded and its own stack is set.
   */
  lemma TaskRunsInItsDirectory(k: Kernel, r: Request, first: int, es: seq<Event>)
    requires Inv(k) && 0 <= SpawnSlot(k, r, first) < SLOTS && SpawnSlot(k, r, first) != k.current
    requires var s := Spawn(k, r, first);
             InRange(s) && LegalRun(s, es) && LivesOn(s, es, SpawnSlot(k, r, first))
    ensures var idx, z := SpawnSlot(k, r, first), Run(Spawn(k, r, first), es);
            && z.slots[idx].entry == r.entry && z.slots[idx].arg == r.arg
            && (z.current == idx ==>
                  z.cr3 == (if r.pageDir == 0 then k.kernelDir else r.pageDir) && z.esp0 == StackTop(idx))
  {
    var idx, s, dir := SpawnSlot(k, r, first), Spawn(k, r, first), DirectoryFor(k, r.pageDir);
    SpawnGives(k, r, first);
    SpawnKeepsInv(k, r, first);
    RunKeepsTask(s, es, idx, r.entry, r.arg, dir);
    assert SlotOk(Run(s, es), idx);
  }

  /**
   A kill is refused exactly for idle, boot, slots out of range and slots not in use; otherwise the slot is dead,
   without entry point, argument, wake tick or directory of its own, and nothing else changes.
   */
  lemma KillEffect(k: Kernel, pid: int)
    requires Inv(k)
    ensures Killable(k, pid) <==>
            2 <= pid < SLOTS &&
            (k.slots[pid].status == Ready || k.slots[pid].status == Running || k.slots[pid].status == Blocked)
    ensures !Killable(k, pid) ==> Kill(k, pid) == k
    ensures Killable(k, pid) ==>
              var p := Kill(k, pid).slots[pid];
              && p.status == Terminated && p.pageDir == k.kernelDir
              && p.entry == p.arg == p.userEsp == p.wakeTick == 0
              && p.frame == k.slots[pid].frame && Kill(k, pid) == k.(slots := k.slots[pid := p])
  {
    if Killable(k, pid) {
      assert Kill(k, pid).slots == k.slots[pid := Kill(k, pid).slots[pid]];
    }
  }

  /** An exit from interrupt leaves the slot as a kill would, with the frame it was interrupted at. */
  lemma ExitClears(k: Kernel, frame: int)
    requires Inv(k) && frame != 0 && k.current != IDLE
    ensures var p := OnExitInterrupt(k, frame).k.slots[k.current];
            && p.status == Terminated && p.pageDir == k.kernelDir && p.frame == frame
            && p.entry == p.arg == p.userEsp == p.wakeTick == 0
  {
    ExitEffect(k, frame);
  }
}
