/** The guard pages below the kernel stacks, in the kernel directory and in every application's. */
module GuardPages {
  import opened Machine
  import opened KernelLayout
  import P = Paging
  import A = AddressSpaces

  /** Memory after the guard pages of slots 1..n-1 have been unmapped, in that order. */
  function UnmapGuards(m: P.Mem, l: P.Layout, n: int): (m': P.Mem)
    requires P.Frames(m) && l.dir in m && n <= SLOTS
    ensures P.Frames(m') && l.dir in m'
    decreases n, l
  {
    if n <= IDLE then m
    else
      GuardAddresses(n - 1);
      A.UnmapPage(UnmapGuards(m, l, n - 1), l, GuardBase(n - 1))
  }

  lemma GuardAddresses(i: int)
    requires IDLE <= i < SLOTS
    ensures P.Address(GuardBase(i)) && GuardBase(i) % PAGE == 0
    ensures forall v :: GuardBase(i) <= v < StackTop(i) ==> P.Address(v) && P.PdIndex(v) == 1
  {
  }

  predicate InGuard(v: int, n: int) {
    exists i :: IDLE <= i < n && GuardBase(i) <= v < StackBase(i)
  }

  lemma InGuardStep(v: int, n: int)
    requires IDLE < n <= SLOTS
    ensures InGuard(v, n) <==> v / PAGE == GuardBase(n - 1) / PAGE || InGuard(v, n - 1)
  {
    GuardAddresses(n - 1);
    assert v / PAGE == GuardBase(n - 1) / PAGE <==> GuardBase(n - 1) <= v < StackBase(n - 1);
    if InGuard(v, n) {
      var i :| IDLE <= i < n && GuardBase(i) <= v < StackBase(i);
      assert i == n - 1 || InGuard(v, n - 1);
    }
  }

  lemma {:induction false} GuardsTranslation(m: P.Mem, l: P.Layout, n: int, v: int)
    requires P.KernelOk(m, l) && n <= SLOTS && P.Address(v)
    ensures P.KernelOk(UnmapGuards(m, l, n), l)
    ensures P.Translate(UnmapGuards(m, l, n), l.dir, v) == if InGuard(v, n) then None else P.Translate(m, l.dir, v)
    decreases n
  {
    if n > IDLE {
      GuardsTranslation(m, l, n - 1, v);
      GuardAddresses(n - 1);
      A.UnmapTranslation(UnmapGuards(m, l, n - 1), l, GuardBase(n - 1), v);
      InGuardStep(v, n);
    }
  }

  /** All of low memory is mapped, as paging_setup_structures leaves it. */
  ghost predicate LowMapped(m: P.Mem, l: P.Layout)
    requires P.KernelOk(m, l)
  {
    forall v :: 0 <= v < P.LOW_TABLES * P.REGION ==> P.Translate(m, l.dir, v).Some?
  }

  lemma SetUpMapsLow(m: P.Mem, l: P.Layout, start: int, end: int)
    requires P.JustSetUp(m, l, start, end)
    ensures P.KernelOk(m, l) && LowMapped(m, l)
  {
    P.SetUpIsOk(m, l, start, end);
    forall v | 0 <= v < P.LOW_TABLES * P.REGION
      ensures P.Translate(m, l.dir, v).Some?
    {
      P.KernelTranslation(m, l, start, end, v);
    }
  }

  /** With low memory mapped, arming guards leaves every stack page present. */
  lemma StackStaysPresent(m: P.Mem, l: P.Layout, idx: int, n: int, v: int)
    requires P.KernelOk(m, l) && LowMapped(m, l) && IDLE <= idx < SLOTS && n <= SLOTS
    requires StackBase(idx) <= v < StackTop(idx)
    ensures P.Address(v) && P.KernelOk(UnmapGuards(m, l, n), l)
    ensures P.Translate(UnmapGuards(m, l, n), l.dir, v).Some?
  {
    GuardAddresses(idx);
    StackIsNoGuard(idx, v);
    GuardsTranslation(m, l, n, v);
  }

  /** With low memory mapped, arming slot idx's guard finds its table. */
  lemma GuardTableIsPresent(m: P.Mem, l: P.Layout, idx: int)
    requires P.KernelOk(m, l) && LowMapped(m, l) && IDLE <= idx < SLOTS
    ensures P.Address(GuardBase(idx))
    ensures A.TablePresent(UnmapGuards(m, l, idx), l, GuardBase(idx))
  {
    GuardAddresses(idx);
    StackStaysPresent(m, l, idx, idx, StackBase(idx));
    P.IndexRange(StackBase(idx));
  }

  lemma GuardStepSucceeds(m: P.Mem, l: P.Layout, idx: int)
    requires P.KernelOk(m, l) && IDLE <= idx < SLOTS
    ensures P.Address(GuardBase(idx))
    ensures P.KernelOk(UnmapGuards(m, l, idx + 1), l)
    ensures P.Translate(UnmapGuards(m, l, idx + 1), l.dir, GuardBase(idx)) == None
  {
    GuardAddresses(idx);
    assert InGuard(GuardBase(idx), idx + 1);
    GuardsTranslation(m, l, idx + 1, GuardBase(idx));
  }

  lemma StackIsNoGuard(idx: int, v: int)
    requires IDLE <= idx < SLOTS && StackBase(idx) <= v < StackTop(idx)
    ensures forall n :: n <= SLOTS ==> !InGuard(v, n)
  {
    forall j | IDLE <= j < SLOTS
      ensures !(GuardBase(j) <= v < StackBase(j))
    {
      RegionsAreDisjoint(idx, j, v);
    }
  }

  /** Arming the guards on a freshly set-up kernel leaves every stack page mapped to itself. */
  lemma GuardedStacks(m: P.Mem, l: P.Layout, start: int, end: int, i: int, v: int)
    requires P.JustSetUp(m, l, start, end) && IDLE <= i < SLOTS && GuardBase(i) <= v < StackTop(i)
    ensures P.KernelOk(UnmapGuards(m, l, SLOTS), l) && P.Address(v)
    ensures P.Translate(UnmapGuards(m, l, SLOTS), l.dir, v) ==
            if v < StackBase(i) then None else Some(P.Mapping(v, false, true))
  {
    P.SetUpIsOk(m, l, start, end);
    GuardAddresses(i);
    GuardsTranslation(m, l, SLOTS, v);
    P.KernelTranslation(m, l, start, end, v);
    forall j | IDLE <= j < SLOTS && GuardBase(j) <= v < StackBase(j)
      ensures j == i
    {
      RegionsAreDisjoint(i, j, v);
    }
  }

  /** Every guard page faults and every stack page is mapped to itself. */
  ghost predicate StacksGuarded(m: P.Mem, l: P.Layout) {
    && P.KernelOk(m, l)
    && forall i, v :: IDLE <= i < SLOTS && GuardBase(i) <= v < StackTop(i) && P.Address(v) ==>
         P.Translate(m, l.dir, v) == if v < StackBase(i) then None else Some(P.Mapping(v, false, true))
  }

  lemma AllStacksGuarded(m: P.Mem, l: P.Layout, start: int, end: int)
    requires P.JustSetUp(m, l, start, end)
    ensures P.KernelOk(m, l) && LowMapped(m, l)
    ensures StacksGuarded(UnmapGuards(m, l, SLOTS), l)
  {
    SetUpMapsLow(m, l, start, end);
    var m1 := UnmapGuards(m, l, SLOTS);
    forall i, v | IDLE <= i < SLOTS && GuardBase(i) <= v < StackTop(i)
      ensures P.KernelOk(m1, l) && P.Address(v)
      ensures P.Translate(m1, l.dir, v) == if v < StackBase(i) then None else Some(P.Mapping(v, false, true))
    {
      GuardedStacks(m, l, start, end, i, v);
    }
    GuardedStacks(m, l, start, end, IDLE, GuardBase(IDLE));
  }

  /**
   Once armed, the guard pages fault in the kernel directory and in every application directory, built
   before or after, over any further unmaps and builds.
   */
  lemma GuardsFaultForever(s: A.Spaces, l: P.Layout, ops: seq<A.Op>, i: int, v: int)
    requires A.SpacesOk(s, l) && IDLE <= i < SLOTS && GuardBase(i) <= v < StackBase(i)
    requires A.LegalOps(A.Spaces(UnmapGuards(s.m, l, SLOTS), s.apps), l, ops)
    ensures P.Address(v)
    ensures A.SpacesOk(A.ApplyAll(A.Spaces(UnmapGuards(s.m, l, SLOTS), s.apps), l, ops), l)
    ensures A.UnmappedEverywhere(A.ApplyAll(A.Spaces(UnmapGuards(s.m, l, SLOTS), s.apps), l, ops), l, v)
  {
    GuardsKeepSpaces(s, l, SLOTS);
    GuardAddresses(i);
    GuardsTranslation(s.m, l, SLOTS, v);
    A.GuardStaysUnmapped(A.Spaces(UnmapGuards(s.m, l, SLOTS), s.apps), l, ops, v);
  }

  /** Arming the guards leaves every application directory intact. */
  lemma {:induction false} GuardsKeepSpaces(s: A.Spaces, l: P.Layout, n: int)
    requires A.SpacesOk(s, l) && n <= SLOTS
    ensures A.SpacesOk(A.Spaces(UnmapGuards(s.m, l, n), s.apps), l)
    decreases n
  {
    if n > IDLE {
      GuardsKeepSpaces(s, l, n - 1);
      GuardAddresses(n - 1);
      A.ApplyOk(A.Spaces(UnmapGuards(s.m, l, n - 1), s.apps), l, A.Unmap(GuardBase(n - 1)));
    }
  }
}
