/** Application directories over the shared kernel tables, and what any run of unmaps and builds keeps. */
module AddressSpaces {
  import opened Machine
  import opened Paging

  // ----- the two operations on memory

  predicate TablePresent(m: Mem, l: Layout, addr: int)
    requires Frames(m) && l.dir in m && Address(addr)
  {
    IndexRange(addr);
    Present(m[l.dir][PdIndex(addr)])
  }

  /** Clear the entry of `addr`'s page in whatever table the kernel directory names. */
  function UnmapPage(m: Mem, l: Layout, addr: int): Mem
    requires Frames(m) && l.dir in m && Address(addr)
  {
    IndexRange(addr);
    var t := FrameOf(m[l.dir][PdIndex(addr)]);
    if !TablePresent(m, l, addr) || t !in m then m else m[t := m[t][PtIndex(addr) := 0]]
  }

  /** An application image: where it lies, where it is to appear, how many bytes. */
  datatype Window = Window(phys: int, virt: int, bytes: int)

  predicate WindowArgs(w: Window) { Address(w.phys) && Address(w.virt) && Address(w.bytes) }

  function PageCount(bytes: int): int { Wrap(bytes + 0xFFF) / PAGE }

  predicate Accepts(m: Mem, l: Layout, pd: int, pt: int, w: Window)
    requires Frames(m) && l.dir in m && WindowArgs(w)
  {
    IndexRange(w.virt);
    && pd != 0 && pt != 0
    && w.bytes != 0 && w.bytes <= APP_SLOT_BYTES
    && PageCount(w.bytes) <= ENTRIES
    && Aligned(w.phys) && Aligned(w.virt)
    && PtIndex(w.virt) + PageCount(w.bytes) <= ENTRIES
    && PdIndex(w.virt) >= LOW_TABLES
    && m[l.dir][PdIndex(w.virt)] == 0
  }

  /** The bytes of an image rounded up to whole pages. */
  function RoundedUp(bytes: int): int { (bytes + 4095) / 4096 * 4096 }

  /**
   What a caller must bring for a build: both pointers, page-aligned bases, one to 4 MiB bytes, and a window of
   whole pages inside one 4 MiB region, above the low 16 MiB, that the kernel directory does not use.
   */
  predicate MayBuild(m: Mem, l: Layout, pd: int, pt: int, w: Window)
    requires Frames(m) && l.dir in m && WindowArgs(w)
  {
    && pd != 0 && pt != 0
    && w.phys % 4096 == 0 && w.virt % 4096 == 0
    && 0 < w.bytes <= 0x40_0000
    && 0x100_0000 <= w.virt && w.virt % 0x40_0000 + RoundedUp(w.bytes) <= 0x40_0000
    && m[l.dir][w.virt / 0x40_0000] == 0
  }

  /** The tests of the code decide exactly that. */
  lemma AcceptsIff(m: Mem, l: Layout, pd: int, pt: int, w: Window)
    requires Frames(m) && l.dir in m && WindowArgs(w)
    ensures Accepts(m, l, pd, pt, w) <==> MayBuild(m, l, pd, pt, w)
  {
    IndexRange(w.virt);
    if Aligned(w.virt) {
      assert w.virt % 0x40_0000 == PtIndex(w.virt) * PAGE;
    }
    if 0 < w.bytes <= 0x40_0000 {
      assert PageCount(w.bytes) * PAGE == RoundedUp(w.bytes);
    }
  }

  /** On a freshly set-up kernel every such window away from the framebuffer is accepted and built. */
  lemma BuildSucceedsAfterSetUp(m: Mem, l: Layout, start: int, end: int, pd: int, pt: int, w: Window)
    requires JustSetUp(m, l, start, end) && WindowArgs(w) && CallerFrames(m, l, pd, pt) && pd != 0 && pt != 0
    requires w.phys % 4096 == 0 && w.virt % 4096 == 0 && 0 < w.bytes <= 0x40_0000
    requires 0x100_0000 <= w.virt && w.virt % 0x40_0000 + RoundedUp(w.bytes) <= 0x40_0000
    requires w.virt / 0x40_0000 < start || end < w.virt / 0x40_0000
    ensures AppOk(BuildApp(m, l, pd, pt, w), l, App(pd, pt, w))
  {
    SetUpIsOk(m, l, start, end);
    IndexRange(w.virt);
    assert m[l.dir][w.virt / 0x40_0000] == 0;
    AcceptsIff(m, l, pd, pt, w);
    BuildMakesApp(m, l, pd, pt, w);
  }

  function UserEntry(w: Window, j: int): int {
    if PtIndex(w.virt) <= j < PtIndex(w.virt) + PageCount(w.bytes)
    then Wrap(w.phys + (j - PtIndex(w.virt)) * PAGE) + (PRESENT + RW + USER)
    else 0
  }

  function UserTable(w: Window): (t: seq<int>)
    ensures |t| == ENTRIES
  {
    seq(ENTRIES, j => UserEntry(w, j))
  }

  function BuildApp(m: Mem, l: Layout, pd: int, pt: int, w: Window): Mem
    requires Frames(m) && l.dir in m && WindowArgs(w)
  {
    IndexRange(w.virt);
    if Accepts(m, l, pd, pt, w)
    then m[pd := m[l.dir][PdIndex(w.virt) := pt + (PRESENT + RW + USER)]][pt := UserTable(w)]
    else m
  }

  // ----- directories that are in use

  datatype App = App(pd: int, pt: int, w: Window)

  predicate KernelFrame(l: Layout, a: int) { a == l.dir || a in l.low + l.fb }

  ghost predicate AppOk(m: Mem, l: Layout, a: App)
    requires Frames(m) && l.dir in m
  {
    && WindowArgs(a.w) && Accepts(m, l, a.pd, a.pt, a.w)
    && a.pd in m && a.pt in m && a.pd != a.pt && Aligned(a.pt)
    && !KernelFrame(l, a.pd) && !KernelFrame(l, a.pt)
    && (forall i :: 0 <= i < ENTRIES ==>
          m[a.pd][i] == if i == PdIndex(a.w.virt) then a.pt + (PRESENT + RW + USER) else m[l.dir][i])
    && m[a.pt] == UserTable(a.w)
  }

  /** The page-rounded window of an application. */
  predicate InWindow(w: Window, v: int) { w.virt <= v < w.virt + PageCount(w.bytes) * PAGE }

  /** The window is the byte count rounded up to whole pages, and stays inside one 4 MiB region. */
  lemma WindowIsRounded(m: Mem, l: Layout, a: App)
    requires Frames(m) && l.dir in m && WindowArgs(a.w) && Accepts(m, l, a.pd, a.pt, a.w)
    ensures a.w.bytes <= PageCount(a.w.bytes) * PAGE < a.w.bytes + PAGE
    ensures forall v :: InWindow(a.w, v) ==> PdIndex(v) == PdIndex(a.w.virt)
  {
    IndexRange(a.w.virt);
  }

  /** Page j of the window's region, when mapped, holds the matching page of the image. */
  lemma UserEntryMaps(w: Window, v: int)
    requires WindowArgs(w) && Aligned(w.phys) && Aligned(w.virt) && Address(v) && PdIndex(v) == PdIndex(w.virt)
    requires 0 <= PageCount(w.bytes)
    ensures var e := UserEntry(w, PtIndex(v));
            && (Present(e) <==> InWindow(w, v))
            && (InWindow(w, v) ==> UserBit(e) && Writable(e) && FrameOf(e) + v % PAGE == Wrap(w.phys + (v - w.virt)))
  {
    IndexRange(v);
    IndexRange(w.virt);
    var d := PtIndex(v) - PtIndex(w.virt);
    assert v - w.virt == d * PAGE + v % PAGE;
    if InWindow(w, v) {
      var p := w.phys + d * PAGE;
      WrapAligned(p, v % PAGE);
      EntryBits(Wrap(p), PRESENT + RW + USER);
    }
  }

  lemma WrapAligned(p: int, off: int)
    requires Aligned(p) && 0 <= off < PAGE
    ensures Aligned(Wrap(p)) && Wrap(p + off) == Wrap(p) + off
  {
    var q := p / U32;
    assert p == q * U32 + Wrap(p);
    assert Wrap(p) == p - q * 0x10_0000 * PAGE;
    var c := p / PAGE - q * 0x10_0000;
    assert Wrap(p) == c * PAGE;
    assert c < 0x10_0000;
  }

  /**
   The address space of an application: its window for user mode at the image, nothing else in the
   window's 4 MiB region, and everywhere else exactly what the kernel directory says.
   */
  lemma AppTranslation(m: Mem, l: Layout, a: App, v: int)
    requires KernelOk(m, l) && AppOk(m, l, a) && Address(v)
    ensures Translate(m, a.pd, v) ==
            if InWindow(a.w, v) then Some(Mapping(Wrap(a.w.phys + (v - a.w.virt)), true, true))
            else if PdIndex(v) == PdIndex(a.w.virt) then None
            else Translate(m, l.dir, v)
  {
    IndexRange(v);
    IndexRange(a.w.virt);
    WindowIsRounded(m, l, a);
    if PdIndex(v) == PdIndex(a.w.virt) {
      EntryBits(a.pt, PRESENT + RW + USER);
      UserEntryMaps(a.w, v);
    }
  }

  /** User mode reaches exactly the window. */
  lemma OnlyWindowIsUser(m: Mem, l: Layout, a: App, v: int)
    requires KernelOk(m, l) && AppOk(m, l, a) && Address(v)
    ensures var t := Translate(m, a.pd, v);
            t.Some? && t.value.user <==> InWindow(a.w, v)
  {
    AppTranslation(m, l, a, v);
    KernelIsIdentity(m, l, v);
  }

  // ----- unmapping

  lemma UnmapKeepsKernel(m: Mem, l: Layout, addr: int)
    requires KernelOk(m, l) && Address(addr)
    ensures var m' := UnmapPage(m, l, addr);
            && KernelOk(m', l) && m'.Keys == m.Keys
            && (forall f :: f in m && f !in l.low + l.fb ==> m'[f] == m[f])
            && m'[l.dir] == m[l.dir]
  {
    IndexRange(addr);
    var x := PdIndex(addr);
    var m' := UnmapPage(m, l, addr);
    assert KernelEntryOk(m, l, x);
    var t := FrameOf(m[l.dir][x]);
    forall i | 0 <= i < ENTRIES
      ensures KernelEntryOk(m', l, i)
    {
      assert KernelEntryOk(m, l, i);
    }
  }

  /** In the kernel directory an unmap removes exactly the one page. */
  lemma UnmapTranslation(m: Mem, l: Layout, addr: int, v: int)
    requires KernelOk(m, l) && Address(addr) && Address(v)
    ensures KernelOk(UnmapPage(m, l, addr), l)
    ensures Translate(UnmapPage(m, l, addr), l.dir, v) ==
            if v / PAGE == addr / PAGE then None else Translate(m, l.dir, v)
  {
    UnmapKeepsKernel(m, l, addr);
    IndexRange(addr);
    IndexRange(v);
    assert KernelEntryOk(m, l, PdIndex(addr)) && KernelEntryOk(m, l, PdIndex(v));
    if v / PAGE == addr / PAGE {
      SamePage(v, addr);
    } else if PdIndex(v) == PdIndex(addr) {
      assert PtIndex(v) != PtIndex(addr);
    }
  }

  lemma SamePage(v: int, addr: int)
    requires Address(v) && Address(addr) && v / PAGE == addr / PAGE
    ensures PdIndex(v) == PdIndex(addr) && PtIndex(v) == PtIndex(addr)
  {
    IndexRange(v);
    IndexRange(addr);
  }

  lemma UnmapKeepsApp(m: Mem, l: Layout, addr: int, a: App)
    requires KernelOk(m, l) && Address(addr) && AppOk(m, l, a)
    ensures KernelOk(UnmapPage(m, l, addr), l) && AppOk(UnmapPage(m, l, addr), l, a)
  {
    UnmapKeepsKernel(m, l, addr);
    IndexRange(a.w.virt);
  }

  // ----- building

  /** The caller's frames: page-aligned, distinct, and not the kernel's own. */
  ghost predicate CallerFrames(m: Mem, l: Layout, pd: int, pt: int) {
    pd in m && pt in m && pd != pt && Aligned(pt) && !KernelFrame(l, pd) && !KernelFrame(l, pt)
  }

  lemma BuildMakesApp(m: Mem, l: Layout, pd: int, pt: int, w: Window)
    requires KernelOk(m, l) && WindowArgs(w) && CallerFrames(m, l, pd, pt)
    ensures var m' := BuildApp(m, l, pd, pt, w);
            && KernelOk(m', l) && m'.Keys == m.Keys
            && (forall f :: f in m && f != pd && f != pt ==> m'[f] == m[f])
            && (if Accepts(m, l, pd, pt, w) then AppOk(m', l, App(pd, pt, w)) else m' == m)
  {
    IndexRange(w.virt);
    var m' := BuildApp(m, l, pd, pt, w);
    forall i | 0 <= i < ENTRIES
      ensures KernelEntryOk(m', l, i)
    {
      assert KernelEntryOk(m, l, i);
    }
  }

  // ----- runs

  datatype Spaces = Spaces(m: Mem, apps: map<int, App>)

  datatype Op = Unmap(addr: int) | Build(pd: int, pt: int, w: Window)

  ghost predicate SpacesOk(s: Spaces, l: Layout) {
    && KernelOk(s.m, l)
    && (forall d :: d in s.apps ==> s.apps[d].pd == d && AppOk(s.m, l, s.apps[d]))
    && (forall d, e :: d in s.apps && e in s.apps && d != e ==> Apart(s.apps[d], s.apps[e]))
  }

  predicate Apart(a: App, b: App) { a.pd != b.pd && a.pd != b.pt && a.pt != b.pd && a.pt != b.pt }

  /** A directory may be rebuilt; its frames must not belong to another application. */
  ghost predicate LegalOp(s: Spaces, l: Layout, op: Op) {
    match op
    case Unmap(addr) => Address(addr)
    case Build(pd, pt, w) =>
      && WindowArgs(w) && CallerFrames(s.m, l, pd, pt)
      && forall d :: d in s.apps && d != pd ==> Apart(s.apps[d], App(pd, pt, w))
  }

  ghost function Apply(s: Spaces, l: Layout, op: Op): Spaces
    requires KernelOk(s.m, l) && LegalOp(s, l, op)
  {
    match op
    case Unmap(addr) => Spaces(UnmapPage(s.m, l, addr), s.apps)
    case Build(pd, pt, w) =>
      if Accepts(s.m, l, pd, pt, w)
      then Spaces(BuildApp(s.m, l, pd, pt, w), s.apps[pd := App(pd, pt, w)])
      else Spaces(BuildApp(s.m, l, pd, pt, w), s.apps)
  }

  lemma ApplyOk(s: Spaces, l: Layout, op: Op)
    requires SpacesOk(s, l) && LegalOp(s, l, op)
    ensures SpacesOk(Apply(s, l, op), l)
  {
    var s' := Apply(s, l, op);
    match op
    case Unmap(addr) =>
      UnmapKeepsKernel(s.m, l, addr);
      forall d | d in s.apps
        ensures AppOk(s'.m, l, s.apps[d])
      {
        UnmapKeepsApp(s.m, l, addr, s.apps[d]);
      }
    case Build(pd, pt, w) =>
      BuildMakesApp(s.m, l, pd, pt, w);
      forall d | d in s.apps && d != pd
        ensures AppOk(s'.m, l, s.apps[d])
      {
        IndexRange(s.apps[d].w.virt);
      }
  }

  ghost predicate LegalOps(s: Spaces, l: Layout, ops: seq<Op>)
    decreases |ops|
  {
    ops == [] || (KernelOk(s.m, l) && LegalOp(s, l, ops[0]) && LegalOps(Apply(s, l, ops[0]), l, ops[1..]))
  }

  ghost function ApplyAll(s: Spaces, l: Layout, ops: seq<Op>): Spaces
    requires LegalOps(s, l, ops)
    decreases |ops|
  {
    if ops == [] then s else ApplyAll(Apply(s, l, ops[0]), l, ops[1..])
  }

  /** No step brings a page back into the kernel directory. */
  lemma KernelNeverRemaps(s: Spaces, l: Layout, op: Op, g: int)
    requires SpacesOk(s, l) && LegalOp(s, l, op) && Address(g)
    requires Translate(s.m, l.dir, g) == None
    ensures KernelOk(Apply(s, l, op).m, l) && Translate(Apply(s, l, op).m, l.dir, g) == None
  {
    match op
    case Unmap(addr) => UnmapTranslation(s.m, l, addr, g);
    case Build(pd, pt, w) =>
      BuildMakesApp(s.m, l, pd, pt, w);
      IndexRange(g);
      assert KernelEntryOk(s.m, l, PdIndex(g));
  }

  /** `g` is mapped in no directory: neither the kernel's nor any application's. */
  ghost predicate UnmappedEverywhere(s: Spaces, l: Layout, g: int)
    requires SpacesOk(s, l) && Address(g)
  {
    && Translate(s.m, l.dir, g) == None
    && forall d :: d in s.apps ==> Translate(s.m, d, g) == None
  }

  /** Directories share the kernel's tables, so an unmap reaches the ones built before it. */
  lemma LowPageUnmappedEverywhere(s: Spaces, l: Layout, g: int)
    requires SpacesOk(s, l) && Address(g) && PdIndex(g) < LOW_TABLES
    requires Translate(s.m, l.dir, g) == None
    ensures UnmappedEverywhere(s, l, g)
  {
    forall d | d in s.apps
      ensures Translate(s.m, d, g) == None
    {
      AppTranslation(s.m, l, s.apps[d], g);
      WindowIsRounded(s.m, l, s.apps[d]);
    }
  }

  /**
   A low page that is unmapped stays unmapped in every directory, over any sequence of unmaps and builds,
   in directories built before it and after it.
   */
  lemma {:induction false} GuardStaysUnmapped(s: Spaces, l: Layout, ops: seq<Op>, g: int)
    requires SpacesOk(s, l) && LegalOps(s, l, ops)
    requires Address(g) && PdIndex(g) < LOW_TABLES && Translate(s.m, l.dir, g) == None
    ensures SpacesOk(ApplyAll(s, l, ops), l)
    ensures UnmappedEverywhere(ApplyAll(s, l, ops), l, g)
    decreases |ops|
  {
    if ops == [] {
      LowPageUnmappedEverywhere(s, l, g);
    } else {
      ApplyOk(s, l, ops[0]);
      KernelNeverRemaps(s, l, ops[0], g);
      GuardStaysUnmapped(Apply(s, l, ops[0]), l, ops[1..], g);
    }
  }
}
