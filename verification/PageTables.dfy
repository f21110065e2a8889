/** The paging code itself: frames filled and cleared in place, proved against the functions above them. */
module PageTables {
  import opened Basics
  import opened Machine
  import opened Paging
  import opened AddressSpaces

  /** What the boot loader left about the framebuffer. */
  datatype BootVideo = BootVideo(flag: int, fbAddr: int, height: int, pitch: int)

  predicate BootVideoArgs(b: BootVideo) {
    Address(b.fbAddr) && 0 <= b.height < 0x1_0000 && 0 <= b.pitch < 0x1_0000
  }

  function FbSize(b: BootVideo): int {
    if b.flag == 1 && b.height != 0 && b.pitch != 0 then Wrap(b.height * b.pitch) else 0
  }

  /** Directory indices the framebuffer spans; empty (1..0) when there is none. */
  function FbStart(b: BootVideo): int {
    if b.fbAddr != 0 && FbSize(b) != 0 then PdIndex(b.fbAddr) else 1
  }

  function FbEnd(b: BootVideo): int {
    if b.fbAddr != 0 && FbSize(b) != 0 then PdIndex(Wrap(b.fbAddr + FbSize(b) - 1)) else 0
  }

  /** The boot loader left a framebuffer. */
  predicate HasFramebuffer(b: BootVideo) { b.flag == 1 && b.fbAddr != 0 && b.height != 0 && b.pitch != 0 }

  lemma FbSizeIsProduct(b: BootVideo)
    requires BootVideoArgs(b) && HasFramebuffer(b)
    ensures FbSize(b) == b.height * b.pitch > 0
  {
    MulMono(b.height, 0xFFFF, b.pitch);
    MulMono(1, b.height, b.pitch);
  }

  /** Region v / 4 MiB is one of the first two, after region 0, of those the framebuffer's bytes lie in. */
  predicate FramebufferRegion(b: BootVideo, v: int) {
    var lo, hi := b.fbAddr / 0x40_0000, (b.fbAddr + b.height * b.pitch - 1) % U32 / 0x40_0000;
    HasFramebuffer(b) && 1 <= v / 0x40_0000 && lo <= v / 0x40_0000 <= hi && v / 0x40_0000 < Max(lo, 1) + 2
  }

  /**
   What set-up maps, from what the boot loader left: the low 16 MiB and the framebuffer's first two regions, to
   themselves, and nothing else.
   */
  lemma SetUpMaps(m: Mem, l: Layout, b: BootVideo, v: int)
    requires BootVideoArgs(b) && JustSetUp(m, l, FbStart(b), FbEnd(b)) && Address(v)
    ensures Translate(m, l.dir, v) ==
            if v < 0x100_0000 || FramebufferRegion(b, v) then Some(Mapping(v, false, true)) else None
    ensures FramebufferRegion(b, v) ==> (m[l.dir][v / 0x40_0000] / 8) % 4 == 3
  {
    KernelTranslation(m, l, FbStart(b), FbEnd(b), v);
    IndexRange(v);
    if HasFramebuffer(b) {
      FbSizeIsProduct(b);
      var f := FbSlot(PdIndex(v), FbStart(b), FbEnd(b));
      if f >= 0 {
        assert m[l.dir][PdIndex(v)] == l.fb[f] + FB_FLAGS;
        UncachedBits(l.fb[f]);
      }
    }
  }

  lemma UncachedBits(base: int)
    requires Aligned(base)
    ensures ((base + FB_FLAGS) / 8) % 4 == 3
  {
    assert base == base / PAGE * PAGE;
    assert (base + FB_FLAGS) / 8 == 512 * (base / PAGE) + 3;
  }

  /** So every byte of a framebuffer that fits those regions is mapped to itself. */
  lemma FramebufferIsMapped(m: Mem, l: Layout, b: BootVideo, v: int)
    requires BootVideoArgs(b) && JustSetUp(m, l, FbStart(b), FbEnd(b)) && HasFramebuffer(b)
    requires b.fbAddr <= v < b.fbAddr + b.height * b.pitch <= U32
    requires v / 0x40_0000 < Max(b.fbAddr / 0x40_0000, 1) + 2
    ensures Translate(m, l.dir, v) == Some(Mapping(v, false, true))
  {
    RegionsInOrder(b.fbAddr, v, b.fbAddr + b.height * b.pitch - 1);
    SetUpMaps(m, l, b, v);
  }

  lemma RegionsInOrder(a: int, v: int, z: int)
    requires 0 <= a <= v <= z < U32
    ensures a / 0x40_0000 <= v / 0x40_0000 <= z % U32 / 0x40_0000
    ensures v / 0x40_0000 < 1 ==> v < 0x100_0000
  {
  }

  const FB_FLAGS: int := PRESENT + RW + PWT + PCD

  /** The first t low regions are mapped and the rest of the directory is empty. */
  ghost predicate LowSoFar(m: Mem, l: Layout, t: int) {
    && Frames(m) && LayoutOk(l, m) && t <= LOW_TABLES
    && (forall i :: 0 <= i < ENTRIES ==> m[l.dir][i] == if i < t then l.low[i] + (PRESENT + RW) else 0)
    && (forall i :: 0 <= i < t ==> m[l.low[i]] == IdentityTable(i * REGION, PRESENT + RW))
  }

  lemma MapOneLowRegion(m: Mem, l: Layout, t: int)
    requires LowSoFar(m, l, t) && 0 <= t < LOW_TABLES
    ensures var m1 := m[l.low[t] := IdentityTable(t * REGION, PRESENT + RW)];
            LowSoFar(m1[l.dir := m1[l.dir][t := l.low[t] + (PRESENT + RW)]], l, t + 1)
  {
  }

  /** Mapping the next framebuffer region keeps the description of what is set up so far. */
  lemma MapOneRegion(m: Mem, l: Layout, start: int, pd: int)
    requires JustSetUp(m, l, start, pd - 1) && FbFirst(start) <= pd < FbFirst(start) + FB_TABLES && pd < ENTRIES
    ensures var f := pd - FbFirst(start);
            var m1 := m[l.fb[f] := IdentityTable(pd * REGION, FB_FLAGS)];
            JustSetUp(m1[l.dir := m1[l.dir][pd := l.fb[f] + FB_FLAGS]], l, start, pd)
  {
    var f := pd - FbFirst(start);
    var m1 := m[l.fb[f] := IdentityTable(pd * REGION, FB_FLAGS)];
    var m2 := m1[l.dir := m1[l.dir][pd := l.fb[f] + FB_FLAGS]];
    assert m2.Keys == m.Keys;
    forall i | 0 <= i < ENTRIES
      ensures m2[l.dir][i] == KernelEntry(l, i, start, pd)
    {
      assert m[l.dir][i] == KernelEntry(l, i, start, pd - 1);
    }
  }

  /** Only the first two regions count, and directory index 0 never does. */
  lemma SameRegions(m: Mem, l: Layout, start: int, a: int, b: int)
    requires JustSetUp(m, l, start, a) && b < ENTRIES
    requires a == b || (a < FbFirst(start) && b < FbFirst(start)) || FbFirst(start) + FB_TABLES - 1 <= a <= b
    ensures JustSetUp(m, l, start, b)
  {
    forall i | 0 <= i < ENTRIES
      ensures m[l.dir][i] == KernelEntry(l, i, start, b)
    {
      assert FbSlot(i, start, a) == FbSlot(i, start, b);
    }
  }

  class PageTables {
    var mem: Mem
    const layout: Layout

    constructor (mem: Mem, layout: Layout)
      requires Frames(mem) && LayoutOk(layout, mem)
      ensures this.mem == mem && this.layout == layout
    {
      this.mem := mem;
      this.layout := layout;
    }

    method FillTable(addr: int, base: int, flags: int)
      requires Frames(mem) && addr in mem
      modifies this
      ensures mem == old(mem)[addr := IdentityTable(base, flags)]
    {
      for i := 0 to ENTRIES
        invariant Frames(mem) && mem.Keys == old(mem).Keys
        invariant forall f :: f in mem && f != addr ==> mem[f] == old(mem)[f]
        invariant forall j :: 0 <= j < i ==> mem[addr][j] == base + j * PAGE + flags
      {
        mem := mem[addr := mem[addr][i := base + i * PAGE + flags]];
      }
      assert mem[addr] == IdentityTable(base, flags);
      assert forall f :: f in mem ==> mem[f] == old(mem)[addr := IdentityTable(base, flags)][f];
    }

    method ZeroFrame(addr: int)
      requires Frames(mem) && addr in mem
      modifies this
      ensures mem == old(mem)[addr := ZeroTable()]
    {
      for i := 0 to ENTRIES
        invariant Frames(mem) && mem.Keys == old(mem).Keys
        invariant forall f :: f in mem && f != addr ==> mem[f] == old(mem)[f]
        invariant forall j :: 0 <= j < i ==> mem[addr][j] == 0
      {
        mem := mem[addr := mem[addr][i := 0]];
      }
      assert mem[addr] == ZeroTable();
      assert forall f :: f in mem ==> mem[f] == old(mem)[addr := ZeroTable()][f];
    }

    /** The identity tables of low memory, and the framebuffer tables cleared. */
    method SetupLow()
      requires Frames(mem) && LayoutOk(layout, mem)
      modifies this
      ensures JustSetUp(mem, layout, 1, 0)
    {
      ZeroFrame(layout.dir);
      for t := 0 to LOW_TABLES
        invariant LowSoFar(mem, layout, t)
      {
        MapOneLowRegion(mem, layout, t);
        FillTable(layout.low[t], t * REGION, PRESENT + RW);
        mem := mem[layout.dir := mem[layout.dir][t := layout.low[t] + (PRESENT + RW)]];
      }
      ZeroFrame(layout.fb[0]);
      ZeroFrame(layout.fb[1]);
    }

    /** paging_setup_structures. */
    method Setup(b: BootVideo)
      requires Frames(mem) && LayoutOk(layout, mem) && BootVideoArgs(b)
      modifies this
      ensures JustSetUp(mem, layout, FbStart(b), FbEnd(b)) && KernelOk(mem, layout)
    {
      SetupLow();
      if b.fbAddr != 0 && FbSize(b) != 0 {
        IndexRange(b.fbAddr);
        IndexRange(Wrap(b.fbAddr + FbSize(b) - 1));
        MapFramebuffer(FbStart(b), FbEnd(b));
      }
      SetUpIsOk(mem, layout, FbStart(b), FbEnd(b));
    }

    method MapRegion(table: int, pd: int, ghost start: int)
      requires JustSetUp(mem, layout, start, pd - 1) && 0 <= table < FB_TABLES
      requires pd == FbFirst(start) + table && pd < ENTRIES
      modifies this
      ensures JustSetUp(mem, layout, start, pd)
    {
      MapOneRegion(mem, layout, start, pd);
      FillTable(layout.fb[table], pd * REGION, FB_FLAGS);
      mem := mem[layout.dir := mem[layout.dir][pd := layout.fb[table] + FB_FLAGS]];
    }

    method MapFramebuffer(start: int, end: int)
      requires JustSetUp(mem, layout, 1, 0)
      requires 0 <= start < ENTRIES && 0 <= end < ENTRIES
      modifies this
      ensures JustSetUp(mem, layout, start, end)
    {
      assert JustSetUp(mem, layout, start, start - 1);
      var table := 0;
      var pd := start;
      while pd <= end
        invariant start <= pd && (pd <= end + 1 || pd == start)
        invariant table == if pd <= FbFirst(start) then 0 else pd - FbFirst(start)
        invariant table <= FB_TABLES
        invariant JustSetUp(mem, layout, start, pd - 1)
        decreases end - pd
      {
        if pd == 0 {
          SameRegions(mem, layout, start, pd - 1, pd);
          pd := pd + 1;
          continue;
        }
        if table >= FB_TABLES {
          SameRegions(mem, layout, start, pd - 1, end);
          return;
        }
        MapRegion(table, pd, start);
        table := table + 1;
        pd := pd + 1;
      }
      SameRegions(mem, layout, start, pd - 1, end);
    }

    /** paging_page_present: whether the kernel directory translates the address. */
    method PagePresent(addr: int) returns (present: bool)
      requires KernelOk(mem, layout) && Address(addr)
      ensures present <==> Translate(mem, layout.dir, addr).Some?
    {
      IndexRange(addr);
      assert KernelEntryOk(mem, layout, PdIndex(addr));
      var entry := mem[layout.dir][PdIndex(addr)];
      if !Present(entry) {
        return false;
      }
      present := Present(mem[FrameOf(entry)][PtIndex(addr)]);
    }

    /** paging_unmap_page. */
    method Unmap(addr: int) returns (done: bool)
      requires KernelOk(mem, layout) && Address(addr)
      modifies this
      ensures mem == UnmapPage(old(mem), layout, addr) && done == TablePresent(old(mem), layout, addr)
      ensures Translate(old(mem), layout.dir, addr).Some? ==> done
      ensures KernelOk(mem, layout)
    {
      UnmapKeepsKernel(mem, layout, addr);
      IndexRange(addr);
      assert KernelEntryOk(mem, layout, PdIndex(addr));
      var entry := mem[layout.dir][PdIndex(addr)];
      if !Present(entry) {
        return false;
      }
      var t := FrameOf(entry);
      mem := mem[t := mem[t][PtIndex(addr) := 0]];
      done := true;
    }

    /** paging_build_app_directory; a null pointer is address 0. */
    method BuildAppDirectory(pd: int, pt: int, w: Window) returns (ok: bool)
      requires KernelOk(mem, layout) && WindowArgs(w)
      requires Accepts(mem, layout, pd, pt, w) ==> CallerFrames(mem, layout, pd, pt)
      modifies this
      ensures mem == BuildApp(old(mem), layout, pd, pt, w) && ok == Accepts(old(mem), layout, pd, pt, w)
      ensures KernelOk(mem, layout) && (ok ==> AppOk(mem, layout, App(pd, pt, w)))
      ensures ok <==> MayBuild(old(mem), layout, pd, pt, w)
    {
      AcceptsIff(mem, layout, pd, pt, w);
      IndexRange(w.virt);
      if !Accepts(mem, layout, pd, pt, w) {
        return false;
      }
      BuildMakesApp(mem, layout, pd, pt, w);
      CopyKernelDirectory(pd, pt);
      FillWindow(pt, w);
      mem := mem[pd := mem[pd][PdIndex(w.virt) := pt + (PRESENT + RW + USER)]];
      ok := true;
    }

    method CopyKernelDirectory(pd: int, pt: int)
      requires Frames(mem) && layout.dir in mem && pd in mem && pt in mem
      requires pd != pt && pd != layout.dir && pt != layout.dir
      modifies this
      ensures mem == old(mem)[pd := old(mem)[layout.dir]][pt := ZeroTable()]
    {
      for i := 0 to ENTRIES
        invariant Frames(mem) && mem.Keys == old(mem).Keys
        invariant forall f :: f in mem && f != pd && f != pt ==> mem[f] == old(mem)[f]
        invariant forall j :: 0 <= j < i ==> mem[pd][j] == mem[layout.dir][j] && mem[pt][j] == 0
      {
        mem := mem[pd := mem[pd][i := mem[layout.dir][i]]];
        mem := mem[pt := mem[pt][i := 0]];
      }
      ghost var spec := old(mem)[pd := old(mem)[layout.dir]][pt := ZeroTable()];
      assert mem[pd] == spec[pd] && mem[pt] == spec[pt];
      assert forall f :: f in mem ==> mem[f] == spec[f];
    }

    method FillWindow(pt: int, w: Window)
      requires Frames(mem) && pt in mem && mem[pt] == ZeroTable()
      requires WindowArgs(w) && PtIndex(w.virt) + PageCount(w.bytes) <= ENTRIES
      modifies this
      ensures mem == old(mem)[pt := UserTable(w)]
    {
      IndexRange(w.virt);
      var first := PtIndex(w.virt);
      for i := 0 to PageCount(w.bytes)
        invariant Frames(mem) && mem.Keys == old(mem).Keys
        invariant forall f :: f in mem && f != pt ==> mem[f] == old(mem)[f]
        invariant forall j :: 0 <= j < ENTRIES ==>
                    mem[pt][j] == if first <= j < first + i then UserEntry(w, j) else 0
      {
        mem := mem[pt := mem[pt][first + i := Wrap(w.phys + i * PAGE) + (PRESENT + RW + USER)]];
      }
      assert mem[pt] == UserTable(w);
      assert forall f :: f in mem ==> mem[f] == old(mem)[pt := UserTable(w)][f];
    }
  }
}
