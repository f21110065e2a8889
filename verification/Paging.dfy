/**
 Two-level 32-bit page tables (section 4.3 "32-Bit Paging" of the Intel SDM, volume 3A) kept in
 physical frames.  Memory maps the address of each frame that holds a directory or table to its 1024
 words, so two directories that name the same table address share that table.
 */
module Paging {
  import opened Machine

  const PRESENT: int := 0x001
  const RW: int := 0x002
  const USER: int := 0x004
  const PWT: int := 0x008
  const PCD: int := 0x010

  const ENTRIES: int := 1024
  const PAGE: int := 4096
  const REGION: int := 0x0040_0000
  const LOW_TABLES: int := 4
  const FB_TABLES: int := 2
  const APP_SLOT_BYTES: int := 0x0040_0000

  type Mem = map<int, seq<int>>

  // ----- entries: an aligned base with flag bits below it, so | is + and the masks are / and %

  predicate Present(e: int) { e % 2 == 1 }
  predicate Writable(e: int) { (e / 2) % 2 == 1 }
  predicate UserBit(e: int) { (e / 4) % 2 == 1 }
  function FrameOf(e: int): int { e - e % PAGE }

  predicate Aligned(a: int) { a % PAGE == 0 }

  lemma EntryBits(base: int, flags: int)
    requires Aligned(base) && 0 <= flags < PAGE
    ensures FrameOf(base + flags) == base
    ensures Present(base + flags) <==> flags % 2 == 1
    ensures Writable(base + flags) <==> (flags / 2) % 2 == 1
    ensures UserBit(base + flags) <==> (flags / 4) % 2 == 1
  {
    var q := base / PAGE;
    assert base == q * PAGE;
    assert (base + flags) / 2 == 2048 * q + flags / 2;
    assert (base + flags) / 4 == 1024 * q + flags / 4;
  }

  // ----- translation

  datatype Mapping = Mapping(phys: int, user: bool, writable: bool)

  function PdIndex(v: int): int { v / REGION }
  function PtIndex(v: int): int { (v / PAGE) % ENTRIES }

  predicate Address(v: int) { 0 <= v < U32 }

  lemma IndexRange(v: int)
    requires Address(v)
    ensures 0 <= PdIndex(v) < ENTRIES && 0 <= PtIndex(v) < ENTRIES
    ensures v == PdIndex(v) * REGION + PtIndex(v) * PAGE + v % PAGE
  {
    assert v / REGION == (v / PAGE) / ENTRIES;
  }

  predicate Frames(m: Mem) { forall a :: a in m ==> |m[a]| == ENTRIES }

  /** The processor's page walk: both levels must be present, and both must allow user access. */
  function Translate(m: Mem, pd: int, v: int): Option<Mapping>
    requires Frames(m) && pd in m && Address(v)
  {
    IndexRange(v);
    var pde := m[pd][PdIndex(v)];
    if !Present(pde) || FrameOf(pde) !in m then None
    else
      var pte := m[FrameOf(pde)][PtIndex(v)];
      if !Present(pte) then None
      else Some(Mapping(FrameOf(pte) + v % PAGE, UserBit(pde) && UserBit(pte), Writable(pde) && Writable(pte)))
  }

  // ----- the kernel's structures

  /** Addresses of the statically allocated directory and tables. */
  datatype Layout = Layout(dir: int, low: seq<int>, fb: seq<int>)

  predicate FrameAddress(a: int, m: Mem) { Aligned(a) && Address(a) && a in m }

  ghost predicate LayoutOk(l: Layout, m: Mem) {
    && |l.low| == LOW_TABLES && |l.fb| == FB_TABLES
    && FrameAddress(l.dir, m)
    && (forall i :: 0 <= i < LOW_TABLES ==> FrameAddress(l.low[i], m) && l.low[i] != l.dir)
    && (forall i :: 0 <= i < FB_TABLES ==> FrameAddress(l.fb[i], m) && l.fb[i] != l.dir)
    && (forall i, j :: 0 <= i < LOW_TABLES && 0 <= j < FB_TABLES ==> l.low[i] != l.fb[j])
    && (forall i, j :: 0 <= i < j < LOW_TABLES ==> l.low[i] != l.low[j])
    && (forall i, j :: 0 <= i < j < FB_TABLES ==> l.fb[i] != l.fb[j])
  }

  /** A table that maps a whole 4 MiB region to itself. */
  function IdentityTable(base: int, flags: int): (t: seq<int>)
    ensures |t| == ENTRIES
  {
    seq(ENTRIES, i => base + i * PAGE + flags)
  }

  function ZeroTable(): (t: seq<int>)
    ensures |t| == ENTRIES
  {
    seq(ENTRIES, _ => 0)
  }

  /** First directory index of the framebuffer that gets a table: index 0 is skipped. */
  function FbFirst(start: int): int { if start == 0 then 1 else start }

  /** Which framebuffer table serves directory index i, or -1: only the first two indices are served. */
  function FbSlot(i: int, start: int, end: int): int {
    if FbFirst(start) <= i <= end && i - FbFirst(start) < FB_TABLES then i - FbFirst(start) else -1
  }

  function KernelEntry(l: Layout, i: int, start: int, end: int): int
    requires |l.low| == LOW_TABLES && |l.fb| == FB_TABLES && 0 <= i && 0 <= start
  {
    var f := FbSlot(i, start, end);
    if f >= 0 then l.fb[f] + (PRESENT + RW + PWT + PCD)
    else if i < LOW_TABLES then l.low[i] + (PRESENT + RW)
    else 0
  }

  /** The directory and tables as paging_setup_structures leaves them. */
  ghost predicate JustSetUp(m: Mem, l: Layout, start: int, end: int) {
    && Frames(m) && LayoutOk(l, m) && 0 <= start && end < ENTRIES
    && (forall i :: 0 <= i < ENTRIES ==> m[l.dir][i] == KernelEntry(l, i, start, end))
    && (forall i :: 0 <= i < LOW_TABLES ==> m[l.low[i]] == IdentityTable(i * REGION, PRESENT + RW))
    && (forall f :: 0 <= f < FB_TABLES && FbFirst(start) + f <= end ==>
          m[l.fb[f]] == IdentityTable((FbFirst(start) + f) * REGION, PRESENT + RW + PWT + PCD))
  }

  /** The kernel maps low memory and up to two framebuffer regions to themselves, never for user mode. */
  lemma KernelTranslation(m: Mem, l: Layout, start: int, end: int, v: int)
    requires JustSetUp(m, l, start, end) && Address(v)
    ensures Translate(m, l.dir, v) ==
            if PdIndex(v) < LOW_TABLES || FbSlot(PdIndex(v), start, end) >= 0
            then Some(Mapping(v, false, true)) else None
  {
    IndexRange(v);
    var i, j := PdIndex(v), PtIndex(v);
    var f := FbSlot(i, start, end);
    if f >= 0 {
      EntryBits(l.fb[f], PRESENT + RW + PWT + PCD);
      EntryBits(i * REGION + j * PAGE, PRESENT + RW + PWT + PCD);
    } else if i < LOW_TABLES {
      EntryBits(l.low[i], PRESENT + RW);
      EntryBits(i * REGION + j * PAGE, PRESENT + RW);
    }
  }

  // ----- the standing invariant: what set-up establishes and unmapping and building keep

  /** Entry i of the kernel directory names a kernel table of its own that maps pages to themselves or nothing. */
  ghost predicate KernelEntryOk(m: Mem, l: Layout, i: int)
    requires Frames(m) && l.dir in m && 0 <= i < ENTRIES
  {
    var e := m[l.dir][i];
    e == 0 || (Present(e) && !UserBit(e) && FrameOf(e) in l.low + l.fb && FrameOf(e) in m && FrameOf(e) != l.dir
               && forall j :: 0 <= j < ENTRIES ==> IdentityOrNothing(m[FrameOf(e)][j], i * REGION + j * PAGE))
  }

  predicate IdentityOrNothing(pte: int, page: int) {
    pte == 0 || (Present(pte) && !UserBit(pte) && FrameOf(pte) == page)
  }

  ghost predicate KernelOk(m: Mem, l: Layout) {
    && Frames(m) && l.dir in m
    && (forall i :: 0 <= i < ENTRIES ==> KernelEntryOk(m, l, i))
    && (forall i, j :: 0 <= i < j < ENTRIES && m[l.dir][i] != 0 && m[l.dir][j] != 0 ==>
          FrameOf(m[l.dir][i]) != FrameOf(m[l.dir][j]))
  }

  lemma SetUpEntryOk(m: Mem, l: Layout, start: int, end: int, i: int)
    requires JustSetUp(m, l, start, end) && 0 <= i < ENTRIES
    ensures KernelEntryOk(m, l, i)
    ensures var f := FbSlot(i, start, end);
            m[l.dir][i] != 0 ==>
              FrameOf(m[l.dir][i]) == if f >= 0 then l.fb[f] else l.low[i]
    ensures m[l.dir][i] != 0 && FbSlot(i, start, end) < 0 ==> i < LOW_TABLES
  {
    var f := FbSlot(i, start, end);
    var flags := if f >= 0 then PRESENT + RW + PWT + PCD else PRESENT + RW;
    if f >= 0 {
      EntryBits(l.fb[f], flags);
    } else if i < LOW_TABLES {
      EntryBits(l.low[i], flags);
    }
    if m[l.dir][i] != 0 {
      var t := m[FrameOf(m[l.dir][i])];
      assert t == IdentityTable(i * REGION, flags);
      forall j | 0 <= j < ENTRIES
        ensures IdentityOrNothing(t[j], i * REGION + j * PAGE)
      {
        EntryBits(i * REGION + j * PAGE, flags);
      }
    }
  }

  lemma SetUpIsOk(m: Mem, l: Layout, start: int, end: int)
    requires JustSetUp(m, l, start, end)
    ensures KernelOk(m, l)
  {
    forall i | 0 <= i < ENTRIES
      ensures KernelEntryOk(m, l, i)
    {
      SetUpEntryOk(m, l, start, end, i);
    }
    forall i, j | 0 <= i < j < ENTRIES && m[l.dir][i] != 0 && m[l.dir][j] != 0
      ensures FrameOf(m[l.dir][i]) != FrameOf(m[l.dir][j])
    {
      SetUpEntryOk(m, l, start, end, i);
      SetUpEntryOk(m, l, start, end, j);
    }
  }

  /** Under the invariant the kernel directory never maps an address elsewhere and never for user mode. */
  lemma KernelIsIdentity(m: Mem, l: Layout, v: int)
    requires KernelOk(m, l) && Address(v)
    ensures var t := Translate(m, l.dir, v);
            t == None || (t.value.phys == v && !t.value.user)
  {
    IndexRange(v);
    assert KernelEntryOk(m, l, PdIndex(v));
  }
}
