/**
 * The physical page-frame allocator and the per-task page-table builder
 * (src/mm.c).
 *
 * Physical memory is the pool of PAGING_PAGES frames starting at LOW_MEMORY.
 * `mem_map` is an array of used flags; the contents of each frame are kept as
 * its 512 64-bit words, which is also how a page table is laid out.  Page
 * tables follow the VMSAv8-64 translation scheme of the Arm Architecture
 * Reference Manual with a 4 KiB granule: four levels, each indexed by a 9-bit
 * slice of the virtual address (bits 47:39, 38:30, 29:21 and 20:12).
 */
module Mm {
  import opened Wrappers
  import opened Bits

  const PAGE_SHIFT: nat := 12
  const TABLE_SHIFT: nat := 9
  const PAGE_SIZE: nat := 4096
  const PTRS_PER_TABLE: nat := 512
  const PGD_SHIFT: nat := PAGE_SHIFT + 3 * TABLE_SHIFT
  const PUD_SHIFT: nat := PAGE_SHIFT + 2 * TABLE_SHIFT
  const PMD_SHIFT: nat := PAGE_SHIFT + TABLE_SHIFT
  /** Start of the kernel's direct map: physical address p is seen at p + VA_START. */
  const VA_START: nat := 0xffff_0000_0000_0000

  /** The shift used at each level: PGD_SHIFT, PUD_SHIFT, PMD_SHIFT, PAGE_SHIFT. */
  function LevelShift(level: nat): nat
    requires level <= 3
  {
    PAGE_SHIFT + (3 - level) * TABLE_SHIFT
  }

  /** 2 to the power LevelShift(level), so that `va >> shift` is `va / LevelDivisor(level)`. */
  function LevelDivisor(level: nat): (d: nat)
    requires level <= 3
    ensures d > 0 && d % PAGE_SIZE == 0
  {
    if level == 0 then 0x80_0000_0000
    else if level == 1 then 0x4000_0000
    else if level == 2 then 0x20_0000
    else 0x1000
  }

  /** `(va >> shift) & (PTRS_PER_TABLE - 1)`: the slot that `va` selects at `level`. */
  function TableIndex(va: nat, level: nat): (i: nat)
    requires level <= 3
    ensures i < PTRS_PER_TABLE
  {
    (va / LevelDivisor(level)) % PTRS_PER_TABLE
  }

  /** `x & PAGE_MASK`: clear the offset bits below the page size. */
  function PageAlign(x: nat): (r: nat)
    ensures r <= x < r + PAGE_SIZE && r % PAGE_SIZE == 0
  {
    x - x % PAGE_SIZE
  }

  /**
   * A descriptor is `addr | flags`.  With `addr` page-aligned and the flags
   * confined to the low attribute bits, that OR is a sum, and masking with
   * PAGE_MASK gives the address back.
   */
  lemma DescriptorAddress(addr: nat, flags: nat)
    requires addr % PAGE_SIZE == 0 && flags < PAGE_SIZE
    ensures PageAlign(addr + flags) == addr
  {
    assert (addr + flags) % PAGE_SIZE == flags;
  }

  /**
   * The board constants of mm.h and arm/mmu.h, which this model takes as
   * parameters.
   */
  datatype Params = Params(
    lowMemory: nat,           // LOW_MEMORY: physical address of the first pool frame
    pagingPages: nat,         // PAGING_PAGES: number of frames in the pool
    maxProcessPages: nat,     // MAX_PROCESS_PAGES: capacity of mm.user_pages
    kernelPagesCapacity: nat, // number of slots of mm.kernel_pages
    tableFlags: nat,          // MM_TYPE_PAGE_TABLE
    pteFlags: nat,            // MMU_PTE_FLAGS
    guardFlags: nat)          // MMU_PTE_FLAGS_GUARD
  {
    /**
     * The pool is page-aligned and starts above physical page 0; every flag
     * set fits in the attribute bits below the page size, and the table and
     * page descriptors carry the valid bit, so they are never zero.
     */
    predicate Valid() {
      0 < lowMemory && lowMemory % PAGE_SIZE == 0 &&
      0 < kernelPagesCapacity &&
      0 < tableFlags < PAGE_SIZE && 0 < pteFlags < PAGE_SIZE && guardFlags < PAGE_SIZE
    }

    /** HIGH_MEMORY: the end of the pool. */
    function HighMemory(): nat {
      lowMemory + pagingPages * PAGE_SIZE
    }

    /** `LOW_MEMORY + i * PAGE_SIZE`: the physical address of frame `i`. */
    function FrameAddr(i: nat): nat {
      lowMemory + i * PAGE_SIZE
    }

    /** `(p - LOW_MEMORY) / PAGE_SIZE`: the frame that holds address `p`. */
    function FrameIndex(p: nat): nat
      requires lowMemory <= p
    {
      (p - lowMemory) / PAGE_SIZE
    }

    /** `page | MMU_PTE_FLAGS`: the leaf descriptor that maps `page`. */
    function PageEntry(page: nat): nat {
      page + pteFlags
    }

    predicate IsFrameAddr(a: nat) {
      lowMemory <= a && (a - lowMemory) % PAGE_SIZE == 0 && FrameIndex(a) < pagingPages
    }
  }

  lemma FrameAddrRoundTrip(p: Params, i: nat)
    requires p.Valid() && i < p.pagingPages
    ensures p.IsFrameAddr(p.FrameAddr(i)) && p.FrameIndex(p.FrameAddr(i)) == i
    ensures p.FrameAddr(i) % PAGE_SIZE == 0
    ensures p.lowMemory <= p.FrameAddr(i) < p.HighMemory()
  {
  }

  lemma FrameIndexRoundTrip(p: Params, a: nat)
    requires p.Valid() && p.IsFrameAddr(a)
    ensures p.FrameAddr(p.FrameIndex(a)) == a && a % PAGE_SIZE == 0
  {
  }

  lemma FrameIndexInjective(p: Params, a: nat, b: nat)
    requires p.Valid() && p.IsFrameAddr(a) && p.IsFrameAddr(b) && a != b
    ensures p.FrameIndex(a) != p.FrameIndex(b)
  {
    FrameIndexRoundTrip(p, a);
    FrameIndexRoundTrip(p, b);
  }

  function ZeroFrame(): (z: seq<nat>)
    ensures |z| == PTRS_PER_TABLE && forall j :: 0 <= j < |z| ==> z[j] == 0
  {
    seq(PTRS_PER_TABLE, _ => 0)
  }

  /** The store `frames[a][j] = e` into the frame at physical address `a`. */
  function WriteSlot(frames: map<nat, seq<nat>>, a: nat, j: nat, e: nat): (r: map<nat, seq<nat>>)
    requires a in frames && j < |frames[a]|
    ensures r.Keys == frames.Keys && |r[a]| == |frames[a]| && r[a][j] == e
    ensures forall b :: b in r && b != a ==> r[b] == frames[b]
    ensures forall k :: 0 <= k < |r[a]| && k != j ==> r[a][k] == frames[a][k]
  {
    var row: seq<nat> := frames[a][j := e];
    frames[a := row]
  }

  /** Number of free (false) entries of a used/free map. */
  function FreeCount(s: seq<bool>): (n: nat)
    ensures n <= |s|
  {
    if s == [] then 0 else FreeCount(s[..|s| - 1]) + (if s[|s| - 1] then 0 else 1)
  }

  lemma {:induction false} FreeCountZero(s: seq<bool>)
    ensures FreeCount(s) == 0 <==> forall i :: 0 <= i < |s| ==> s[i]
  {
    if s != [] {
      FreeCountZero(s[..|s| - 1]);
      if FreeCount(s) == 0 {
        forall i | 0 <= i < |s| ensures s[i] {
          if i < |s| - 1 { assert s[i] == s[..|s| - 1][i]; }
        }
      }
      if forall i :: 0 <= i < |s| ==> s[i] {
        var init := s[..|s| - 1];
        forall i | 0 <= i < |init| ensures init[i] {
          assert init[i] == s[i];
        }
      }
    }
  }

  /** Marking one free frame used lowers the free count by exactly one. */
  lemma {:induction false} FreeCountTake(s: seq<bool>, i: nat)
    requires i < |s| && !s[i]
    ensures FreeCount(s[i := true]) == FreeCount(s) - 1
  {
    var t := s[i := true];
    if i == |s| - 1 {
      assert t[..|t| - 1] == s[..|s| - 1];
    } else {
      assert t[..|t| - 1] == s[..|s| - 1][i := true];
      FreeCountTake(s[..|s| - 1], i);
    }
  }

  /** Freeing one used frame raises the free count by exactly one. */
  lemma {:induction false} FreeCountRelease(s: seq<bool>, i: nat)
    requires i < |s| && s[i]
    ensures FreeCount(s[i := false]) == FreeCount(s) + 1
  {
    var t := s[i := false];
    if i == |s| - 1 {
      assert t[..|t| - 1] == s[..|s| - 1];
    } else {
      assert t[..|t| - 1] == s[..|s| - 1][i := false];
      FreeCountRelease(s[..|s| - 1], i);
    }
  }

  /** Frame `i` is the one get_free_page picks: free, and every lower frame is used. */
  predicate IsLowestFree(s: seq<bool>, i: nat) {
    i < |s| && !s[i] && forall j :: 0 <= j < i ==> s[j]
  }

  /** Two allocations with no free in between return different, increasing frames. */
  lemma SuccessiveAllocationsDistinct(p: Params, s: seq<bool>, i: nat, j: nat)
    requires IsLowestFree(s, i) && IsLowestFree(s[i := true], j)
    ensures i < j && p.FrameAddr(i) < p.FrameAddr(j)
  {
  }

  /** A (physical, virtual) pair recorded in mm.user_pages. */
  datatype UserPage = UserPage(physAddr: nat, virtAddr: nat)

  /**
   * A task's memory descriptor, `task->mm`: the page-directory frame (0 until
   * the first mapping), the user_pages and kernel_pages arrays at their fixed
   * capacities, and their fill counts.
   */
  datatype MmStruct = MmStruct(
    pgd: nat,
    userPagesCount: nat,
    userPages: seq<UserPage>,
    kernelPagesCount: nat,
    kernelPages: seq<nat>)

  /** The descriptor of a task whose page was just zero-filled. */
  function ZeroMm(p: Params): (mm: MmStruct)
    ensures mm.pgd == 0 && mm.userPagesCount == 0 && mm.kernelPagesCount == 0
    ensures |mm.userPages| == p.maxProcessPages && |mm.kernelPages| == p.kernelPagesCapacity
  {
    MmStruct(0, 0, seq(p.maxProcessPages, _ => UserPage(0, 0)), 0, seq(p.kernelPagesCapacity, _ => 0))
  }

  /**
   * What a table walk reads: the contents of the pool frames, by physical
   * address, and the frames that hold page tables, with their levels (0 for
   * a pgd, 3 for a table of leaf entries).
   */
  datatype TableView = TableView(p: Params, frames: map<nat, seq<nat>>, levels: map<nat, nat>)
  {
    ghost predicate IsTable(a: nat, level: nat) {
      a in levels && levels[a] == level
    }

    /** Every frame has 512 words, physical page 0 is no frame, and every table is a frame. */
    ghost predicate Shaped() {
      p.Valid() && 0 !in frames &&
      (forall a {:trigger frames[a]} :: a in frames ==> |frames[a]| == PTRS_PER_TABLE) &&
      (forall a {:trigger a in levels} :: a in levels ==> a in frames && levels[a] <= 3)
    }

    /** The words of table `a`. */
    ghost function Row(a: nat): (r: seq<nat>)
      requires Shaped() && a in levels
      ensures |r| == PTRS_PER_TABLE
    {
      frames[a]
    }

    /** `e` is `next | MM_TYPE_PAGE_TABLE` for a table `next` of the given level. */
    ghost predicate IsDescriptorTo(e: nat, level: nat) {
      e >= p.tableFlags && IsTable(e - p.tableFlags, level)
    }

    /**
     * Every slot of a table above the leaf level is empty or points to a
     * table one level down; leaf tables hold anything.
     */
    ghost predicate Wf() {
      Shaped() &&
      forall a, j :: a in levels && levels[a] < 3 && 0 <= j < PTRS_PER_TABLE ==>
        Row(a)[j] == 0 || IsDescriptorTo(Row(a)[j], levels[a] + 1)
    }

    /** A task's pgd field: 0 before its first mapping, otherwise a level-0 table. */
    ghost predicate PgdOk(pgd: nat) {
      pgd == 0 || IsTable(pgd, 0)
    }

    /** The entry that `va` selects in table `t` of level `level`. */
    ghost function Slot(t: nat, level: nat, va: nat): nat
      requires Shaped() && level <= 3 && IsTable(t, level)
    {
      Row(t)[TableIndex(va, level)]
    }

    /**
     * One step of the walk: from table `o` of level `level`, the table of
     * level `level + 1` that the entry for `va` points to.  The walk follows
     * every non-zero entry; the descriptor test only matters outside Wf(),
     * where it keeps the walk among the tables.
     */
    ghost function Step(o: Option<nat>, level: nat, va: nat): (r: Option<nat>)
      requires Shaped() && level < 3 && (o.Some? ==> IsTable(o.value, level))
      ensures r.Some? ==> IsTable(r.value, level + 1)
    {
      match o
      case None => None
      case Some(t) =>
        var e := Slot(t, level, va);
        if e != 0 && IsDescriptorTo(e, level + 1) then Some(e - p.tableFlags) else None
    }

    /** The table of level `level` that the walk for `va` from `pgd` reaches, if any. */
    ghost function WalkTable(pgd: nat, va: nat, level: nat): (r: Option<nat>)
      requires Shaped() && level <= 3
      ensures r.Some? ==> IsTable(r.value, level)
    {
      var pgdTable := if IsTable(pgd, 0) then Some(pgd) else None;
      if level == 0 then pgdTable else
      var pud := Step(pgdTable, 0, va);
      if level == 1 then pud else
      var pmd := Step(pud, 1, va);
      if level == 2 then pmd else Step(pmd, 2, va)
    }

    /** The leaf entry that translates `va` in the hierarchy rooted at `pgd`, if any. */
    ghost function Translate(pgd: nat, va: nat): Option<nat>
      requires Shaped()
    {
      match WalkTable(pgd, va, 3)
      case None => None
      case Some(t) =>
        var e := Slot(t, 3, va);
        if e == 0 then None else Some(e)
    }

    /** Number of levels below `level` that the walk for `va` does not reach. */
    ghost function Missing(pgd: nat, va: nat, level: nat): (n: nat)
      requires Shaped() && level <= 3
    {
      (if level < 1 && WalkTable(pgd, va, 1).None? then 1 else 0) +
      (if level < 2 && WalkTable(pgd, va, 2).None? then 1 else 0) +
      (if level < 3 && WalkTable(pgd, va, 3).None? then 1 else 0)
    }

    /** How many tables mapping `va` creates: the pgd if there is none, and every missing level. */
    ghost function TablesToCreate(pgd: nat, va: nat): (n: nat)
      requires Shaped()
      ensures n <= 4
    {
      (if WalkTable(pgd, va, 0).None? then 1 else 0) + Missing(pgd, va, 0)
    }
  }

  /** Once a walk stops, every deeper level is missing. */
  lemma MissingBelowGap(v: TableView, pgd: nat, va: nat, level: nat)
    requires v.Shaped() && level < 3 && v.WalkTable(pgd, va, level + 1).None?
    ensures v.Missing(pgd, va, level) == 3 - level
  {
    if level == 0 {
      assert v.WalkTable(pgd, va, 2).None?;
    }
    if level <= 1 {
      assert v.WalkTable(pgd, va, 3).None?;
    }
  }

  /** Below a freshly zeroed table every deeper level is missing. */
  lemma FreshTableMissing(v: TableView, pgd: nat, va: nat, level: nat, t: nat)
    requires v.Shaped() && level <= 3 && v.WalkTable(pgd, va, level) == Some(t)
    requires v.Row(t) == ZeroFrame()
    ensures v.Missing(pgd, va, level) == 3 - level
  {
    if level < 3 {
      assert v.Slot(t, level, va) == 0;
      assert v.WalkTable(pgd, va, level + 1) == v.Step(Some(t), level, va);
      MissingBelowGap(v, pgd, va, level);
    }
  }

  /** The walk one level further is one step from the table reached so far. */
  lemma WalkStep(v: TableView, pgd: nat, va: nat, level: nat)
    requires v.Shaped() && level < 3
    ensures v.WalkTable(pgd, va, level + 1) == v.Step(v.WalkTable(pgd, va, level), level, va)
    ensures v.Missing(pgd, va, level) ==
      (if v.WalkTable(pgd, va, level + 1).None? then 1 else 0) + v.Missing(pgd, va, level + 1)
  {
  }

  /** With a pgd, the number of tables to create is the number of missing levels. */
  lemma TablesToCreateWithPgd(v: TableView, pgd: nat, va: nat)
    requires v.Shaped() && v.IsTable(pgd, 0)
    ensures v.TablesToCreate(pgd, va) == v.Missing(pgd, va, 0)
  {
  }

  /** Without a pgd every level has to be created. */
  lemma TablesToCreateWithoutPgd(v: TableView, va: nat)
    requires v.Shaped()
    ensures v.TablesToCreate(0, va) == 4
  {
    MissingBelowGap(v, 0, va, 0);
  }

  /** Every table of `v` is still a table of the same level in `w`. */
  ghost predicate LevelsGrow(v: TableView, w: TableView) {
    forall a {:trigger a in v.levels} :: a in v.levels ==> a in w.levels && w.levels[a] == v.levels[a]
  }

  /**
   * `w` grows `v`: the tables of `v` are kept, and a non-zero entry of any of
   * them keeps its value; only empty slots and non-table frames change.
   */
  ghost predicate Extends(v: TableView, w: TableView) {
    v.Shaped() && w.Shaped() && v.p == w.p && LevelsGrow(v, w) &&
    forall a, j :: a in v.levels && 0 <= j < PTRS_PER_TABLE && v.Row(a)[j] != 0 ==>
      w.Row(a)[j] == v.Row(a)[j]
  }

  lemma ExtendsTransitive(u: TableView, v: TableView, w: TableView)
    requires Extends(u, v) && Extends(v, w)
    ensures Extends(u, w)
  {
    forall a, j | a in u.levels && 0 <= j < PTRS_PER_TABLE && u.Row(a)[j] != 0
      ensures w.Row(a)[j] == u.Row(a)[j]
    {
      assert v.Row(a)[j] == u.Row(a)[j];
    }
  }

  /** A step that succeeds still succeeds, with the same result, after the hierarchy grows. */
  lemma ExtendsKeepsStep(v: TableView, w: TableView, o: Option<nat>, level: nat, va: nat)
    requires Extends(v, w) && level < 3 && (o.Some? ==> v.IsTable(o.value, level))
    requires v.Step(o, level, va).Some?
    ensures w.Step(o, level, va) == v.Step(o, level, va)
  {
    assert w.Slot(o.value, level, va) == v.Slot(o.value, level, va);
  }

  /** A walk that reaches a table still reaches it after the hierarchy grows. */
  lemma ExtendsKeepsWalk(v: TableView, w: TableView, pgd: nat, va: nat, level: nat)
    requires Extends(v, w) && level <= 3 && v.WalkTable(pgd, va, level).Some?
    ensures w.WalkTable(pgd, va, level) == v.WalkTable(pgd, va, level)
  {
    var pgdTable := if v.IsTable(pgd, 0) then Some(pgd) else None;
    if level > 0 {
      var pud := v.Step(pgdTable, 0, va);
      ExtendsKeepsStep(v, w, pgdTable, 0, va);
      if level > 1 {
        var pmd := v.Step(pud, 1, va);
        ExtendsKeepsStep(v, w, pud, 1, va);
        if level > 2 {
          ExtendsKeepsStep(v, w, pmd, 2, va);
        }
      }
    }
  }

  /** A translation that exists survives every growth of the hierarchy. */
  lemma ExtendsKeepsTranslate(v: TableView, w: TableView, pgd: nat, va: nat)
    requires Extends(v, w) && v.Translate(pgd, va).Some?
    ensures w.Translate(pgd, va) == v.Translate(pgd, va)
  {
    ExtendsKeepsWalk(v, w, pgd, va, 3);
    var t := v.WalkTable(pgd, va, 3).value;
    assert w.Slot(t, 3, va) == v.Slot(t, 3, va);
  }

  /** `v` and `w` have the same tables, and the tables above the leaf level have the same contents. */
  ghost predicate SameUpperTables(v: TableView, w: TableView) {
    v.Shaped() && w.Shaped() && v.p == w.p && v.levels == w.levels &&
    forall a :: a in v.levels && v.levels[a] < 3 ==> w.Row(a) == v.Row(a)
  }

  /** `v` and `w` have the same tables, with the same contents. */
  ghost predicate SameTables(v: TableView, w: TableView) {
    SameUpperTables(v, w) &&
    forall a :: a in v.levels ==> w.Row(a) == v.Row(a)
  }

  lemma SameTablesExtends(v: TableView, w: TableView)
    requires SameTables(v, w)
    ensures Extends(v, w)
  {
  }

  lemma SameUpperTablesKeepStep(v: TableView, w: TableView, o: Option<nat>, level: nat, va: nat)
    requires SameUpperTables(v, w) && level < 3 && (o.Some? ==> v.IsTable(o.value, level))
    ensures w.Step(o, level, va) == v.Step(o, level, va)
  {
    if o.Some? {
      assert w.Row(o.value) == v.Row(o.value);
    }
  }

  /** Walks to a table read only the tables above the leaf level. */
  lemma SameUpperTablesKeepWalk(v: TableView, w: TableView, pgd: nat, va: nat)
    requires SameUpperTables(v, w)
    ensures forall level :: 0 <= level <= 3 ==> w.WalkTable(pgd, va, level) == v.WalkTable(pgd, va, level)
    ensures w.TablesToCreate(pgd, va) == v.TablesToCreate(pgd, va)
  {
    var pgdTable := if v.IsTable(pgd, 0) then Some(pgd) else None;
    SameUpperTablesKeepStep(v, w, pgdTable, 0, va);
    var pud := v.Step(pgdTable, 0, va);
    SameUpperTablesKeepStep(v, w, pud, 1, va);
    var pmd := v.Step(pud, 1, va);
    SameUpperTablesKeepStep(v, w, pmd, 2, va);
  }

  /** With the same tables every walk and translation agree. */
  lemma SameTablesKeepTranslate(v: TableView, w: TableView, pgd: nat, va: nat)
    requires SameTables(v, w)
    ensures w.Translate(pgd, va) == v.Translate(pgd, va)
    ensures w.TablesToCreate(pgd, va) == v.TablesToCreate(pgd, va)
  {
    SameUpperTablesKeepWalk(v, w, pgd, va);
    match v.WalkTable(pgd, va, 3)
    case None =>
    case Some(t) =>
      assert w.Row(t) == v.Row(t);
  }

  /** The view after the leaf store `e` into slot `idx` of the leaf table `pte`. */
  ghost function LeafWritten(v: TableView, pte: nat, idx: nat, e: nat): (w: TableView)
    requires v.Shaped() && v.IsTable(pte, 3) && idx < PTRS_PER_TABLE
    ensures SameUpperTables(v, w)
  {
    var w := TableView(v.p, WriteSlot(v.frames, pte, idx, e), v.levels);
    assert forall a :: a in v.levels && v.levels[a] < 3 ==> w.Row(a) == v.Row(a);
    w
  }

  /**
   * After a leaf store, `va` translates to the stored entry when its walk
   * ends in that slot, and as before otherwise.  The store keeps Wf().
   */
  lemma LeafWriteTranslate(v: TableView, pte: nat, idx: nat, e: nat, pgd: nat, va: nat)
    requires v.Shaped() && v.IsTable(pte, 3) && idx < PTRS_PER_TABLE
    ensures var w := LeafWritten(v, pte, idx, e);
      w.Translate(pgd, va) ==
        if v.WalkTable(pgd, va, 3) == Some(pte) && TableIndex(va, 3) == idx then
          (if e == 0 then None else Some(e))
        else v.Translate(pgd, va)
    ensures v.Wf() ==> LeafWritten(v, pte, idx, e).Wf()
  {
    var w := LeafWritten(v, pte, idx, e);
    SameUpperTablesKeepWalk(v, w, pgd, va);
    match v.WalkTable(pgd, va, 3)
    case None =>
    case Some(t) =>
      if t != pte {
        assert w.Row(t) == v.Row(t);
      }
  }

  /** Overwriting a frame that holds no table changes no table. */
  lemma ReplaceDataFrame(v: TableView, a: nat, row: seq<nat>)
    requires v.Wf() && a in v.frames && a !in v.levels && |row| == PTRS_PER_TABLE
    ensures var w := v.(frames := v.frames[a := row]);
      w.Wf() && SameTables(v, w)
  {
    var w := v.(frames := v.frames[a := row]);
    assert forall b :: b in v.levels ==> w.Row(b) == v.Row(b);
  }

  /** Making a zero-filled, non-table pool frame a table keeps Wf() and grows the hierarchy. */
  lemma AddZeroTable(v: TableView, g: nat, level: nat)
    requires v.Wf() && g in v.frames && g !in v.levels && level <= 3
    requires v.frames[g] == ZeroFrame()
    ensures var w := v.(levels := v.levels[g := level]);
      w.Wf() && Extends(v, w) && w.IsTable(g, level) && w.Row(g) == ZeroFrame()
  {
    var w := v.(levels := v.levels[g := level]);
    forall a, j | a in w.levels && w.levels[a] < 3 && 0 <= j < PTRS_PER_TABLE
      ensures w.Row(a)[j] == 0 || w.IsDescriptorTo(w.Row(a)[j], w.levels[a] + 1)
    {
      if a != g {
        assert w.Row(a) == v.Row(a);
      }
    }
  }

  /**
   * Storing a descriptor to a table of level `level + 1` into an empty slot
   * of a table of level `level` keeps Wf() and grows the hierarchy.
   */
  lemma LinkTable(v: TableView, t: nat, level: nat, idx: nat, next: nat)
    requires v.Wf() && level < 3 && v.IsTable(t, level) && v.IsTable(next, level + 1)
    requires idx < PTRS_PER_TABLE && v.Row(t)[idx] == 0
    ensures var w := v.(frames := WriteSlot(v.frames, t, idx, next + v.p.tableFlags));
      w.Wf() && Extends(v, w)
  {
    var w := v.(frames := WriteSlot(v.frames, t, idx, next + v.p.tableFlags));
    assert w.Shaped();
    forall a, j | a in w.levels && w.levels[a] < 3 && 0 <= j < PTRS_PER_TABLE
      ensures w.Row(a)[j] == 0 || w.IsDescriptorTo(w.Row(a)[j], w.levels[a] + 1)
    {
      if a != t {
        assert w.Row(a) == v.Row(a);
      }
    }
    forall a, j | a in v.levels && 0 <= j < PTRS_PER_TABLE && v.Row(a)[j] != 0
      ensures w.Row(a)[j] == v.Row(a)[j]
    {
    }
  }

  /** The memory descriptor invariant: a pgd that is a level-0 table, counts within the arrays. */
  ghost predicate MmValid(v: TableView, mm: MmStruct) {
    v.PgdOk(mm.pgd) &&
    |mm.kernelPages| == v.p.kernelPagesCapacity && mm.kernelPagesCount < |mm.kernelPages| &&
    |mm.userPages| == v.p.maxProcessPages && mm.userPagesCount <= |mm.userPages|
  }

  /** `kernel_pages[++kernel_pages_count] = a`. */
  function RecordTable(mm: MmStruct, a: nat): (r: MmStruct)
    requires mm.kernelPagesCount + 1 < |mm.kernelPages|
    ensures |r.kernelPages| == |mm.kernelPages| && r.kernelPagesCount == mm.kernelPagesCount + 1
    ensures r.kernelPages[r.kernelPagesCount] == a
  {
    mm.(kernelPagesCount := mm.kernelPagesCount + 1,
        kernelPages := mm.kernelPages[mm.kernelPagesCount + 1 := a])
  }

  /**
   * `mm'` records, after the old count, tables that did not exist under
   * `oldLevels` and exist under `newLevels`; every other slot is unchanged.
   * (Slot 0 of kernel_pages is never written: the count is pre-incremented.)
   */
  ghost predicate KernelPagesExtended(mm: MmStruct, mm': MmStruct, oldLevels: map<nat, nat>, newLevels: map<nat, nat>) {
    |mm'.kernelPages| == |mm.kernelPages| &&
    mm.kernelPagesCount <= mm'.kernelPagesCount < |mm'.kernelPages| &&
    (forall k :: 0 <= k < |mm.kernelPages| && (k <= mm.kernelPagesCount || mm'.kernelPagesCount < k) ==>
      mm'.kernelPages[k] == mm.kernelPages[k]) &&
    (forall k :: mm.kernelPagesCount < k <= mm'.kernelPagesCount ==>
      mm'.kernelPages[k] in newLevels && mm'.kernelPages[k] !in oldLevels)
  }

  lemma KernelPagesExtendedTransitive(m0: MmStruct, m1: MmStruct, m2: MmStruct, l0: map<nat, nat>, l1: map<nat, nat>, l2: map<nat, nat>)
    requires KernelPagesExtended(m0, m1, l0, l1) && KernelPagesExtended(m1, m2, l1, l2)
    requires l0.Keys <= l1.Keys <= l2.Keys
    ensures KernelPagesExtended(m0, m2, l0, l2)
  {
  }

  /** Address `a` is a pool frame that `before` marks used. */
  ghost predicate UsedFrame(p: Params, before: seq<bool>, a: nat) {
    p.IsFrameAddr(a) && p.FrameIndex(a) < |before| && before[p.FrameIndex(a)]
  }

  /**
   * Every pool frame that was in use (`before`) and held no table
   * (`oldLevels`) still holds what it held.
   */
  ghost predicate KeepsData(p: Params, before: seq<bool>, oldLevels: map<nat, nat>,
                            oldFrames: map<nat, seq<nat>>, newFrames: map<nat, seq<nat>>) {
    oldFrames.Keys == newFrames.Keys &&
    forall a {:trigger newFrames[a]} {:trigger oldFrames[a]} ::
      a in oldFrames && a !in oldLevels && UsedFrame(p, before, a) ==> newFrames[a] == oldFrames[a]
  }

  /** Used frames stay used, and every new table sits in a pool frame that was free. */
  ghost predicate GrowsFrom(p: Params, before: seq<bool>, oldLevels: map<nat, nat>, after: seq<bool>, newLevels: map<nat, nat>) {
    |before| == |after| &&
    (forall f :: 0 <= f < |before| && before[f] ==> after[f]) &&
    oldLevels.Keys <= newLevels.Keys &&
    (forall a {:trigger a in newLevels} :: a in newLevels && a !in oldLevels ==>
      p.IsFrameAddr(a) && p.FrameIndex(a) < |before| && !before[p.FrameIndex(a)])
  }

  lemma GrowsFromTransitive(p: Params, b0: seq<bool>, l0: map<nat, nat>, b1: seq<bool>, l1: map<nat, nat>, b2: seq<bool>, l2: map<nat, nat>)
    requires GrowsFrom(p, b0, l0, b1, l1) && GrowsFrom(p, b1, l1, b2, l2)
    ensures GrowsFrom(p, b0, l0, b2, l2)
  {
  }

  lemma KeepsDataTransitive(p: Params, b0: seq<bool>, l0: map<nat, nat>, f0: map<nat, seq<nat>>,
                            b1: seq<bool>, l1: map<nat, nat>, f1: map<nat, seq<nat>>, f2: map<nat, seq<nat>>)
    requires KeepsData(p, b0, l0, f0, f1) && GrowsFrom(p, b0, l0, b1, l1) && KeepsData(p, b1, l1, f1, f2)
    ensures KeepsData(p, b0, l0, f0, f2)
  {
    forall a | a in f0 && a !in l0 && UsedFrame(p, b0, a)
      ensures f2[a] == f0[a]
    {
      assert UsedFrame(p, b1, a);
    }
  }

  /**
   * The allocator's state as a value: the parameters, mem_map (true for a
   * used frame), the contents of every pool frame by physical address, and,
   * as a proof device, the frames that hold page tables with their levels.
   */
  datatype Pool = Pool(p: Params, used: seq<bool>, frames: map<nat, seq<nat>>, levels: map<nat, nat>)
  {
    ghost function View(): TableView {
      TableView(p, frames, levels)
    }

    /**
     * The tables are well formed, `frames` covers exactly the pool frames,
     * mem_map has one flag per frame, and every table frame is in use.
     */
    ghost predicate Valid() {
      View().Wf() && |used| == p.pagingPages &&
      (forall a {:trigger a in frames} :: a in frames <==> p.IsFrameAddr(a)) &&
      (forall a {:trigger a in levels} :: a in levels ==> used[p.FrameIndex(a)])
    }
  }

  /** The first free entry of `used` at or after `from`, or |used| when there is none. */
  function FirstFree(used: seq<bool>, from: nat): (i: nat)
    requires from <= |used|
    ensures from <= i <= |used|
    ensures i < |used| ==> !used[i]
    ensures forall j :: from <= j < i ==> used[j]
    decreases |used| - from
  {
    if from == |used| || !used[from] then from else FirstFree(used, from + 1)
  }

  /** Frame `i` taken: marked used and zero-filled (the memzero of get_free_page). */
  ghost function TakeFrame(s: Pool, i: nat): (t: Pool)
    requires i < |s.used|
  {
    s.(used := s.used[i := true], frames := s.frames[s.p.FrameAddr(i) := ZeroFrame()])
  }

  /**
   * get_free_page on a pool state: the lowest free frame is taken and its
   * physical address returned; 0 when every frame is used.
   */
  ghost function GetFreePageSpec(s: Pool): (r: (Pool, nat))
  {
    var i := FirstFree(s.used, 0);
    if i == |s.used| then (s, 0) else (TakeFrame(s, i), s.p.FrameAddr(i))
  }

  /**
   * `t` is a valid successor of `s`: the hierarchy only grew, every used
   * frame that held no table keeps its contents, used frames stay used,
   * and every new table sits in a frame that was free.
   */
  ghost predicate Grows(s: Pool, t: Pool) {
    t.Valid() && t.p == s.p && Extends(s.View(), t.View()) &&
    KeepsData(s.p, s.used, s.levels, s.frames, t.frames) &&
    GrowsFrom(s.p, s.used, s.levels, t.used, t.levels)
  }

  lemma GrowsReflexive(s: Pool)
    requires s.Valid()
    ensures Grows(s, s)
  {
  }

  lemma GrowsTransitive(s: Pool, t: Pool, u: Pool)
    requires Grows(s, t) && Grows(t, u)
    ensures Grows(s, u)
  {
    ExtendsTransitive(s.View(), t.View(), u.View());
    KeepsDataTransitive(s.p, s.used, s.levels, s.frames, t.used, t.levels, t.frames, u.frames);
  }

  /**
   * get_free_page fails exactly when no frame is free, and then changes
   * nothing; otherwise it hands out the lowest free frame, which held no
   * table, marks it used and zero-fills it, and the free count drops by one.
   */
  lemma GetFreePageTakesLowest(s: Pool)
    requires s.Valid()
    ensures var r := GetFreePageSpec(s);
      (r.1 == 0 <==> FreeCount(s.used) == 0) &&
      (r.1 == 0 ==> r.0 == s) &&
      (r.1 != 0 ==>
        s.p.IsFrameAddr(r.1) && r.1 !in s.levels &&
        IsLowestFree(s.used, s.p.FrameIndex(r.1)) &&
        r.0 == TakeFrame(s, s.p.FrameIndex(r.1))) &&
      FreeCount(r.0.used) == FreeCount(s.used) - (if r.1 == 0 then 0 else 1)
  {
    var i := FirstFree(s.used, 0);
    FreeCountZero(s.used);
    if i < |s.used| {
      FrameAddrRoundTrip(s.p, i);
      FreeCountTake(s.used, i);
    }
  }

  /** Taking a free frame that holds no table changes no table and no used frame. */
  lemma TakeFrameKeepsTables(s: Pool, i: nat)
    requires s.Valid() && i < |s.used| && !s.used[i]
    ensures var t := TakeFrame(s, i);
      Grows(s, t) && SameTables(s.View(), t.View()) && t.levels == s.levels &&
      s.p.FrameAddr(i) in t.frames && t.frames[s.p.FrameAddr(i)] == ZeroFrame()
  {
    var t := TakeFrame(s, i);
    var page := s.p.FrameAddr(i);
    FrameAddrRoundTrip(s.p, i);
    assert page !in s.levels;
    ReplaceDataFrame(s.View(), page, ZeroFrame());
    assert t.View() == s.View().(frames := s.View().frames[page := ZeroFrame()]);
    SameTablesExtends(s.View(), t.View());
    forall a | a in t.levels
      ensures t.used[s.p.FrameIndex(a)]
    {
      assert s.used[s.p.FrameIndex(a)];
    }
    forall a | a in s.frames && a !in s.levels && UsedFrame(s.p, s.used, a)
      ensures t.frames[a] == s.frames[a]
    {
      assert a != page;
    }
  }

  /** get_free_page keeps the pool valid and touches no table and no used frame. */
  lemma GetFreePageKeepsTables(s: Pool)
    requires s.Valid()
    ensures var r := GetFreePageSpec(s);
      Grows(s, r.0) && r.0.levels == s.levels && SameTables(s.View(), r.0.View())
  {
    var i := FirstFree(s.used, 0);
    if i < |s.used| {
      TakeFrameKeepsTables(s, i);
    }
  }

  /** free_page on a pool state: clear the used flag of the frame holding `a`. */
  ghost function FreePageSpec(s: Pool, a: nat): (t: Pool)
    requires |s.used| == s.p.pagingPages && s.p.lowMemory <= a < s.p.HighMemory()
  {
    s.(used := s.used[s.p.FrameIndex(a) := false])
  }

  /**
   * Freeing a frame that holds no table keeps the pool valid and every
   * frame's contents, and raises the free count by one when it was used.
   */
  lemma FreePageKeepsPool(s: Pool, a: nat)
    requires s.Valid() && s.p.lowMemory <= a < s.p.HighMemory()
    requires s.p.FrameAddr(s.p.FrameIndex(a)) !in s.levels
    ensures var t := FreePageSpec(s, a);
      t.Valid() && t.View() == s.View() &&
      !t.used[s.p.FrameIndex(a)] &&
      (forall f :: 0 <= f < |s.used| && f != s.p.FrameIndex(a) ==> t.used[f] == s.used[f]) &&
      FreeCount(t.used) == FreeCount(s.used) + (if s.used[s.p.FrameIndex(a)] then 1 else 0)
  {
    var i := s.p.FrameIndex(a);
    if s.used[i] {
      FreeCountRelease(s.used, i);
    } else {
      assert s.used[i := false] == s.used;
    }
    forall b | b in s.levels
      ensures s.p.FrameIndex(b) != i
    {
      FrameIndexRoundTrip(s.p, b);
    }
  }

  /** Frame `g` becomes a table of level `level + 1` and slot `idx` of `table` points to it. */
  ghost function LinkNewTable(s: Pool, table: nat, idx: nat, g: nat, level: nat): (t: Pool)
    requires table in s.frames && idx < |s.frames[table]|
  {
    s.(frames := WriteSlot(s.frames, table, idx, g + s.p.tableFlags), levels := s.levels[g := level + 1])
  }

  /**
   * map_table on a pool state, with the allocation failure checked: an
   * empty slot of `table` receives a fresh zeroed table of level
   * `level + 1`; a filled slot gives back the address of the table it
   * points to.  Result: (new state, next-level table or 0, new_table).
   */
  ghost function MapTableSpec(s: Pool, table: nat, level: nat, va: nat): (r: (Pool, nat, bool))
    requires s.Valid() && level < 3 && s.View().IsTable(table, level)
  {
    var idx := TableIndex(va, level);
    var e := s.frames[table][idx];
    var i := FirstFree(s.used, 0);
    if e != 0 then (s, PageAlign(e), false)
    else if i == |s.used| then (s, 0, true)
    else (LinkNewTable(TakeFrame(s, i), table, idx, s.p.FrameAddr(i), level), s.p.FrameAddr(i), true)
  }

  /**
   * Installing a fresh table for an empty slot: frame `g`, zero-filled and
   * holding no table, becomes a table of level `level + 1`, and slot `idx`
   * of `table` receives its descriptor.  The result is well formed, grows
   * the hierarchy, keeps every data frame, and the step from `table` now
   * leads to `g`.
   */
  lemma InstallTable(v0: TableView, v: TableView, used: seq<bool>, table: nat, level: nat, va: nat, idx: nat, g: nat)
    requires SameTables(v0, v) && v.Wf() && level < 3 && v.IsTable(table, level)
    requires idx == TableIndex(va, level) && v.Row(table)[idx] == 0
    requires g in v.frames && g !in v.levels && v.frames[g] == ZeroFrame()
    ensures var w := TableView(v.p, WriteSlot(v.frames, table, idx, g + v.p.tableFlags), v.levels[g := level + 1]);
      w.Wf() && Extends(v0, w) && w.Row(g) == ZeroFrame() &&
      w.Step(Some(table), level, va) == Some(g) &&
      KeepsData(v.p, used, v.levels, v.frames, w.frames)
  {
    SameTablesExtends(v0, v);
    var v1 := v.(levels := v.levels[g := level + 1]);
    AddZeroTable(v, g, level + 1);
    assert v1.Row(table) == v.Row(table);
    LinkTable(v1, table, level, idx, g);
    var w := v1.(frames := WriteSlot(v1.frames, table, idx, g + v.p.tableFlags));
    ExtendsTransitive(v, v1, w);
    ExtendsTransitive(v0, v, w);
    assert w.Slot(table, level, va) == g + v.p.tableFlags;
  }

  /** A filled slot: map_table changes nothing and returns the table the slot points to. */
  lemma MapTableFound(s: Pool, table: nat, level: nat, va: nat)
    requires s.Valid() && level < 3 && s.View().IsTable(table, level)
    requires s.View().Slot(table, level, va) != 0
    ensures var r := MapTableSpec(s, table, level, va);
      r.0 == s && !r.2 && r.1 != 0 && r.1 + s.p.tableFlags == s.View().Slot(table, level, va) &&
      s.View().Step(Some(table), level, va) == Some(r.1)
  {
    var e := s.View().Slot(table, level, va);
    assert s.View().IsDescriptorTo(e, level + 1);
    FrameIndexRoundTrip(s.p, e - s.p.tableFlags);
    DescriptorAddress(e - s.p.tableFlags, s.p.tableFlags);
  }

  /**
   * Taking free frame `i` and linking it, as a table of level `level + 1`,
   * into the empty slot of `table` that `va` selects.
   */
  lemma TakeAndLink(s: Pool, i: nat, table: nat, level: nat, va: nat)
    requires s.Valid() && level < 3 && s.View().IsTable(table, level)
    requires s.View().Slot(table, level, va) == 0 && i < |s.used| && !s.used[i]
    ensures var g := s.p.FrameAddr(i);
      var u := LinkNewTable(TakeFrame(s, i), table, TableIndex(va, level), g, level);
      Grows(s, u) && u.used == s.used[i := true] && u.levels == s.levels[g := level + 1] &&
      u.View().Row(g) == ZeroFrame() && u.View().Step(Some(table), level, va) == Some(g)
  {
    var g := s.p.FrameAddr(i);
    var t := TakeFrame(s, i);
    TakeFrameKeepsTables(s, i);
    var idx := TableIndex(va, level);
    var u := LinkNewTable(t, table, idx, g, level);
    InstallTable(s.View(), t.View(), t.used, table, level, va, idx, g);
    assert u.View() == TableView(s.p, WriteSlot(t.frames, table, idx, g + s.p.tableFlags), t.levels[g := level + 1]);
    KeepsDataTransitive(s.p, s.used, s.levels, s.frames, t.used, t.levels, t.frames, u.frames);
    forall a | a in u.levels
      ensures u.used[s.p.FrameIndex(a)]
    {
      if a != g {
        assert t.used[s.p.FrameIndex(a)];
      }
    }
    assert GrowsFrom(s.p, s.used, s.levels, u.used, u.levels);
  }

  /**
   * An empty slot with a free frame: map_table takes the lowest free frame,
   * makes it a zeroed table of the next level and links it into the slot.
   */
  lemma MapTableInstalls(s: Pool, table: nat, level: nat, va: nat)
    requires s.Valid() && level < 3 && s.View().IsTable(table, level)
    requires s.View().Slot(table, level, va) == 0 && FreeCount(s.used) > 0
    ensures var r := MapTableSpec(s, table, level, va);
      r.2 && r.1 != 0 && Grows(s, r.0) &&
      r.1 !in s.levels && IsLowestFree(s.used, s.p.FrameIndex(r.1)) &&
      r.0.used == s.used[s.p.FrameIndex(r.1) := true] &&
      r.0.levels == s.levels[r.1 := level + 1] && r.0.View().Row(r.1) == ZeroFrame() &&
      r.0.View().Step(Some(table), level, va) == Some(r.1) &&
      FreeCount(r.0.used) == FreeCount(s.used) - 1
  {
    GetFreePageTakesLowest(s);
    var i := FirstFree(s.used, 0);
    var g := s.p.FrameAddr(i);
    FrameAddrRoundTrip(s.p, i);
    TakeAndLink(s, i, table, level, va);
    var u := LinkNewTable(TakeFrame(s, i), table, TableIndex(va, level), g, level);
    assert MapTableSpec(s, table, level, va) == (u, g, true);
  }

  /**
   * map_table keeps the pool valid and only grows the hierarchy.  It
   * creates a table exactly when the slot is empty, fails exactly when it
   * must create one and no frame is free, and then changes nothing;
   * otherwise the slot now leads to the returned table, which is zero-filled
   * when it was created.
   */
  lemma MapTableFacts(s: Pool, table: nat, level: nat, va: nat)
    requires s.Valid() && level < 3 && s.View().IsTable(table, level)
    ensures var r := MapTableSpec(s, table, level, va);
      Grows(s, r.0) &&
      (r.2 <==> s.View().Slot(table, level, va) == 0) &&
      (r.1 == 0 <==> r.2 && FreeCount(s.used) == 0) &&
      (r.1 == 0 ==> r.0 == s) &&
      (r.1 != 0 ==> r.0.View().Step(Some(table), level, va) == Some(r.1)) &&
      (r.2 && r.1 != 0 ==> r.1 !in s.levels && r.0.View().Row(r.1) == ZeroFrame()) &&
      FreeCount(r.0.used) == FreeCount(s.used) - (if r.2 && r.1 != 0 then 1 else 0)
  {
    if s.View().Slot(table, level, va) != 0 {
      MapTableFound(s, table, level, va);
    } else if FreeCount(s.used) > 0 {
      MapTableInstalls(s, table, level, va);
    } else {
      FreeCountZero(s.used);
    }
  }

  /** map_table keeps the pool valid. */
  lemma MapTableValid(s: Pool, table: nat, level: nat, va: nat)
    requires s.Valid() && level < 3 && s.View().IsTable(table, level)
    ensures MapTableSpec(s, table, level, va).0.Valid()
  {
    MapTableFacts(s, table, level, va);
  }

  /** The leaf store `pte[index] = e` for the slot that `va` selects in the leaf table `pte`. */
  ghost function WriteLeafSpec(s: Pool, pte: nat, va: nat, e: nat): (t: Pool)
    requires pte in s.frames && |s.frames[pte]| == PTRS_PER_TABLE
  {
    s.(frames := WriteSlot(s.frames, pte, TableIndex(va, 3), e))
  }

  /** A leaf store keeps the pool valid. */
  lemma WriteLeafValid(s: Pool, pte: nat, va: nat, e: nat)
    requires s.Valid() && s.View().IsTable(pte, 3)
    ensures WriteLeafSpec(s, pte, va, e).Valid()
  {
    var t := WriteLeafSpec(s, pte, va, e);
    assert t.View() == LeafWritten(s.View(), pte, TableIndex(va, 3), e);
    LeafWriteTranslate(s.View(), pte, TableIndex(va, 3), e, 0, va);
  }

  /**
   * A leaf store keeps the pool valid, changes no table above the leaf
   * level and no data frame, and changes the translation of exactly the
   * addresses whose walk ends in that slot: they now translate to `e`
   * (or to nothing when `e` is 0).
   */
  lemma WriteLeafFacts(s: Pool, pte: nat, va: nat, e: nat, pgd: nat, va2: nat)
    requires s.Valid() && s.View().IsTable(pte, 3)
    ensures var t := WriteLeafSpec(s, pte, va, e);
      t.Valid() && t.used == s.used && t.levels == s.levels &&
      SameUpperTables(s.View(), t.View()) &&
      KeepsData(s.p, s.used, s.levels, s.frames, t.frames) &&
      t.View().Translate(pgd, va2) ==
        if s.View().WalkTable(pgd, va2, 3) == Some(pte) && TableIndex(va2, 3) == TableIndex(va, 3) then
          (if e == 0 then None else Some(e))
        else s.View().Translate(pgd, va2)
  {
    var t := WriteLeafSpec(s, pte, va, e);
    assert t.View() == LeafWritten(s.View(), pte, TableIndex(va, 3), e);
    LeafWriteTranslate(s.View(), pte, TableIndex(va, 3), e, pgd, va2);
  }

  /**
   * One level of the walk in map_page: map_table on `table`, and a created
   * table recorded in kernel_pages.  Result: (new state, new descriptor,
   * next-level table or 0 when a table was needed and no frame was free).
   */
  ghost function MapLevelSpec(s: Pool, mm: MmStruct, table: nat, level: nat, va: nat): (r: (Pool, MmStruct, nat))
    requires s.Valid() && level < 3 && s.View().IsTable(table, level)
    requires s.View().Slot(table, level, va) == 0 ==> mm.kernelPagesCount + 1 < |mm.kernelPages|
  {
    MapTableFacts(s, table, level, va);
    var m := MapTableSpec(s, table, level, va);
    if m.2 && m.1 != 0 then (m.0, RecordTable(mm, m.1), m.1) else (m.0, mm, m.1)
  }

  /** The slot of a table the walk reaches is empty exactly when the next level is missing. */
  lemma EmptySlotMissing(v: TableView, pgd: nat, va: nat, level: nat, table: nat)
    requires v.Wf() && level < 3 && v.WalkTable(pgd, va, level) == Some(table)
    ensures v.Slot(table, level, va) == 0 <==> v.WalkTable(pgd, va, level + 1).None?
    ensures v.Slot(table, level, va) == 0 ==> v.Missing(pgd, va, level) == 3 - level
  {
    WalkStep(v, pgd, va, level);
    if v.Slot(table, level, va) == 0 {
      MissingBelowGap(v, pgd, va, level);
    } else {
      assert v.IsDescriptorTo(v.Slot(table, level, va), level + 1);
    }
  }

  /**
   * One level of the walk keeps the pool and the descriptor valid and only
   * appends created tables to kernel_pages.  It fails exactly when the next
   * level is missing and no frame is free, and then changes nothing;
   * otherwise the walk reaches the returned table one level down, and each
   * table created is one fewer missing level.
   */
  lemma MapLevelFacts(s: Pool, mm: MmStruct, table: nat, level: nat, va: nat)
    requires s.Valid() && MmValid(s.View(), mm) && level < 3
    requires s.View().WalkTable(mm.pgd, va, level) == Some(table)
    requires mm.kernelPagesCount + s.View().Missing(mm.pgd, va, level) < |mm.kernelPages|
    ensures s.View().Slot(table, level, va) == 0 ==> mm.kernelPagesCount + 1 < |mm.kernelPages|
    ensures var r := MapLevelSpec(s, mm, table, level, va);
      Grows(s, r.0) && MmValid(r.0.View(), r.1) && KernelPagesExtended(mm, r.1, s.levels, r.0.levels) &&
      r.1.pgd == mm.pgd && r.1.userPages == mm.userPages && r.1.userPagesCount == mm.userPagesCount &&
      FreeCount(r.0.used) + (r.1.kernelPagesCount - mm.kernelPagesCount) == FreeCount(s.used) &&
      (r.2 == 0 <==> s.View().WalkTable(mm.pgd, va, level + 1).None? && FreeCount(s.used) == 0) &&
      (r.2 == 0 ==> r.0 == s && r.1 == mm) &&
      (r.2 != 0 ==>
        r.0.View().WalkTable(mm.pgd, va, level + 1) == Some(r.2) &&
        r.1.kernelPagesCount + r.0.View().Missing(mm.pgd, va, level + 1) ==
          mm.kernelPagesCount + s.View().Missing(mm.pgd, va, level))
  {
    var v := s.View();
    EmptySlotMissing(v, mm.pgd, va, level, table);
    MapTableFacts(s, table, level, va);
    var m := MapTableSpec(s, table, level, va);
    var r := MapLevelSpec(s, mm, table, level, va);
    var w := m.0.View();
    WalkStep(v, mm.pgd, va, level);
    if m.1 != 0 {
      ExtendsKeepsWalk(v, w, mm.pgd, va, level);
      WalkStep(w, mm.pgd, va, level);
      if m.2 {
        FreshTableMissing(w, mm.pgd, va, level + 1, m.1);
      } else {
        assert m.0 == s;
      }
    }
    assert m.0.levels.Keys >= s.levels.Keys;
  }

  /** What the next level of the walk needs from a successful level, and the walk unfolded once. */
  lemma MapLevelNext(s: Pool, mm: MmStruct, table: nat, level: nat, va: nat)
    requires s.Valid() && MmValid(s.View(), mm) && level < 3
    requires s.View().WalkTable(mm.pgd, va, level) == Some(table)
    requires mm.kernelPagesCount + s.View().Missing(mm.pgd, va, level) < |mm.kernelPages|
    ensures s.View().Slot(table, level, va) == 0 ==> mm.kernelPagesCount + 1 < |mm.kernelPages|
    ensures var r := MapLevelSpec(s, mm, table, level, va);
      r.2 != 0 ==>
        r.0.Valid() && MmValid(r.0.View(), r.1) && r.1.pgd == mm.pgd &&
        r.0.View().WalkTable(mm.pgd, va, level + 1) == Some(r.2) &&
        r.1.kernelPagesCount + r.0.View().Missing(mm.pgd, va, level + 1) < |r.1.kernelPages|
    ensures var r := MapLevelSpec(s, mm, table, level, va);
      WalkFrom(s, mm, table, level, va) == if r.2 == 0 then r else WalkFrom(r.0, r.1, r.2, level + 1, va)
  {
    MapLevelFacts(s, mm, table, level, va);
  }

  /**
   * The first lines of map_page: a task without a pgd gets the lowest free
   * frame as its (zeroed) pgd, recorded in kernel_pages.  Fails when no
   * frame is free.  Result: (new state, new descriptor, has a pgd).
   */
  ghost function EnsurePgdSpec(s: Pool, mm: MmStruct): (r: (Pool, MmStruct, bool))
    requires mm.pgd == 0 ==> mm.kernelPagesCount + 1 < |mm.kernelPages|
  {
    var i := FirstFree(s.used, 0);
    if mm.pgd != 0 then (s, mm, true)
    else if i == |s.used| then (s, mm, false)
    else
      var g := s.p.FrameAddr(i);
      (TakeFrame(s, i).(levels := s.levels[g := 0]), RecordTable(mm.(pgd := g), g), true)
  }

  /**
   * Getting a pgd keeps the pool and the descriptor valid.  It fails
   * exactly when the task has none and no frame is free, and then changes
   * nothing; afterwards the pgd is a level-0 table and the tables still to
   * create for any address are counted by the missing levels.
   */
  lemma EnsurePgdFacts(s: Pool, mm: MmStruct, va: nat)
    requires s.Valid() && MmValid(s.View(), mm)
    requires mm.pgd == 0 ==> mm.kernelPagesCount + 1 < |mm.kernelPages|
    ensures var r := EnsurePgdSpec(s, mm);
      Grows(s, r.0) && MmValid(r.0.View(), r.1) && KernelPagesExtended(mm, r.1, s.levels, r.0.levels) &&
      r.1.userPages == mm.userPages && r.1.userPagesCount == mm.userPagesCount &&
      FreeCount(r.0.used) + (r.1.kernelPagesCount - mm.kernelPagesCount) == FreeCount(s.used) &&
      (r.2 <==> mm.pgd != 0 || FreeCount(s.used) > 0) &&
      (!r.2 || mm.pgd != 0 ==> r.0 == s && r.1 == mm) &&
      (r.2 ==>
        r.0.View().IsTable(r.1.pgd, 0) &&
        r.1.kernelPagesCount + r.0.View().Missing(r.1.pgd, va, 0) ==
          mm.kernelPagesCount + s.View().TablesToCreate(mm.pgd, va))
  {
    var v := s.View();
    GetFreePageTakesLowest(s);
    var r := EnsurePgdSpec(s, mm);
    if mm.pgd != 0 {
      TablesToCreateWithPgd(v, mm.pgd, va);
    } else if FreeCount(s.used) > 0 {
      var i := FirstFree(s.used, 0);
      var g := s.p.FrameAddr(i);
      FrameAddrRoundTrip(s.p, i);
      TakeFrameKeepsTables(s, i);
      var t := TakeFrame(s, i);
      AddZeroTable(t.View(), g, 0);
      assert r.0.View() == t.View().(levels := t.View().levels[g := 0]);
      ExtendsTransitive(v, t.View(), r.0.View());
      KeepsDataTransitive(s.p, s.used, s.levels, s.frames, t.used, t.levels, t.frames, r.0.frames);
      forall a | a in r.0.levels
        ensures r.0.used[s.p.FrameIndex(a)]
      {
        if a != g {
          assert t.used[s.p.FrameIndex(a)];
        }
      }
      FreshTableMissing(r.0.View(), g, va, 0, g);
      TablesToCreateWithoutPgd(v, va);
    } else {
      FreeCountZero(s.used);
    }
  }

  /**
   * The walk of map_page from the table reached at `level` down to the
   * leaf table, creating missing tables on the way.  Result: (new state,
   * new descriptor, leaf table or 0 when a table was needed and no frame
   * was free).
   */
  ghost function WalkFrom(s: Pool, mm: MmStruct, table: nat, level: nat, va: nat): (r: (Pool, MmStruct, nat))
    requires s.Valid() && MmValid(s.View(), mm) && level <= 3
    requires s.View().WalkTable(mm.pgd, va, level) == Some(table)
    requires mm.kernelPagesCount + s.View().Missing(mm.pgd, va, level) < |mm.kernelPages|
    decreases 3 - level
  {
    if level == 3 then (s, mm, table)
    else
      MapLevelFacts(s, mm, table, level, va);
      var m := MapLevelSpec(s, mm, table, level, va);
      if m.2 == 0 then m else WalkFrom(m.0, m.1, m.2, level + 1, va)
  }

  /**
   * The walk keeps the pool and the descriptor valid and appends exactly
   * the tables it creates to kernel_pages, one free frame each.  It reaches
   * the leaf table exactly when there are at least as many free frames as
   * missing levels; otherwise it stops with the pool exhausted.
   */
  lemma {:induction false} WalkFromFacts(s: Pool, mm: MmStruct, table: nat, level: nat, va: nat)
    requires s.Valid() && MmValid(s.View(), mm) && level <= 3
    requires s.View().WalkTable(mm.pgd, va, level) == Some(table)
    requires mm.kernelPagesCount + s.View().Missing(mm.pgd, va, level) < |mm.kernelPages|
    ensures var r := WalkFrom(s, mm, table, level, va);
      Grows(s, r.0) && MmValid(r.0.View(), r.1) && KernelPagesExtended(mm, r.1, s.levels, r.0.levels) &&
      r.1.pgd == mm.pgd && r.1.userPages == mm.userPages && r.1.userPagesCount == mm.userPagesCount &&
      FreeCount(r.0.used) + (r.1.kernelPagesCount - mm.kernelPagesCount) == FreeCount(s.used) &&
      (r.2 != 0 <==> s.View().Missing(mm.pgd, va, level) <= FreeCount(s.used)) &&
      (r.2 != 0 ==>
        r.0.View().WalkTable(mm.pgd, va, 3) == Some(r.2) &&
        r.1.kernelPagesCount == mm.kernelPagesCount + s.View().Missing(mm.pgd, va, level)) &&
      (r.2 == 0 ==> FreeCount(r.0.used) == 0)
    decreases 3 - level
  {
    if level == 3 {
      GrowsReflexive(s);
      assert table != 0 by {
        assert s.View().IsTable(table, 3);
      }
    } else {
      MapLevelFacts(s, mm, table, level, va);
      var m := MapLevelSpec(s, mm, table, level, va);
      if m.2 == 0 {
        GrowsReflexive(s);
        EmptySlotMissing(s.View(), mm.pgd, va, level, table);
      } else {
        WalkFromFacts(m.0, m.1, m.2, level + 1, va);
        var r := WalkFrom(m.0, m.1, m.2, level + 1, va);
        GrowsTransitive(s, m.0, r.0);
        KernelPagesExtendedTransitive(mm, m.1, r.1, s.levels, m.0.levels, r.0.levels);
      }
    }
  }

  /**
   * The walk of map_page and map_guard_page (src/mm.c lines 74-95): get a
   * pgd if needed, then map_table at levels 0, 1 and 2.  Result: (new
   * state, new descriptor, leaf table or 0 on exhaustion).
   */
  ghost function WalkToLeafSpec(s: Pool, mm: MmStruct, va: nat): (r: (Pool, MmStruct, nat))
    requires s.Valid() && MmValid(s.View(), mm)
    requires mm.kernelPagesCount + s.View().TablesToCreate(mm.pgd, va) < |mm.kernelPages|
  {
    assert mm.pgd == 0 ==> s.View().TablesToCreate(mm.pgd, va) == 4 by {
      TablesToCreateWithoutPgd(s.View(), va);
    }
    EnsurePgdFacts(s, mm, va);
    var e := EnsurePgdSpec(s, mm);
    if !e.2 then (e.0, e.1, 0) else WalkFrom(e.0, e.1, e.1.pgd, 0, va)
  }

  /**
   * Walking to the leaf table keeps the pool and the descriptor valid,
   * keeps an existing pgd, and uses one free frame per table created.  It
   * succeeds exactly when the free frames cover the tables to create, and
   * then `va` walks to the returned leaf table and every created table is
   * recorded in kernel_pages; otherwise the pool is left exhausted.
   */
  lemma WalkToLeafFacts(s: Pool, mm: MmStruct, va: nat)
    requires s.Valid() && MmValid(s.View(), mm)
    requires mm.kernelPagesCount + s.View().TablesToCreate(mm.pgd, va) < |mm.kernelPages|
    ensures var r := WalkToLeafSpec(s, mm, va);
      Grows(s, r.0) && MmValid(r.0.View(), r.1) && KernelPagesExtended(mm, r.1, s.levels, r.0.levels) &&
      (mm.pgd != 0 ==> r.1.pgd == mm.pgd) &&
      r.1.userPages == mm.userPages && r.1.userPagesCount == mm.userPagesCount &&
      FreeCount(r.0.used) + (r.1.kernelPagesCount - mm.kernelPagesCount) == FreeCount(s.used) &&
      (r.2 != 0 <==> s.View().TablesToCreate(mm.pgd, va) <= FreeCount(s.used)) &&
      (r.2 != 0 ==>
        r.0.View().WalkTable(r.1.pgd, va, 3) == Some(r.2) &&
        r.1.kernelPagesCount == mm.kernelPagesCount + s.View().TablesToCreate(mm.pgd, va)) &&
      (r.2 == 0 ==> FreeCount(r.0.used) == 0)
  {
    TablesToCreateWithoutPgd(s.View(), va);
    EnsurePgdFacts(s, mm, va);
    var e := EnsurePgdSpec(s, mm);
    if e.2 {
      WalkFromFacts(e.0, e.1, e.1.pgd, 0, va);
      var r := WalkFrom(e.0, e.1, e.1.pgd, 0, va);
      GrowsTransitive(s, e.0, r.0);
      KernelPagesExtendedTransitive(mm, e.1, r.1, s.levels, e.0.levels, r.0.levels);
    } else {
      GrowsReflexive(s);
      FreeCountZero(s.used);
    }
  }

  /** The part of the walk's outcome that the leaf store needs. */
  lemma WalkToLeafShape(s: Pool, mm: MmStruct, va: nat)
    requires s.Valid() && MmValid(s.View(), mm)
    requires mm.kernelPagesCount + s.View().TablesToCreate(mm.pgd, va) < |mm.kernelPages|
    ensures var r := WalkToLeafSpec(s, mm, va);
      r.0.Valid() && r.0.p == s.p && r.1.userPages == mm.userPages && r.1.userPagesCount == mm.userPagesCount &&
      (r.2 != 0 ==> r.0.View().IsTable(r.2, 3) && r.2 in r.0.frames && |r.0.frames[r.2]| == PTRS_PER_TABLE)
  {
    WalkToLeafFacts(s, mm, va);
  }
  /** `task->mm.user_pages[task->mm.user_pages_count++] = (page, va)`. */
  function RecordUserPage(mm: MmStruct, page: nat, va: nat): (r: MmStruct)
    requires mm.userPagesCount < |mm.userPages|
    ensures r.userPagesCount == mm.userPagesCount + 1 && |r.userPages| == |mm.userPages|
    ensures r.userPages[mm.userPagesCount] == UserPage(page, va)
    ensures forall k :: 0 <= k < |mm.userPages| && k != mm.userPagesCount ==> r.userPages[k] == mm.userPages[k]
    ensures r.pgd == mm.pgd && r.kernelPagesCount == mm.kernelPagesCount && r.kernelPages == mm.kernelPages
  {
    mm.(userPages := mm.userPages[mm.userPagesCount := UserPage(page, va)], userPagesCount := mm.userPagesCount + 1)
  }

  /**
   * The part shared by map_page and map_guard_page, with allocation
   * failures checked: walk to the leaf table for `va`, creating what is
   * missing, and store the entry `e` in its slot.  Result: (new state, new
   * descriptor, success).
   */
  ghost function LeafStoreSpec(s: Pool, mm: MmStruct, va: nat, e: nat): (r: (Pool, MmStruct, bool))
    requires s.Valid() && MmValid(s.View(), mm)
    requires mm.kernelPagesCount + s.View().TablesToCreate(mm.pgd, va) < |mm.kernelPages|
  {
    WalkToLeafShape(s, mm, va);
    var w := WalkToLeafSpec(s, mm, va);
    if w.2 == 0 then (w.0, w.1, false)
    else (WriteLeafSpec(w.0, w.2, va, e), w.1, true)
  }

  /** The leaf store leaves user_pages alone. */
  lemma LeafStoreShape(s: Pool, mm: MmStruct, va: nat, e: nat)
    requires s.Valid() && MmValid(s.View(), mm)
    requires mm.kernelPagesCount + s.View().TablesToCreate(mm.pgd, va) < |mm.kernelPages|
    ensures var r := LeafStoreSpec(s, mm, va, e);
      r.1.userPages == mm.userPages && r.1.userPagesCount == mm.userPagesCount
  {
    WalkToLeafShape(s, mm, va);
  }

  /**
   * The leaf store keeps the pool valid, every data frame and every used
   * flag; it only adds tables.
   */
  lemma LeafStoreKeeps(s: Pool, mm: MmStruct, va: nat, e: nat)
    requires s.Valid() && MmValid(s.View(), mm)
    requires mm.kernelPagesCount + s.View().TablesToCreate(mm.pgd, va) < |mm.kernelPages|
    ensures var r := LeafStoreSpec(s, mm, va, e);
      r.0.Valid() && r.0.p == s.p &&
      KeepsData(s.p, s.used, s.levels, s.frames, r.0.frames) &&
      GrowsFrom(s.p, s.used, s.levels, r.0.used, r.0.levels)
  {
    WalkToLeafFacts(s, mm, va);
    var w := WalkToLeafSpec(s, mm, va);
    if w.2 != 0 {
      WriteLeafFacts(w.0, w.2, va, e, w.1.pgd, va);
      var t := WriteLeafSpec(w.0, w.2, va, e);
      KeepsDataTransitive(s.p, s.used, s.levels, s.frames, w.0.used, w.0.levels, w.0.frames, t.frames);
    }
  }

  /**
   * The leaf store keeps the descriptor valid: tables it creates are
   * recorded in kernel_pages, an existing pgd stays, and user_pages is not
   * touched.
   */
  lemma LeafStoreKeepsDescriptor(s: Pool, mm: MmStruct, va: nat, e: nat)
    requires s.Valid() && MmValid(s.View(), mm)
    requires mm.kernelPagesCount + s.View().TablesToCreate(mm.pgd, va) < |mm.kernelPages|
    ensures var r := LeafStoreSpec(s, mm, va, e);
      MmValid(r.0.View(), r.1) &&
      KernelPagesExtended(mm, r.1, s.levels, r.0.levels) &&
      r.1.kernelPagesCount <= mm.kernelPagesCount + s.View().TablesToCreate(mm.pgd, va) &&
      (mm.pgd != 0 ==> r.1.pgd == mm.pgd) &&
      r.1.userPages == mm.userPages && r.1.userPagesCount == mm.userPagesCount
  {
    WalkToLeafFacts(s, mm, va);
    var w := WalkToLeafSpec(s, mm, va);
    if w.2 != 0 {
      WriteLeafValid(w.0, w.2, va, e);
    }
  }

  /**
   * The leaf store succeeds exactly when the free frames cover the tables
   * to create; then `va` translates to `e` (to nothing when `e` is zero) and
   * one frame went to each new table.  On failure the hierarchy has only
   * grown and the pool is exhausted.
   */
  lemma LeafStoreOutcome(s: Pool, mm: MmStruct, va: nat, e: nat)
    requires s.Valid() && MmValid(s.View(), mm)
    requires mm.kernelPagesCount + s.View().TablesToCreate(mm.pgd, va) < |mm.kernelPages|
    ensures var r := LeafStoreSpec(s, mm, va, e);
      (r.2 <==> s.View().TablesToCreate(mm.pgd, va) <= FreeCount(s.used)) &&
      (r.2 ==>
        r.0.Valid() && r.0.View().Translate(r.1.pgd, va) == (if e == 0 then None else Some(e)) &&
        FreeCount(r.0.used) == FreeCount(s.used) - s.View().TablesToCreate(mm.pgd, va)) &&
      (!r.2 ==> Grows(s, r.0) && FreeCount(r.0.used) == 0)
  {
    WalkToLeafFacts(s, mm, va);
    var w := WalkToLeafSpec(s, mm, va);
    if w.2 != 0 {
      WriteLeafValid(w.0, w.2, va, e);
      WriteLeafFacts(w.0, w.2, va, e, w.1.pgd, va);
    }
  }

  /**
   * The leaf store changes no translation whose walk ends in another leaf
   * slot: every translation that existed stays, except the one for the
   * slot of `va`, which now holds `e`.
   */
  lemma LeafStoreKeepsOtherTranslations(s: Pool, mm: MmStruct, va: nat, e: nat, pgd2: nat, va2: nat)
    requires s.Valid() && MmValid(s.View(), mm)
    requires mm.kernelPagesCount + s.View().TablesToCreate(mm.pgd, va) < |mm.kernelPages|
    requires s.View().Translate(pgd2, va2).Some?
    ensures var r := LeafStoreSpec(s, mm, va, e);
      r.0.Valid() &&
      r.0.View().Translate(pgd2, va2) ==
        if r.2 && r.0.View().WalkTable(pgd2, va2, 3) == r.0.View().WalkTable(r.1.pgd, va, 3) &&
           TableIndex(va2, 3) == TableIndex(va, 3)
        then (if e == 0 then None else Some(e))
        else s.View().Translate(pgd2, va2)
  {
    WalkToLeafFacts(s, mm, va);
    var w := WalkToLeafSpec(s, mm, va);
    ExtendsKeepsTranslate(s.View(), w.0.View(), pgd2, va2);
    if w.2 != 0 {
      WriteLeafValid(w.0, w.2, va, e);
      WriteLeafFacts(w.0, w.2, va, e, pgd2, va2);
      var t := WriteLeafSpec(w.0, w.2, va, e);
      SameUpperTablesKeepWalk(w.0.View(), t.View(), pgd2, va2);
      SameUpperTablesKeepWalk(w.0.View(), t.View(), w.1.pgd, va);
    }
  }

  /**
   * map_page, with allocation failures checked: the leaf store of
   * `page | MMU_PTE_FLAGS` for `va`, then (page, va) recorded in
   * user_pages.  Result: (new state, new descriptor, success).
   */
  ghost function MapPageSpec(s: Pool, mm: MmStruct, va: nat, page: nat): (r: (Pool, MmStruct, bool))
    requires s.Valid() && MmValid(s.View(), mm)
    requires mm.kernelPagesCount + s.View().TablesToCreate(mm.pgd, va) < |mm.kernelPages|
    requires mm.userPagesCount < |mm.userPages|
  {
    LeafStoreShape(s, mm, va, s.p.PageEntry(page));
    var x := LeafStoreSpec(s, mm, va, s.p.PageEntry(page));
    if x.2 then (x.0, RecordUserPage(x.1, page, va), true) else x
  }

  /**
   * map_page keeps the pool and the descriptor valid, every data frame and
   * every used flag.  It succeeds exactly when the free frames cover the
   * tables to create; then `va` translates to `page` and (page, va) is
   * appended to user_pages.  On failure the hierarchy has only grown,
   * user_pages is unchanged and the pool is exhausted.
   */
  lemma MapPageFacts(s: Pool, mm: MmStruct, va: nat, page: nat)
    requires s.Valid() && MmValid(s.View(), mm)
    requires mm.kernelPagesCount + s.View().TablesToCreate(mm.pgd, va) < |mm.kernelPages|
    requires mm.userPagesCount < |mm.userPages|
    ensures var r := MapPageSpec(s, mm, va, page);
      r.0.Valid() && r.0.p == s.p && MmValid(r.0.View(), r.1) &&
      KernelPagesExtended(mm, r.1, s.levels, r.0.levels) &&
      r.1.kernelPagesCount <= mm.kernelPagesCount + s.View().TablesToCreate(mm.pgd, va) &&
      KeepsData(s.p, s.used, s.levels, s.frames, r.0.frames) &&
      GrowsFrom(s.p, s.used, s.levels, r.0.used, r.0.levels) &&
      (mm.pgd != 0 ==> r.1.pgd == mm.pgd) &&
      (r.2 <==> s.View().TablesToCreate(mm.pgd, va) <= FreeCount(s.used)) &&
      (r.2 ==>
        r.0.View().Translate(r.1.pgd, va) == Some(s.p.PageEntry(page)) &&
        r.1.userPagesCount == mm.userPagesCount + 1 &&
        r.1.userPages == mm.userPages[mm.userPagesCount := UserPage(page, va)] &&
        FreeCount(r.0.used) == FreeCount(s.used) - s.View().TablesToCreate(mm.pgd, va)) &&
      (!r.2 ==>
        Grows(s, r.0) && r.1.userPages == mm.userPages && r.1.userPagesCount == mm.userPagesCount &&
        FreeCount(r.0.used) == 0)
  {
    LeafStoreKeeps(s, mm, va, s.p.PageEntry(page));
    LeafStoreKeepsDescriptor(s, mm, va, s.p.PageEntry(page));
    LeafStoreOutcome(s, mm, va, s.p.PageEntry(page));
  }

  /**
   * map_page changes no translation whose walk ends in another leaf slot:
   * every translation that existed stays, except the one for the slot of
   * `va`, which now maps `page`.
   */
  lemma MapPageKeepsOtherTranslations(s: Pool, mm: MmStruct, va: nat, page: nat, pgd2: nat, va2: nat)
    requires s.Valid() && MmValid(s.View(), mm)
    requires mm.kernelPagesCount + s.View().TablesToCreate(mm.pgd, va) < |mm.kernelPages|
    requires mm.userPagesCount < |mm.userPages|
    requires s.View().Translate(pgd2, va2).Some?
    ensures var r := MapPageSpec(s, mm, va, page);
      r.0.Valid() &&
      r.0.View().Translate(pgd2, va2) ==
        if r.2 && r.0.View().WalkTable(pgd2, va2, 3) == r.0.View().WalkTable(r.1.pgd, va, 3) &&
           TableIndex(va2, 3) == TableIndex(va, 3)
        then Some(s.p.PageEntry(page))
        else s.View().Translate(pgd2, va2)
  {
    LeafStoreKeepsOtherTranslations(s, mm, va, s.p.PageEntry(page), pgd2, va2);
  }

  /**
   * get_free_page leaves every walk alone: the pool stays valid, the tables
   * and the descriptor's invariant are kept, and the frame it hands out is a
   * used pool frame, zero-filled, that holds no table.
   */
  lemma GetFreePageKeepsWalk(s: Pool, mm: MmStruct, va: nat)
    requires s.Valid() && MmValid(s.View(), mm)
    ensures var g := GetFreePageSpec(s);
      Grows(s, g.0) && g.0.levels == s.levels && MmValid(g.0.View(), mm) &&
      g.0.View().TablesToCreate(mm.pgd, va) == s.View().TablesToCreate(mm.pgd, va) &&
      (g.1 == 0 <==> FreeCount(s.used) == 0) &&
      FreeCount(g.0.used) == FreeCount(s.used) - (if g.1 == 0 then 0 else 1) &&
      (g.1 != 0 ==>
        s.p.lowMemory <= g.1 < s.p.HighMemory() && s.p.FrameAddr(s.p.FrameIndex(g.1)) == g.1 &&
        g.1 !in s.levels && !s.used[s.p.FrameIndex(g.1)] &&
        UsedFrame(s.p, g.0.used, g.1) && g.1 in g.0.frames && g.0.frames[g.1] == ZeroFrame())
  {
    GetFreePageKeepsTables(s);
    GetFreePageTakesLowest(s);
    var g := GetFreePageSpec(s);
    SameTablesKeepTranslate(s.View(), g.0.View(), mm.pgd, va);
    if g.1 != 0 {
      FrameIndexRoundTrip(s.p, g.1);
    }
  }

  /**
   * allocate_user_page, with the mapping failure checked: a fresh frame is
   * mapped at `va` for the task and its kernel address `page + VA_START`
   * returned.  Returns 0 when no frame was free, and also when the frame was
   * taken but a table on the way could not be allocated; the frame is then
   * given back.  Result: (new state, new descriptor, kernel address).
   */
  ghost function AllocateUserPageSpec(s: Pool, mm: MmStruct, va: nat): (r: (Pool, MmStruct, nat))
    requires s.Valid() && MmValid(s.View(), mm)
    requires mm.kernelPagesCount + s.View().TablesToCreate(mm.pgd, va) < |mm.kernelPages|
    requires mm.userPagesCount < |mm.userPages|
  {
    AllocateUserPageShape(s, mm, va);
    var g := GetFreePageSpec(s);
    if g.1 == 0 then (s, mm, 0)
    else
      var m := MapPageSpec(g.0, mm, va, g.1);
      if m.2 then (m.0, m.1, g.1 + VA_START) else (FreePageSpec(m.0, g.1), m.1, 0)
  }

  /** What each step of allocate_user_page needs from the one before. */
  lemma AllocateUserPageShape(s: Pool, mm: MmStruct, va: nat)
    requires s.Valid() && MmValid(s.View(), mm)
    requires mm.kernelPagesCount + s.View().TablesToCreate(mm.pgd, va) < |mm.kernelPages|
    ensures var g := GetFreePageSpec(s);
      g.0.Valid() && MmValid(g.0.View(), mm) &&
      mm.kernelPagesCount + g.0.View().TablesToCreate(mm.pgd, va) < |mm.kernelPages| &&
      (g.1 != 0 ==>
        s.p.lowMemory <= g.1 < s.p.HighMemory() &&
        var x := LeafStoreSpec(g.0, mm, va, s.p.PageEntry(g.1));
        x.0.Valid() && x.0.p == s.p && s.p.FrameAddr(s.p.FrameIndex(g.1)) !in x.0.levels)
  {
    GetFreePageKeepsWalk(s, mm, va);
    var g := GetFreePageSpec(s);
    if g.1 != 0 {
      LeafStoreKeeps(g.0, mm, va, s.p.PageEntry(g.1));
    }
  }

  /** allocate_user_page keeps the pool and the descriptor valid, and records only new tables. */
  lemma AllocateUserPageKeeps(s: Pool, mm: MmStruct, va: nat)
    requires s.Valid() && MmValid(s.View(), mm)
    requires mm.kernelPagesCount + s.View().TablesToCreate(mm.pgd, va) < |mm.kernelPages|
    requires mm.userPagesCount < |mm.userPages|
    ensures var r := AllocateUserPageSpec(s, mm, va);
      r.0.Valid() && r.0.p == s.p && MmValid(r.0.View(), r.1) &&
      KernelPagesExtended(mm, r.1, s.levels, r.0.levels) &&
      r.1.kernelPagesCount <= mm.kernelPagesCount + s.View().TablesToCreate(mm.pgd, va) &&
      r.1.userPagesCount <= mm.userPagesCount + 1
  {
    GetFreePageKeepsWalk(s, mm, va);
    var g := GetFreePageSpec(s);
    if g.1 != 0 {
      MapPageFacts(g.0, mm, va, g.1);
      var m := MapPageSpec(g.0, mm, va, g.1);
      var r := AllocateUserPageSpec(s, mm, va);
      if m.2 {
        assert r.0 == m.0 && r.1 == m.1;
      } else {
        FreePageKeepsPool(m.0, g.1);
        assert r.0 == FreePageSpec(m.0, g.1) && r.1 == m.1;
      }
    }
  }

  /** allocate_user_page keeps the contents of every used frame that holds no table. */
  lemma AllocateUserPageKeepsData(s: Pool, mm: MmStruct, va: nat)
    requires s.Valid() && MmValid(s.View(), mm)
    requires mm.kernelPagesCount + s.View().TablesToCreate(mm.pgd, va) < |mm.kernelPages|
    requires mm.userPagesCount < |mm.userPages|
    ensures var r := AllocateUserPageSpec(s, mm, va);
      KeepsData(s.p, s.used, s.levels, s.frames, r.0.frames)
  {
    GetFreePageKeepsWalk(s, mm, va);
    var g := GetFreePageSpec(s);
    if g.1 != 0 {
      MapPageFacts(g.0, mm, va, g.1);
      var m := MapPageSpec(g.0, mm, va, g.1);
      KeepsDataTransitive(s.p, s.used, s.levels, s.frames, g.0.used, g.0.levels, g.0.frames, m.0.frames);
      assert AllocateUserPageSpec(s, mm, va).0.frames == m.0.frames;
    }
  }

  /** Giving back a frame that was free at the start keeps what the start promised. */
  lemma FreeFreshFrameKeepsGrowth(s: Pool, t: Pool, a: nat)
    requires s.p == t.p && |s.used| == s.p.pagingPages && |t.used| == s.p.pagingPages
    requires s.p.lowMemory <= a < s.p.HighMemory() && !s.used[s.p.FrameIndex(a)]
    requires GrowsFrom(s.p, s.used, s.levels, t.used, t.levels)
    ensures GrowsFrom(s.p, s.used, s.levels, FreePageSpec(t, a).used, t.levels)
  {
  }

  /**
   * allocate_user_page keeps every used frame in use, and the only tables
   * it adds sit in frames that were free.
   */
  lemma AllocateUserPageGrowsFrom(s: Pool, mm: MmStruct, va: nat)
    requires s.Valid() && MmValid(s.View(), mm)
    requires mm.kernelPagesCount + s.View().TablesToCreate(mm.pgd, va) < |mm.kernelPages|
    requires mm.userPagesCount < |mm.userPages|
    ensures var r := AllocateUserPageSpec(s, mm, va);
      GrowsFrom(s.p, s.used, s.levels, r.0.used, r.0.levels)
  {
    GetFreePageKeepsWalk(s, mm, va);
    var g := GetFreePageSpec(s);
    if g.1 != 0 {
      MapPageFacts(g.0, mm, va, g.1);
      var m := MapPageSpec(g.0, mm, va, g.1);
      GrowsFromTransitive(s.p, s.used, s.levels, g.0.used, g.0.levels, m.0.used, m.0.levels);
      var r := AllocateUserPageSpec(s, mm, va);
      if m.2 {
        assert r.0 == m.0;
      } else {
        FreeFreshFrameKeepsGrowth(s, m.0, g.1);
        assert r.0 == FreePageSpec(m.0, g.1);
      }
    }
  }

  /**
   * allocate_user_page succeeds exactly when the free frames cover the page
   * and the tables to create.  Then it returns the kernel address of the
   * lowest free frame, zero-filled, which `va` now translates to and which
   * is appended to user_pages.  Otherwise it returns 0, the hierarchy has
   * only grown, user_pages is unchanged and at most the one frame is free.
   */
  lemma AllocateUserPageOutcome(s: Pool, mm: MmStruct, va: nat)
    requires s.Valid() && MmValid(s.View(), mm)
    requires mm.kernelPagesCount + s.View().TablesToCreate(mm.pgd, va) < |mm.kernelPages|
    requires mm.userPagesCount < |mm.userPages|
    ensures var r := AllocateUserPageSpec(s, mm, va);
      var page := GetFreePageSpec(s).1;
      (r.2 != 0 <==> 1 + s.View().TablesToCreate(mm.pgd, va) <= FreeCount(s.used)) &&
      (r.2 != 0 ==>
        r.2 == page + VA_START && IsLowestFree(s.used, s.p.FrameIndex(page)) &&
        r.0.Valid() && r.0.View().Translate(r.1.pgd, va) == Some(s.p.PageEntry(page)) &&
        page in r.0.frames && r.0.frames[page] == ZeroFrame() &&
        r.1.userPagesCount == mm.userPagesCount + 1 &&
        r.1.userPages == mm.userPages[mm.userPagesCount := UserPage(page, va)] &&
        FreeCount(r.0.used) == FreeCount(s.used) - 1 - s.View().TablesToCreate(mm.pgd, va)) &&
      (r.2 == 0 ==>
        Grows(s, r.0) && r.1.userPages == mm.userPages && r.1.userPagesCount == mm.userPagesCount &&
        FreeCount(r.0.used) <= 1)
  {
    GetFreePageKeepsWalk(s, mm, va);
    GetFreePageTakesLowest(s);
    var g := GetFreePageSpec(s);
    if g.1 != 0 {
      MapPageFacts(g.0, mm, va, g.1);
      var m := MapPageSpec(g.0, mm, va, g.1);
      var r := AllocateUserPageSpec(s, mm, va);
      if m.2 {
        assert r.0 == m.0 && r.1 == m.1 && r.2 == g.1 + VA_START;
      } else {
        FreePageKeepsPool(m.0, g.1);
        GrowsTransitive(s, g.0, m.0);
        assert r.0 == FreePageSpec(m.0, g.1) && r.1 == m.1 && r.2 == 0;
      }
    } else {
      GrowsReflexive(s);
    }
  }

  /**
   * do_mem_abort for the current task's descriptor: a translation or
   * permission fault at `addr`, with room left in user_pages, gets a fresh
   * frame mapped at the page containing `addr` (the get_free_page and
   * map_page of allocate_user_page), and 0 is returned; every other fault,
   * a full user_pages and a failed allocation give -1.
   */
  ghost function DoMemAbortSpec(s: Pool, mm: MmStruct, addr: nat, esr: nat): (r: (Pool, MmStruct, int))
    requires s.Valid() && MmValid(s.View(), mm)
    requires IsHandledFault(esr) && mm.userPagesCount < s.p.maxProcessPages ==>
      mm.kernelPagesCount + s.View().TablesToCreate(mm.pgd, PageAlign(addr)) < |mm.kernelPages|
  {
    if !IsHandledFault(esr) || mm.userPagesCount >= s.p.maxProcessPages then (s, mm, -1)
    else
      var a := AllocateUserPageSpec(s, mm, PageAlign(addr));
      (a.0, a.1, if a.2 == 0 then -1 else 0)
  }

  /**
   * do_mem_abort returns 0 exactly for a handled fault with room in
   * user_pages and enough free frames; then the faulting page translates to
   * a fresh zero-filled frame recorded in user_pages.  It returns -1
   * otherwise, and then the hierarchy has only grown and user_pages is
   * unchanged; a fault of another class changes nothing at all.
   */
  lemma DoMemAbortFacts(s: Pool, mm: MmStruct, addr: nat, esr: nat)
    requires s.Valid() && MmValid(s.View(), mm)
    requires IsHandledFault(esr) && mm.userPagesCount < s.p.maxProcessPages ==>
      mm.kernelPagesCount + s.View().TablesToCreate(mm.pgd, PageAlign(addr)) < |mm.kernelPages|
    ensures var r := DoMemAbortSpec(s, mm, addr, esr);
      var page := GetFreePageSpec(s).1;
      r.0.Valid() && MmValid(r.0.View(), r.1) &&
      (r.2 == 0 || r.2 == -1) &&
      (r.2 == 0 <==>
        IsHandledFault(esr) && mm.userPagesCount < s.p.maxProcessPages &&
        1 + s.View().TablesToCreate(mm.pgd, PageAlign(addr)) <= FreeCount(s.used)) &&
      (r.2 == 0 ==>
        r.0.View().Translate(r.1.pgd, PageAlign(addr)) == Some(s.p.PageEntry(page)) &&
        page in r.0.frames && r.0.frames[page] == ZeroFrame() &&
        r.1.userPagesCount == mm.userPagesCount + 1 &&
        r.1.userPages == mm.userPages[mm.userPagesCount := UserPage(page, PageAlign(addr))]) &&
      (r.2 == -1 ==> Grows(s, r.0) && r.1.userPages == mm.userPages && r.1.userPagesCount == mm.userPagesCount) &&
      (!IsHandledFault(esr) ==> r == (s, mm, -1))
  {
    if IsHandledFault(esr) && mm.userPagesCount < s.p.maxProcessPages {
      AllocateUserPageKeeps(s, mm, PageAlign(addr));
      AllocateUserPageOutcome(s, mm, PageAlign(addr));
    } else {
      GrowsReflexive(s);
    }
  }

  /**
   * The page allocate_user_page hands out was free before the call, and
   * afterwards is a used pool frame that holds no table.
   */
  lemma AllocateUserPageFresh(s: Pool, mm: MmStruct, va: nat)
    requires s.Valid() && MmValid(s.View(), mm)
    requires mm.kernelPagesCount + s.View().TablesToCreate(mm.pgd, va) < |mm.kernelPages|
    requires mm.userPagesCount < |mm.userPages|
    ensures var r := AllocateUserPageSpec(s, mm, va);
      var page := GetFreePageSpec(s).1;
      r.2 != 0 ==>
        r.2 == page + VA_START && s.p.IsFrameAddr(page) && !s.used[s.p.FrameIndex(page)] &&
        page in r.0.frames && page !in r.0.levels && UsedFrame(s.p, r.0.used, page)
  {
    AllocateUserPageShape(s, mm, va);
    GetFreePageKeepsWalk(s, mm, va);
    var g := GetFreePageSpec(s);
    if g.1 != 0 {
      LeafStoreKeeps(g.0, mm, va, s.p.PageEntry(g.1));
      var x := LeafStoreSpec(g.0, mm, va, s.p.PageEntry(g.1));
      var r := AllocateUserPageSpec(s, mm, va);
      if r.2 != 0 {
        assert r.0 == x.0;
      }
    }
  }

  /** `memcpy(to + VA_START, from + VA_START, PAGE_SIZE)`: frame `to` receives the words of frame `from`. */
  ghost function CopyFrame(s: Pool, to: nat, from: nat): (t: Pool)
    requires to in s.frames && from in s.frames
  {
    s.(frames := s.frames[to := s.frames[from]])
  }

  /** Copying into a frame that holds no table keeps the pool valid and every table. */
  lemma CopyFrameKeepsTables(s: Pool, to: nat, from: nat)
    requires s.Valid() && to in s.frames && from in s.frames && to !in s.levels
    ensures var t := CopyFrame(s, to, from);
      t.Valid() && t.p == s.p && t.used == s.used && t.levels == s.levels &&
      SameTables(s.View(), t.View()) && t.frames[to] == s.frames[from] &&
      (forall a {:trigger t.frames[a]} :: a in s.frames && a != to ==> t.frames[a] == s.frames[a])
  {
    var t := CopyFrame(s, to, from);
    ReplaceDataFrame(s.View(), to, s.frames[from]);
    assert t.View() == s.View().(frames := s.View().frames[to := s.frames[from]]);
  }

  /** `page - VA_START`: the physical address behind a kernel address of the direct map. */
  function PhysAddr(kva: nat): nat
    requires VA_START <= kva
  {
    kva - VA_START
  }

  /**
   * Page `to` of the child is a copy of page `from` of the parent: mapped
   * at the same virtual address, a used frame holding no table, whose words
   * are those the parent's frame held at the start (`s0`).
   */
  ghost predicate CopiedPage(s0: Pool, s: Pool, from: UserPage, to: UserPage) {
    to.virtAddr == from.virtAddr &&
    UsedFrame(s.p, s.used, to.physAddr) && to.physAddr !in s.levels &&
    to.physAddr in s.frames && from.physAddr in s0.frames &&
    s.frames[to.physAddr] == s0.frames[from.physAddr]
  }

  /**
   * The state of copy_virt_memory after `i` pages of `src`: the child's
   * descriptor valid, room for the rest, the child's earlier user_pages
   * kept, every used data frame of the start kept, and pages 0 to i - 1
   * copied into the child's user_pages after its earlier entries.
   */
  ghost predicate CopyInvariant(s0: Pool, src: seq<UserPage>, dst0: MmStruct, s: Pool, dst: MmStruct, i: nat) {
    s.p == s0.p && MmValid(s.View(), dst) && i <= |src| &&
    dst.kernelPagesCount + 4 * (|src| - i) < |dst.kernelPages| &&
    dst.userPagesCount == dst0.userPagesCount + i && dst.userPagesCount + (|src| - i) <= |dst.userPages| &&
    |dst.userPages| == |dst0.userPages| &&
    (forall j :: 0 <= j < dst0.userPagesCount ==> dst.userPages[j] == dst0.userPages[j]) &&
    KeepsData(s0.p, s0.used, s0.levels, s0.frames, s.frames) &&
    GrowsFrom(s0.p, s0.used, s0.levels, s.used, s.levels) &&
    forall k :: 0 <= k < i ==> CopiedPage(s0, s, src[k], dst.userPages[dst0.userPagesCount + k])
  }

  /** The parent's pages are pool frames in use that hold no table (the pages of a running task). */
  ghost predicate SourcePagesOk(s: Pool, src: seq<UserPage>) {
    forall k :: 0 <= k < |src| ==> UsedFrame(s.p, s.used, src[k].physAddr) && src[k].physAddr !in s.levels
  }

  /** The copy starts in its invariant when the child has room for every page. */
  lemma CopyInvariantInit(s0: Pool, src: seq<UserPage>, dst0: MmStruct)
    requires s0.Valid() && MmValid(s0.View(), dst0)
    requires dst0.kernelPagesCount + 4 * |src| < |dst0.kernelPages|
    requires dst0.userPagesCount + |src| <= |dst0.userPages|
    ensures CopyInvariant(s0, src, dst0, s0, dst0, 0)
  {
  }

  /**
   * Copying into a frame `page` that was free at `s`, after an allocation
   * from `s` that kept its data, keeps every used data frame of the start
   * `s0` and all its used flags.
   */
  lemma CopyFrameKeepsStart(s0: Pool, s: Pool, a0: Pool, page: nat, from: nat)
    requires s0.p == s.p && a0.p == s.p
    requires KeepsData(s0.p, s0.used, s0.levels, s0.frames, s.frames) && GrowsFrom(s0.p, s0.used, s0.levels, s.used, s.levels)
    requires KeepsData(s.p, s.used, s.levels, s.frames, a0.frames) && GrowsFrom(s.p, s.used, s.levels, a0.used, a0.levels)
    requires s.p.IsFrameAddr(page) && s.p.FrameIndex(page) < |s.used| && !s.used[s.p.FrameIndex(page)]
    requires page in a0.frames && from in a0.frames
    ensures var t := CopyFrame(a0, page, from);
      KeepsData(s0.p, s0.used, s0.levels, s0.frames, t.frames) && GrowsFrom(s0.p, s0.used, s0.levels, t.used, t.levels)
  {
    var t := CopyFrame(a0, page, from);
    forall b | b in s.frames && b !in s.levels && UsedFrame(s.p, s.used, b)
      ensures t.frames[b] == s.frames[b]
    {
      assert b != page;
    }
    KeepsDataTransitive(s0.p, s0.used, s0.levels, s0.frames, s.used, s.levels, s.frames, t.frames);
  }

  /**
   * The pages copied before step `i` stay copies after it, and the page of
   * step `i` is one: the new frame was free before the step, so it is none
   * of the earlier copies, and it now holds the words of parent page `i`.
   */
  lemma CopiedPagesStep(s0: Pool, src: seq<UserPage>, dst0: MmStruct, s: Pool, dst: MmStruct, i: nat,
                        a0: Pool, a1: MmStruct, page: nat)
    requires i < |src| && a0.p == s.p && |dst.userPages| == |dst0.userPages|
    requires dst.userPagesCount == dst0.userPagesCount + i && dst.userPagesCount < |dst.userPages|
    requires forall k :: 0 <= k < i ==> CopiedPage(s0, s, src[k], dst.userPages[dst0.userPagesCount + k])
    requires src[i].physAddr in s0.frames && src[i].physAddr in s.frames
    requires s.frames[src[i].physAddr] == s0.frames[src[i].physAddr]
    requires UsedFrame(s.p, s.used, src[i].physAddr) && src[i].physAddr !in s.levels
    requires a1.userPages == dst.userPages[dst.userPagesCount := UserPage(page, src[i].virtAddr)]
    requires KeepsData(s.p, s.used, s.levels, s.frames, a0.frames) && GrowsFrom(s.p, s.used, s.levels, a0.used, a0.levels)
    requires s.p.IsFrameAddr(page) && s.p.FrameIndex(page) < |s.used| && !s.used[s.p.FrameIndex(page)]
    requires UsedFrame(s.p, a0.used, page) && page in a0.frames && page !in a0.levels
    ensures forall k :: 0 <= k < i + 1 ==>
      CopiedPage(s0, CopyFrame(a0, page, src[i].physAddr), src[k], a1.userPages[dst0.userPagesCount + k])
  {
    var t := CopyFrame(a0, page, src[i].physAddr);
    var base := dst0.userPagesCount;
    forall k | 0 <= k < i + 1
      ensures CopiedPage(s0, t, src[k], a1.userPages[base + k])
    {
      if k < i {
        assert a1.userPages[base + k] == dst.userPages[base + k];
        assert CopiedPage(s0, s, src[k], dst.userPages[base + k]);
        assert dst.userPages[base + k].physAddr != page;
      } else {
        assert a1.userPages[base + k] == UserPage(page, src[i].virtAddr);
      }
    }
  }

  /**
   * One page of the copy on values: from the invariant at `i`, an
   * allocation `a0`/`a1` of a free frame `page` mapped for the child,
   * followed by the memcpy of parent page `i` into it, gives the
   * invariant at `i + 1`.
   */
  lemma CopyPageStep(s0: Pool, src: seq<UserPage>, dst0: MmStruct, s: Pool, dst: MmStruct, i: nat,
                     a0: Pool, a1: MmStruct, page: nat)
    requires SourcePagesOk(s0, src) && CopyInvariant(s0, src, dst0, s, dst, i) && i < |src|
    requires a0.Valid() && a0.p == s.p && MmValid(a0.View(), a1)
    requires a1.kernelPagesCount <= dst.kernelPagesCount + 4
    requires a1.userPagesCount == dst.userPagesCount + 1
    requires a1.userPages == dst.userPages[dst.userPagesCount := UserPage(page, src[i].virtAddr)]
    requires KeepsData(s.p, s.used, s.levels, s.frames, a0.frames) && GrowsFrom(s.p, s.used, s.levels, a0.used, a0.levels)
    requires s.p.IsFrameAddr(page) && s.p.FrameIndex(page) < |s.used| && !s.used[s.p.FrameIndex(page)]
    requires UsedFrame(s.p, a0.used, page) && page in a0.frames && page !in a0.levels
    ensures src[i].physAddr in a0.frames
    ensures var t := CopyFrame(a0, page, src[i].physAddr);
      t.Valid() && CopyInvariant(s0, src, dst0, t, a1, i + 1)
  {
    var from := src[i].physAddr;
    assert UsedFrame(s0.p, s0.used, from) && from !in s0.levels;
    assert from in s0.frames;
    assert from in s.frames && s.frames[from] == s0.frames[from];
    assert UsedFrame(s.p, s.used, from) && from !in s.levels;
    assert from in a0.frames;
    CopyFrameKeepsTables(a0, page, from);
    CopyFrameKeepsStart(s0, s, a0, page, from);
    CopiedPagesStep(s0, src, dst0, s, dst, i, a0, a1, page);
  }

  /** What one allocate_user_page of the copy keeps, whether it succeeds or not. */
  lemma CopyAllocKeeps(s: Pool, mm: MmStruct, va: nat)
    requires s.Valid() && MmValid(s.View(), mm)
    requires mm.kernelPagesCount + s.View().TablesToCreate(mm.pgd, va) < |mm.kernelPages|
    requires mm.userPagesCount < |mm.userPages|
    ensures var r := AllocateUserPageSpec(s, mm, va);
      r.0.Valid() && r.0.p == s.p && MmValid(r.0.View(), r.1) &&
      r.1.kernelPagesCount <= mm.kernelPagesCount + 4 &&
      KeepsData(s.p, s.used, s.levels, s.frames, r.0.frames) &&
      GrowsFrom(s.p, s.used, s.levels, r.0.used, r.0.levels)
  {
    AllocateUserPageKeeps(s, mm, va);
    AllocateUserPageKeepsData(s, mm, va);
    AllocateUserPageGrowsFrom(s, mm, va);
  }

  /**
   * What one allocate_user_page of the copy gives: on success a frame that
   * was free, now used for data and recorded for the child; on failure a
   * pool with at most one free frame.
   */
  lemma CopyAllocNew(s: Pool, mm: MmStruct, va: nat)
    requires s.Valid() && MmValid(s.View(), mm)
    requires mm.kernelPagesCount + s.View().TablesToCreate(mm.pgd, va) < |mm.kernelPages|
    requires mm.userPagesCount < |mm.userPages|
    ensures var r := AllocateUserPageSpec(s, mm, va);
      (r.2 != 0 ==>
        VA_START <= r.2 && r.1.userPagesCount == mm.userPagesCount + 1 &&
        r.1.userPages == mm.userPages[mm.userPagesCount := UserPage(PhysAddr(r.2), va)] &&
        s.p.IsFrameAddr(PhysAddr(r.2)) && s.p.FrameIndex(PhysAddr(r.2)) < |s.used| &&
        !s.used[s.p.FrameIndex(PhysAddr(r.2))] &&
        UsedFrame(s.p, r.0.used, PhysAddr(r.2)) && PhysAddr(r.2) in r.0.frames && PhysAddr(r.2) !in r.0.levels) &&
      (r.2 == 0 ==> FreeCount(r.0.used) <= 1)
  {
    AllocateUserPageFresh(s, mm, va);
    AllocateUserPageOutcome(s, mm, va);
    var r := AllocateUserPageSpec(s, mm, va);
    if r.2 != 0 {
      assert PhysAddr(r.2) == GetFreePageSpec(s).1;
    }
  }

  /**
   * One iteration of copy_virt_memory: from the invariant at `i`, the
   * allocation `(a0, a1, kva)` for parent page `i` either fails with at
   * most one free frame left, or is followed by the memcpy of that page
   * into the new frame and gives the invariant at `i + 1`.
   */
  lemma CopyLoopStep(s0: Pool, src: seq<UserPage>, dst0: MmStruct, s: Pool, dst: MmStruct, i: nat,
                     a0: Pool, a1: MmStruct, kva: nat)
    requires SourcePagesOk(s0, src) && i < |src|
    requires s.Valid() && CopyInvariant(s0, src, dst0, s, dst, i)
    requires (a0, a1, kva) == AllocateUserPageSpec(s, dst, src[i].virtAddr)
    ensures a0.Valid() && a0.p == s0.p && MmValid(a0.View(), a1)
    ensures kva == 0 ==>
      KeepsData(s0.p, s0.used, s0.levels, s0.frames, a0.frames) &&
      GrowsFrom(s0.p, s0.used, s0.levels, a0.used, a0.levels) && FreeCount(a0.used) <= 1
    ensures kva != 0 ==>
      VA_START <= kva && PhysAddr(kva) in a0.frames && src[i].physAddr in a0.frames &&
      var t := CopyFrame(a0, PhysAddr(kva), src[i].physAddr);
      t.Valid() && CopyInvariant(s0, src, dst0, t, a1, i + 1)
  {
    var va := src[i].virtAddr;
    CopyAllocKeeps(s, dst, va);
    CopyAllocNew(s, dst, va);
    if kva == 0 {
      KeepsDataTransitive(s0.p, s0.used, s0.levels, s0.frames, s.used, s.levels, s.frames, a0.frames);
      GrowsFromTransitive(s0.p, s0.used, s0.levels, s.used, s.levels, a0.used, a0.levels);
    } else {
      CopyPageStep(s0, src, dst0, s, dst, i, a0, a1, PhysAddr(kva));
    }
  }

  /**
   * The fault-status test of do_mem_abort: `(esr & 0x3f) & 0x3c` is 0x04
   * (translation fault) or 0x0c (permission fault).
   */
  predicate IsHandledFault(esr: nat) {
    var fsc := esr % 64;
    var fscType := (fsc / 4) * 4;
    fscType == 0x04 || fscType == 0x0c
  }

  /** The fault classes that do_mem_abort resolves, as status codes: 0x04-0x07 and 0x0c-0x0f. */
  lemma HandledFaultCodes(esr: nat)
    ensures IsHandledFault(esr) <==> (4 <= esr % 64 <= 7 || 12 <= esr % 64 <= 15)
  {
  }

  /**
   * map_table exactly as written, on one slot: an empty slot receives
   * `got | MM_TYPE_PAGE_TABLE`, where `got` is get_free_page's result, and
   * `got` is returned whether or not the allocation succeeded; a filled slot
   * gives back its address bits.  Result: (new slot, next-level table, new_table).
   */
  function MapTableSlotAsWritten(p: Params, slot: nat, got: nat): (r: (nat, nat, bool))
    requires p.Valid()
    ensures r.2 <==> slot == 0
    ensures r.2 ==> r.0 == got + p.tableFlags && r.1 == got
    ensures !r.2 ==> r.0 == slot && r.1 == PageAlign(slot)
  {
    if slot == 0 then (got + p.tableFlags, got, true) else (slot, PageAlign(slot), false)
  }

  /**
   * With the pool exhausted (get_free_page returned 0), the code as written
   * installs the non-zero entry `0 | MM_TYPE_PAGE_TABLE` and hands back
   * physical address 0, which is no pool frame: the caller goes on writing
   * into physical page 0.  Every later map_table on that slot finds it
   * filled and again returns 0, so the damage persists after memory is freed.
   */
  lemma MapTableExhaustedLeavesPool(p: Params, later: nat)
    requires p.Valid()
    ensures var r := MapTableSlotAsWritten(p, 0, 0);
      r.2 && r.1 == 0 && r.0 == p.tableFlags && r.0 != 0 && !p.IsFrameAddr(r.1) &&
      MapTableSlotAsWritten(p, r.0, later) == (r.0, 0, false)
  {
    DescriptorAddress(0, p.tableFlags);
  }

  /**
   * The first lines of map_page and map_guard_page exactly as written: a
   * task without a pgd takes whatever get_free_page returned (`got`) as its
   * pgd and records it in kernel_pages, without checking it.
   */
  function EnsurePgdAsWritten(mm: MmStruct, got: nat): (r: MmStruct)
    requires mm.pgd == 0 ==> mm.kernelPagesCount + 1 < |mm.kernelPages|
    ensures mm.pgd != 0 ==> r == mm
    ensures mm.pgd == 0 ==>
      r.pgd == got && r.kernelPagesCount == mm.kernelPagesCount + 1 && |r.kernelPages| == |mm.kernelPages| &&
      r.kernelPages[r.kernelPagesCount] == got && r.userPages == mm.userPages
  {
    if mm.pgd != 0 then mm else RecordTable(mm.(pgd := got), got)
  }

  /**
   * With the pool exhausted, the pgd step as written records the address 0
   * in kernel_pages, raises the count, and leaves the task with pgd 0, so
   * the walk goes on from physical page 0, which is no pool frame; the
   * corrected step fails and changes nothing.
   */
  lemma EnsurePgdExhaustedRecordsZero(s: Pool, mm: MmStruct)
    requires s.Valid() && MmValid(s.View(), mm)
    requires mm.pgd == 0 && mm.kernelPagesCount + 1 < |mm.kernelPages|
    requires FreeCount(s.used) == 0
    ensures var got := GetFreePageSpec(s).1;
      var w := EnsurePgdAsWritten(mm, got);
      got == 0 && w.pgd == 0 && !s.p.IsFrameAddr(w.pgd) &&
      w.kernelPagesCount == mm.kernelPagesCount + 1 && w.kernelPages[w.kernelPagesCount] == 0 &&
      EnsurePgdSpec(s, mm) == (s, mm, false)
  {
    GetFreePageTakesLowest(s);
    FreeCountZero(s.used);
  }

  /**
   * allocate_user_page's result exactly as written: 0 when get_free_page
   * returned 0, and otherwise the frame's kernel address, whether or not
   * map_page managed to map it.
   */
  function AllocateUserPageResultAsWritten(got: nat): (r: nat)
    ensures r == 0 <==> got == 0
    ensures got != 0 ==> r - VA_START == got
  {
    if got == 0 then 0 else got + VA_START
  }

  /**
   * With a free frame for the page but too few for the missing tables, the
   * code as written returns the frame's kernel address as if it were
   * mapped; the corrected allocate_user_page returns 0.
   */
  lemma AllocateUserPageIgnoresMapFailure(s: Pool, mm: MmStruct, va: nat)
    requires s.Valid() && MmValid(s.View(), mm)
    requires mm.kernelPagesCount + s.View().TablesToCreate(mm.pgd, va) < |mm.kernelPages|
    requires mm.userPagesCount < |mm.userPages|
    requires 0 < FreeCount(s.used) < 1 + s.View().TablesToCreate(mm.pgd, va)
    ensures AllocateUserPageResultAsWritten(GetFreePageSpec(s).1) != 0
    ensures AllocateUserPageSpec(s, mm, va).2 == 0
  {
    GetFreePageTakesLowest(s);
    AllocateUserPageOutcome(s, mm, va);
  }

  /**
   * do_mem_abort's result exactly as written: 0 for a handled fault with
   * room in user_pages and a frame from get_free_page, whatever map_page
   * did with it; -1 otherwise.
   */
  function DoMemAbortResultAsWritten(esr: nat, userPagesCount: nat, maxProcessPages: nat, got: nat): (r: int)
    ensures r == 0 || r == -1
    ensures r == 0 <==> IsHandledFault(esr) && userPagesCount < maxProcessPages && got != 0
  {
    if !IsHandledFault(esr) || userPagesCount >= maxProcessPages then -1
    else if got == 0 then -1
    else 0
  }

  /**
   * For a handled fault with a free frame for the page but too few for the
   * missing tables, the code as written reports the fault resolved; the
   * corrected do_mem_abort returns -1.
   */
  lemma DoMemAbortIgnoresMapFailure(s: Pool, mm: MmStruct, addr: nat, esr: nat)
    requires s.Valid() && MmValid(s.View(), mm)
    requires IsHandledFault(esr) && mm.userPagesCount < s.p.maxProcessPages
    requires mm.kernelPagesCount + s.View().TablesToCreate(mm.pgd, PageAlign(addr)) < |mm.kernelPages|
    requires 0 < FreeCount(s.used) < 1 + s.View().TablesToCreate(mm.pgd, PageAlign(addr))
    ensures DoMemAbortResultAsWritten(esr, mm.userPagesCount, s.p.maxProcessPages, GetFreePageSpec(s).1) == 0
    ensures DoMemAbortSpec(s, mm, addr, esr).2 == -1
  {
    GetFreePageTakesLowest(s);
    DoMemAbortFacts(s, mm, addr, esr);
  }

  /**
   * The frame pool: mem_map and the frames it manages.  The page-table and
   * allocation routines of mm.c are its methods; each is specified by the
   * function of the same name with `Spec` appended, over State().
   */
  class PhysicalMemory {
    const params: Params
    /** mem_map: true for a used frame. */
    const memMap: array<bool>
    /** The contents of each pool frame, as 64-bit words, by physical address. */
    var frames: map<nat, seq<nat>>
    /** The frames that hold page tables, with their levels. */
    ghost var tableLevel: map<nat, nat>

    ghost function State(): Pool
      reads this, memMap
    {
      Pool(params, memMap[..], frames, tableLevel)
    }

    ghost predicate Valid()
      reads this, memMap
    {
      State().Valid()
    }

    /** The pool at boot: mem_map all zero, frame contents whatever memory holds. */
    constructor (p: Params, contents: map<nat, seq<nat>>)
      requires p.Valid()
      requires forall a :: a in contents <==> p.IsFrameAddr(a)
      requires forall a :: a in contents ==> |contents[a]| == PTRS_PER_TABLE
      ensures Valid() && params == p && fresh(memMap)
      ensures frames == contents && tableLevel == map[]
      ensures forall i :: 0 <= i < memMap.Length ==> !memMap[i]
    {
      params := p;
      memMap := new bool[p.pagingPages](_ => false);
      frames := contents;
      tableLevel := map[];
    }

    /**
     * get_free_page: take the lowest free frame, mark it used, zero-fill it
     * and return its physical address; return 0 when every frame is used.
     */
    method GetFreePage() returns (page: nat)
      requires Valid()
      modifies this, memMap
      ensures Valid() && (State(), page) == GetFreePageSpec(old(State()))
    {
      ghost var s0 := State();
      GetFreePageKeepsTables(s0);
      var i := 0;
      while i < memMap.Length
        invariant 0 <= i <= memMap.Length
        invariant FirstFree(memMap[..], i) == FirstFree(memMap[..], 0)
        invariant State() == s0
      {
        if !memMap[i] {
          memMap[i] := true;
          page := params.lowMemory + i * PAGE_SIZE;
          frames := frames[page := ZeroFrame()];
          return;
        }
        i := i + 1;
      }
      page := 0;
    }

    /**
     * free_page: clear the used flag of the frame holding `p`.  The code does
     * no range or double-free check; the frame must lie in the pool and must
     * not be a live page table.
     */
    method FreePage(p: nat)
      requires Valid()
      requires params.lowMemory <= p < params.HighMemory()
      requires params.FrameAddr(params.FrameIndex(p)) !in tableLevel
      modifies memMap
      ensures Valid() && State() == FreePageSpec(old(State()), p)
    {
      FreePageKeepsPool(State(), p);
      var i := (p - params.lowMemory) / PAGE_SIZE;
      memMap[i] := false;
    }

    /** allocate_kernel_page: a fresh frame, as seen through the kernel's direct map. */
    method AllocateKernelPage() returns (kpage: nat)
      requires Valid()
      modifies this, memMap
      ensures Valid()
      ensures var r := GetFreePageSpec(old(State()));
        State() == r.0 && kpage == if r.1 == 0 then 0 else r.1 + VA_START
    {
      var page := GetFreePage();
      if page == 0 {
        return 0;
      }
      kpage := page + VA_START;
    }

    /**
     * map_table, with the allocation failure checked: the slot of `table`
     * (a table of level `level`, shift LevelShift(level)) that `va` selects
     * receives a fresh zeroed table if it was empty.  Returns the
     * next-level table and whether it was created, or 0 when a table was
     * needed and no frame was free (the code as written carries on with
     * address 0, see MapTableSlotAsWritten).
     */
    method MapTable(table: nat, level: nat, va: nat) returns (next: nat, newTable: bool)
      requires Valid() && level < 3 && State().View().IsTable(table, level)
      modifies this, memMap
      ensures Valid() && (State(), next, newTable) == MapTableSpec(old(State()), table, level, va)
    {
      ghost var s0 := State();
      MapTableValid(s0, table, level, va);
      ghost var i := FirstFree(s0.used, 0);
      var index := va / LevelDivisor(level);
      index := index % PTRS_PER_TABLE;
      assert index == TableIndex(va, level);
      if frames[table][index] == 0 {
        newTable := true;
        var nextLevelTable := GetFreePage();
        if nextLevelTable == 0 {
          assert i == |s0.used|;
          return 0, true;
        }
        ghost var s1 := State();
        assert i < |s0.used| && nextLevelTable == s0.p.FrameAddr(i) && s1 == TakeFrame(s0, i);
        tableLevel := tableLevel[nextLevelTable := level + 1];
        var entry := nextLevelTable + params.tableFlags;
        frames := WriteSlot(frames, table, index, entry);
        assert State() == LinkNewTable(s1, table, index, nextLevelTable, level);
        return nextLevelTable, true;
      } else {
        newTable := false;
      }
      next := PageAlign(frames[table][index]);
      assert State() == s0;
    }

    /** map_table_entry: write the leaf `pa | MMU_PTE_FLAGS` into the slot of `pte` that `va` selects. */
    method MapTableEntry(pte: nat, va: nat, pa: nat)
      requires Valid() && State().View().IsTable(pte, 3)
      modifies this
      ensures Valid() && State() == WriteLeafSpec(old(State()), pte, va, params.PageEntry(pa))
    {
      ghost var s0 := State();
      WriteLeafValid(s0, pte, va, params.PageEntry(pa));
      var index := va / LevelDivisor(3);
      index := index % PTRS_PER_TABLE;
      var entry := params.PageEntry(pa);
      frames := WriteSlot(frames, pte, index, entry);
      assert State() == WriteLeafSpec(s0, pte, va, entry);
    }

    /**
     * map_table_entry_guard: write a guard leaf, physical address 0 with
     * MMU_PTE_FLAGS_GUARD, into the slot of `pte` that `va` selects.
     */
    method MapTableEntryGuard(pte: nat, va: nat)
      requires Valid() && State().View().IsTable(pte, 3)
      modifies this
      ensures Valid() && State() == WriteLeafSpec(old(State()), pte, va, params.guardFlags)
    {
      ghost var s0 := State();
      WriteLeafValid(s0, pte, va, params.guardFlags);
      var index := va / LevelDivisor(3);
      index := index % PTRS_PER_TABLE;
      var entry := 0 + params.guardFlags;
      frames := WriteSlot(frames, pte, index, entry);
      assert State() == WriteLeafSpec(s0, pte, va, entry);
    }
  
    /**
     * The first lines of map_page and map_guard_page: a task without a pgd
     * gets a fresh frame as its pgd, recorded in kernel_pages.  `ok` is
     * false when no frame was free (the code as written carries on with a
     * pgd of 0).
     */
    method EnsurePgd(mm: MmStruct) returns (mm': MmStruct, ok: bool)
      requires Valid() && MmValid(State().View(), mm)
      requires mm.pgd == 0 ==> mm.kernelPagesCount + 1 < |mm.kernelPages|
      modifies this, memMap
      ensures Valid() && (State(), mm', ok) == EnsurePgdSpec(old(State()), mm)
    {
      ghost var s0 := State();
      EnsurePgdFacts(s0, mm, 0);
      mm', ok := mm, true;
      if mm.pgd == 0 {
        ghost var i := FirstFree(s0.used, 0);
        var pgd := GetFreePage();
        if pgd == 0 {
          assert i == |s0.used|;
          return mm, false;
        }
        assert i < |s0.used| && pgd == s0.p.FrameAddr(i) && State() == TakeFrame(s0, i);
        tableLevel := tableLevel[pgd := 0];
        mm' := RecordTable(mm.(pgd := pgd), pgd);
        assert State() == TakeFrame(s0, i).(levels := s0.levels[pgd := 0]);
      }
    }

    /**
     * One level of the walk in map_page and map_guard_page: map_table on
     * `table`, and a created table recorded in kernel_pages.  `next` is 0
     * when a table was needed and no frame was free.
     */
    method MapLevel(mm: MmStruct, table: nat, level: nat, va: nat) returns (mm': MmStruct, next: nat)
      requires Valid() && MmValid(State().View(), mm) && level < 3
      requires State().View().WalkTable(mm.pgd, va, level) == Some(table)
      requires mm.kernelPagesCount + State().View().Missing(mm.pgd, va, level) < |mm.kernelPages|
      modifies this, memMap
      ensures Valid() && (State(), mm', next) == MapLevelSpec(old(State()), mm, table, level, va)
      ensures next != 0 ==>
        MmValid(State().View(), mm') && mm'.pgd == mm.pgd &&
        State().View().WalkTable(mm.pgd, va, level + 1) == Some(next) &&
        mm'.kernelPagesCount + State().View().Missing(mm.pgd, va, level + 1) < |mm'.kernelPages|
      ensures WalkFrom(old(State()), mm, table, level, va) ==
        if next == 0 then (State(), mm', next) else WalkFrom(State(), mm', next, level + 1, va)
    {
      ghost var s0 := State();
      MapLevelNext(s0, mm, table, level, va);
      var newTable;
      next, newTable := MapTable(table, level, va);
      mm' := mm;
      if newTable && next != 0 {
        mm' := RecordTable(mm, next);
      }
    }

    /**
     * The walk of map_page and map_guard_page: get a pgd if needed, then
     * map_table at levels 0, 1 and 2, stopping at the first allocation
     * failure.  `pte` is the leaf table, or 0 on exhaustion.
     */
    method WalkToLeaf(mm: MmStruct, va: nat) returns (mm': MmStruct, pte: nat)
      requires Valid() && MmValid(State().View(), mm)
      requires mm.kernelPagesCount + State().View().TablesToCreate(mm.pgd, va) < |mm.kernelPages|
      modifies this, memMap
      ensures Valid() && (State(), mm', pte) == WalkToLeafSpec(old(State()), mm, va)
    {
      ghost var s0 := State();
      TablesToCreateWithoutPgd(s0.View(), va);
      EnsurePgdFacts(s0, mm, va);
      var ok;
      mm', ok := EnsurePgd(mm);
      if !ok {
        return mm', 0;
      }
      var pgd := mm'.pgd;
      assert State().View().WalkTable(pgd, va, 0) == Some(pgd);
      var pud;
      mm', pud := MapLevel(mm', pgd, 0, va);
      if pud == 0 {
        return mm', 0;
      }
      var pmd;
      mm', pmd := MapLevel(mm', pud, 1, va);
      if pmd == 0 {
        return mm', 0;
      }
      mm', pte := MapLevel(mm', pmd, 2, va);
    }

    /**
     * map_page: walk to the leaf table of `va` in the task's hierarchy,
     * creating what is missing, map `page` there and record (page, va) in
     * user_pages.  `ok` is false when a table was needed and no frame was
     * free; then nothing is mapped or recorded.
     */
    method MapPage(mm: MmStruct, va: nat, page: nat) returns (mm': MmStruct, ok: bool)
      requires Valid() && MmValid(State().View(), mm)
      requires mm.kernelPagesCount + State().View().TablesToCreate(mm.pgd, va) < |mm.kernelPages|
      requires mm.userPagesCount < |mm.userPages|
      modifies this, memMap
      ensures Valid() && (State(), mm', ok) == MapPageSpec(old(State()), mm, va, page)
    {
      ghost var s0 := State();
      WalkToLeafShape(s0, mm, va);
      LeafStoreKeeps(s0, mm, va, params.PageEntry(page));
      var pte;
      mm', pte := WalkToLeaf(mm, va);
      if pte == 0 {
        return mm', false;
      }
      MapTableEntry(pte, va, page);
      mm' := RecordUserPage(mm', page, va);
      ok := true;
    }

    /**
     * map_guard_page: walk to the leaf table of `va` in the task's
     * hierarchy, creating what is missing, and store the guard entry there.
     * `ok` is false when a table was needed and no frame was free.
     */
    method MapGuardPage(mm: MmStruct, va: nat) returns (mm': MmStruct, ok: bool)
      requires Valid() && MmValid(State().View(), mm)
      requires mm.kernelPagesCount + State().View().TablesToCreate(mm.pgd, va) < |mm.kernelPages|
      modifies this, memMap
      ensures Valid() && (State(), mm', ok) == LeafStoreSpec(old(State()), mm, va, params.guardFlags)
    {
      ghost var s0 := State();
      WalkToLeafShape(s0, mm, va);
      LeafStoreKeeps(s0, mm, va, params.guardFlags);
      var pte;
      mm', pte := WalkToLeaf(mm, va);
      if pte == 0 {
        return mm', false;
      }
      MapTableEntryGuard(pte, va);
      ok := true;
    }
    /**
     * allocate_user_page: a fresh frame mapped at `va` for the task, and its
     * kernel address returned; 0 when no frame was free or the mapping could
     * not get its tables, in which case the frame is given back.
     */
    method AllocateUserPage(mm: MmStruct, va: nat) returns (mm': MmStruct, kva: nat)
      requires Valid() && MmValid(State().View(), mm)
      requires mm.kernelPagesCount + State().View().TablesToCreate(mm.pgd, va) < |mm.kernelPages|
      requires mm.userPagesCount < |mm.userPages|
      modifies this, memMap
      ensures Valid() && (State(), mm', kva) == AllocateUserPageSpec(old(State()), mm, va)
    {
      ghost var s0 := State();
      AllocateUserPageShape(s0, mm, va);
      var page := GetFreePage();
      if page == 0 {
        return mm, 0;
      }
      ghost var m := MapPageSpec(State(), mm, va, page);
      var ok;
      mm', ok := MapPage(mm, va, page);
      if !ok {
        FreePage(page);
        assert AllocateUserPageSpec(s0, mm, va) == (FreePageSpec(m.0, page), m.1, 0);
        return mm', 0;
      }
      assert m.2;
      kva := page + VA_START;
      assert State() == m.0 && mm' == m.1;
      assert AllocateUserPageSpec(s0, mm, va).0 == m.0;
      assert AllocateUserPageSpec(s0, mm, va).1 == m.1;
      assert AllocateUserPageSpec(s0, mm, va).2 == kva;
    }

    /**
     * do_mem_abort for the current task's descriptor `mm`: resolve a
     * translation or permission fault at `addr` by mapping a fresh frame at
     * its page.  Returns 0 when the fault was resolved and -1 otherwise.
     */
    method DoMemAbort(mm: MmStruct, addr: nat, esr: nat) returns (mm': MmStruct, res: int)
      requires Valid() && MmValid(State().View(), mm)
      requires IsHandledFault(esr) && mm.userPagesCount < params.maxProcessPages ==>
        mm.kernelPagesCount + State().View().TablesToCreate(mm.pgd, PageAlign(addr)) < |mm.kernelPages|
      modifies this, memMap
      ensures Valid() && (State(), mm', res) == DoMemAbortSpec(old(State()), mm, addr, esr)
    {
      var fsc := esr % 64;
      var fscType := (fsc / 4) * 4;
      if fscType == 0x04 || fscType == 0x0c {
        if mm.userPagesCount >= params.maxProcessPages {
          return mm, -1;
        }
        ghost var s0 := State();
        AllocateUserPageShape(s0, mm, PageAlign(addr));
        var page := GetFreePage();
        if page == 0 {
          return mm, -1;
        }
        ghost var m := MapPageSpec(State(), mm, PageAlign(addr), page);
        var ok;
        mm', ok := MapPage(mm, PageAlign(addr), page);
        if !ok {
          FreePage(page);
          assert AllocateUserPageSpec(s0, mm, PageAlign(addr)) == (FreePageSpec(m.0, page), m.1, 0);
          return mm', -1;
        }
        assert State() == m.0 && mm' == m.1 && m.2;
        assert AllocateUserPageSpec(s0, mm, PageAlign(addr)).0 == m.0;
        assert AllocateUserPageSpec(s0, mm, PageAlign(addr)).1 == m.1;
        assert AllocateUserPageSpec(s0, mm, PageAlign(addr)).2 != 0;
        return mm', 0;
      }
      return mm, -1;
    }

    /**
     * copy_virt_memory for a child with descriptor `dst` and a parent with
     * descriptor `src`: each of the parent's user pages gets a fresh page of
     * the child at the same virtual address, holding the parent page's
     * words.  Returns 0 when every page was copied, and -1 as soon as an
     * allocation fails.
     */
    method CopyVirtMemory(src: MmStruct, dst: MmStruct) returns (dst': MmStruct, res: int)
      requires Valid() && MmValid(State().View(), dst)
      requires src.userPagesCount <= |src.userPages|
      requires SourcePagesOk(State(), src.userPages[..src.userPagesCount])
      requires dst.kernelPagesCount + 4 * src.userPagesCount < |dst.kernelPages|
      requires dst.userPagesCount + src.userPagesCount <= |dst.userPages|
      modifies this, memMap
      ensures Valid() && MmValid(State().View(), dst') && (res == 0 || res == -1)
      ensures KeepsData(params, old(memMap[..]), old(tableLevel), old(frames), frames)
      ensures GrowsFrom(params, old(memMap[..]), old(tableLevel), memMap[..], tableLevel)
      ensures res == 0 ==>
        CopyInvariant(old(State()), src.userPages[..src.userPagesCount], dst, State(), dst', src.userPagesCount)
      ensures res == -1 ==> FreeCount(memMap[..]) <= 1
    {
      ghost var s0 := State();
      ghost var pages := src.userPages[..src.userPagesCount];
      CopyInvariantInit(s0, pages, dst);
      dst' := dst;
      var i := 0;
      while i < src.userPagesCount
        invariant i <= src.userPagesCount && Valid()
        invariant CopyInvariant(s0, pages, dst, State(), dst', i)
      {
        ghost var s := State();
        ghost var d := dst';
        assert src.userPages[i] == pages[i];
        var kva;
        dst', kva := AllocateUserPage(dst', src.userPages[i].virtAddr);
        CopyLoopStep(s0, pages, dst, s, d, i, State(), dst', kva);
        if kva == 0 {
          return dst', -1;
        }
        ghost var a0 := State();
        var page := kva - VA_START;
        assert page == PhysAddr(kva);
        frames := frames[page := frames[src.userPages[i].physAddr]];
        assert frames == a0.frames[page := a0.frames[pages[i].physAddr]];
        assert memMap[..] == a0.used;
        assert State() == CopyFrame(a0, page, pages[i].physAddr);
        i := i + 1;
      }
      return dst', 0;
    }
}
}
