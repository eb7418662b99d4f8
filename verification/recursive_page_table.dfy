/** The recursive mapping strategy (`mapper/recursive_page_table.rs`).

    A `RecursivePageTable` relies on one entry of the level-4 table, the recursive index `r`,
    pointing back at the level-4 table's own frame. The processor then maps the virtual page with
    indices `(r, r, r, i)` to the level-3 table that level-4 entry `i` points to, `(r, r, i, j)` to
    a level-2 table, and `(r, i, j, k)` to a level-1 table, so every table of the hierarchy is
    reached through a virtual page computed from the recursive index.

    Here all page tables, the level-4 table included, live in physical memory, and the level-4
    table is the one in the frame the CR3 register names. A table the crate reaches through a
    virtual page is the table in the frame the processor's own four-level walk maps that page to;
    a page that walk does not map makes the access fault, which is the outcome `Faults`. A
    `panic!` or failed `assert!` is the outcome `Panics`. */
module RecursiveTables {
  import opened Wrappers
  import opened Words
  import opened Addr
  import opened TableIndex
  import opened Pages
  import opened Frames
  import opened Tables
  import opened FrameAlloc
  import opened Mapper
  import opened MappedTables

  /** Physical memory, the frame of the active level-4 table, and the allocator lent to the
      mapping operations. */
  datatype RecMachine = RecMachine(memory: Memory, root: PhysAddr, allocator: FrameAllocator)

  /** What an operation returns: the new machine and its value, or a panic, or a page fault on
      a table page the processor does not map. */
  datatype Run<T> = Returns(machine: RecMachine, value: T) | Panics | Faults

  /** The table in the frame at `a`; a frame outside the map reads as a zeroed table. */
  function Tbl(m: RecMachine, a: PhysAddr): PageTable
  {
    if a in m.memory then m.memory[a] else EmptyTable()
  }

  /** Entry `i` of the table in the frame at `a`. */
  function Ent(m: RecMachine, a: PhysAddr, i: PageTableIndex): PageTableEntry
  {
    Tbl(m, a)[i]
  }

  /** Writes entry `i` of the table at `a`: it reads back as written and nothing else changes. */
  function Write(m: RecMachine, a: PhysAddr, i: PageTableIndex, e: PageTableEntry): (r: RecMachine)
    ensures Ent(r, a, i) == e
    ensures forall b: PhysAddr, j: PageTableIndex :: (b != a || j != i) ==> Ent(r, b, j) == Ent(m, b, j)
    ensures r.root == m.root && r.allocator == m.allocator
  {
    m.(memory := m.memory[a := Tbl(m, a)[i := e]])
  }

  /** `PageTable::zero` on the table at `a`. */
  function Zero(m: RecMachine, a: PhysAddr): (r: RecMachine)
    ensures forall j: PageTableIndex :: IsUnused(Ent(r, a, j))
    ensures forall b: PhysAddr, j: PageTableIndex :: b != a ==> Ent(r, b, j) == Ent(m, b, j)
    ensures r.root == m.root && r.allocator == m.allocator
  {
    m.(memory := m.memory[a := ZeroTable(Tbl(m, a))])
  }

  /** The 4 KiB frame at `offset` inside the huge page an entry maps: the entry's address rounded
      down to the huge page size, plus the offset. */
  function InsideHugePage(a: PhysAddr, size: nat, offset: nat): (r: PhysAddr)
    requires size == 0x20_0000 || size == 0x4000_0000
    requires offset < size && offset % 0x1000 == 0
    ensures r % 0x1000 == 0
  {
    HugeBaseFits(a, size, offset);
    a - a % size + offset
  }

  /** The rounded-down address plus an offset inside the huge page stays below 2^52 and 4 KiB
      aligned. */
  lemma HugeBaseFits(a: PhysAddr, size: nat, offset: nat)
    requires size == 0x20_0000 || size == 0x4000_0000
    requires offset < size && offset % 0x1000 == 0
    ensures a - a % size + offset < TWO_52
    ensures (a - a % size + offset) % 0x1000 == 0
  {
    MultipleModIsZero(size, a / size);
    assert a - a % size == size * (a / size);
    AlignedGap(a - a % size, TWO_52, size);
    var q := size / 0x1000 * (a / size) + offset / 0x1000;
    assert a - a % size + offset == 0x1000 * q;
    DivModUnique(0x1000, q, 0, a - a % size + offset);
  }

  /** The offset of a 4 KiB part inside a 1 GiB page, from the page's level-2 and level-1
      indices. */
  function Offset1GiB(i2: PageTableIndex, i1: PageTableIndex): (o: nat)
    ensures o < 0x4000_0000 && o % 0x1000 == 0
  {
    DivModUnique(0x1000, i2 * 0x200 + i1, 0, i2 * 0x20_0000 + i1 * 0x1000);
    i2 * 0x20_0000 + i1 * 0x1000
  }

  /** The offset of a 4 KiB part inside a 2 MiB page, from the page's level-1 index. */
  function Offset2MiB(i1: PageTableIndex): (o: nat)
    ensures o < 0x20_0000 && o % 0x1000 == 0
  {
    DivModUnique(0x1000, i1, 0, i1 * 0x1000);
    i1 * 0x1000
  }

  /** The processor's translation of a 4 KiB virtual page with four-level paging: the physical
      frame it maps to, or `None` when the walk faults. Every entry on the way must be present;
      a huge level-4 entry is reserved and faults; a huge level-3 or level-2 entry maps a 1 GiB or
      2 MiB page of which the virtual page is one 4 KiB part; bit 7 of a level-1 entry is not a
      size bit. */
  function HwFrame(m: RecMachine, v: Page): (r: Option<PhysAddr>)
    ensures r.Some? ==> r.value % 0x1000 == 0
  {
    var e4 := Ent(m, m.root, PageTableIndexOf(v, Four));
    if PRESENT !in EntryFlags(e4) || HUGE_PAGE in EntryFlags(e4) then None
    else
      var e3 := Ent(m, EntryAddr(e4), PageTableIndexOf(v, Three));
      if PRESENT !in EntryFlags(e3) then None
      else if HUGE_PAGE in EntryFlags(e3) then
        Some(InsideHugePage(EntryAddr(e3), 0x4000_0000,
          Offset1GiB(PageTableIndexOf(v, Two), PageTableIndexOf(v, One))))
      else
        var e2 := Ent(m, EntryAddr(e3), PageTableIndexOf(v, Two));
        if PRESENT !in EntryFlags(e2) then None
        else if HUGE_PAGE in EntryFlags(e2) then
          Some(InsideHugePage(EntryAddr(e2), 0x20_0000, Offset2MiB(PageTableIndexOf(v, One))))
        else
          var e1 := Ent(m, EntryAddr(e2), PageTableIndexOf(v, One));
          if PRESENT !in EntryFlags(e1) then None else Some(EntryAddr(e1))
  }

  /** `RecursivePageTable`: the index of the level-4 entry that points back at its own table. */
  datatype RecursivePageTable = RecursivePageTable(recursiveIndex: PageTableIndex)

  /** The machine is recursively mapped at `r`: level-4 entry `r` names the level-4 table's own
      frame, present and not huge. */
  predicate Recursive(m: RecMachine, r: PageTableIndex)
  {
    EntryFrame(Ent(m, m.root, r)).Ok? && EntryFrame(Ent(m, m.root, r)).value.start == m.root
  }

  /** `p3_page`: the page through which the level-3 table for `page` is reached. */
  function P3Page(page: Page, r: PageTableIndex): Page
  {
    FromPageTableIndices(r, r, r, PageTableIndexOf(page, Four))
  }

  /** `p2_page`, offered only below 1 GiB pages: the page of the level-2 table for `page`. */
  function P2Page(page: Page, r: PageTableIndex): Page
    requires page.size != Size1GiB
  {
    FromPageTableIndices(r, r, PageTableIndexOf(page, Four), PageTableIndexOf(page, Three))
  }

  /** `p1_page`, offered only for 4 KiB pages: the page of the level-1 table for `page`. */
  function P1Page(page: Page, r: PageTableIndex): Page
    requires page.size == Size4KiB
  {
    FromPageTableIndices(r, PageTableIndexOf(page, Four), PageTableIndexOf(page, Three),
                         PageTableIndexOf(page, Two))
  }

  /** The page through which the table of step `n` of the page's walk is reached: `p3_page`,
      `p2_page` or `p1_page`. */
  function TablePage(page: Page, r: PageTableIndex, n: nat): Page
    requires 1 <= n <= Depth(page.size)
  {
    if n == 1 then P3Page(page, r) else if n == 2 then P2Page(page, r) else P1Page(page, r)
  }

  /** The page at which the level-4 table itself is reached: four times the recursive index. */
  function RecursiveTablePage(r: PageTableIndex): Page
  {
    FromPageTableIndices(r, r, r, r)
  }

  /** The same hierarchy seen by the engine of `MappedTables`: the level-4 table is the table in
      the root frame, and every other table is read from the same memory. */
  function AsMapped(m: RecMachine): (mm: Machine)
    ensures mm.level4 == Tbl(m, m.root) && mm.memory == m.memory && mm.allocator == m.allocator
  {
    Machine(Tbl(m, m.root), m.memory, m.allocator)
  }

  /** The frame a table reference of the engine stands for. */
  function RefAddr(m: RecMachine, t: TableRef): (a: PhysAddr)
    ensures TableOf(AsMapped(m), t) == Tbl(m, a)
  {
    match t
    case Root => m.root
    case InFrame(a) => a
  }

  /** Through `p3_page` the processor reaches the table that the page's level-4 entry points to,
      and faults when that entry is not present. */
  lemma P3PageReaches(m: RecMachine, r: PageTableIndex, page: Page)
    requires Recursive(m, r)
    ensures var e := Ent(m, m.root, PageTableIndexOf(page, Four));
      HwFrame(m, P3Page(page, r)) == if PRESENT in EntryFlags(e) then Some(EntryAddr(e)) else None
  {
  }

  /** Through `p2_page` the processor reaches the table that the page's level-3 entry points to,
      once the level-4 entry names a table. */
  lemma P2PageReaches(m: RecMachine, r: PageTableIndex, page: Page)
    requires Recursive(m, r) && page.size != Size1GiB
    requires EntryFrame(Ent(m, m.root, PageTableIndexOf(page, Four))).Ok?
    ensures var t3 := EntryAddr(Ent(m, m.root, PageTableIndexOf(page, Four)));
      var e := Ent(m, t3, PageTableIndexOf(page, Three));
      HwFrame(m, P2Page(page, r)) == if PRESENT in EntryFlags(e) then Some(EntryAddr(e)) else None
  {
  }

  /** Through `p1_page` the processor reaches the table that the page's level-2 entry points to,
      once the level-4 and level-3 entries name tables. */
  lemma P1PageReaches(m: RecMachine, r: PageTableIndex, page: Page)
    requires Recursive(m, r) && page.size == Size4KiB
    requires EntryFrame(Ent(m, m.root, PageTableIndexOf(page, Four))).Ok?
    requires EntryFrame(Ent(m, EntryAddr(Ent(m, m.root, PageTableIndexOf(page, Four))),
                            PageTableIndexOf(page, Three))).Ok?
    ensures var t3 := EntryAddr(Ent(m, m.root, PageTableIndexOf(page, Four)));
      var t2 := EntryAddr(Ent(m, t3, PageTableIndexOf(page, Three)));
      var e := Ent(m, t2, PageTableIndexOf(page, Two));
      HwFrame(m, P1Page(page, r)) == if PRESENT in EntryFlags(e) then Some(EntryAddr(e)) else None
  {
  }

  /** Through the recursive page of step `n` the processor reaches exactly the table the engine's
      walk reaches in `n` steps, whenever the walk's last entry is present; it faults otherwise. */
  lemma TablePageReaches(m: RecMachine, r: PageTableIndex, page: Page, n: nat)
    requires Recursive(m, r) && 1 <= n <= Depth(page.size)
    requires Walk(AsMapped(m), page, n - 1).Ok?
    ensures var e := EntryOf(AsMapped(m), Walk(AsMapped(m), page, n - 1).value, StepIndex(page, n - 1));
      HwFrame(m, TablePage(page, r, n)) == if PRESENT in EntryFlags(e) then Some(EntryAddr(e)) else None
  {
    if n == 1 {
      P3PageReaches(m, r, page);
    } else if n == 2 {
      SecondTableReached(m, r, page);
    } else {
      ThirdTableReached(m, r, page);
    }
  }

  /** `TablePageReaches` for the level-2 table. */
  lemma SecondTableReached(m: RecMachine, r: PageTableIndex, page: Page)
    requires Recursive(m, r) && page.size != Size1GiB
    requires Walk(AsMapped(m), page, 1).Ok?
    ensures var e := EntryOf(AsMapped(m), Walk(AsMapped(m), page, 1).value, StepIndex(page, 1));
      HwFrame(m, P2Page(page, r)) == if PRESENT in EntryFlags(e) then Some(EntryAddr(e)) else None
  {
    var mm := AsMapped(m);
    assert Walk(mm, page, 1) == NextTable(mm, Root, StepIndex(page, 0));
    P2PageReaches(m, r, page);
  }

  /** `TablePageReaches` for the level-1 table. */
  lemma ThirdTableReached(m: RecMachine, r: PageTableIndex, page: Page)
    requires Recursive(m, r) && page.size == Size4KiB
    requires Walk(AsMapped(m), page, 2).Ok?
    ensures var e := EntryOf(AsMapped(m), Walk(AsMapped(m), page, 2).value, StepIndex(page, 2));
      HwFrame(m, P1Page(page, r)) == if PRESENT in EntryFlags(e) then Some(EntryAddr(e)) else None
  {
    var mm := AsMapped(m);
    WalkPrefix(mm, page, 1, 2);
    assert Walk(mm, page, 1) == NextTable(mm, Root, StepIndex(page, 0));
    assert Walk(mm, page, 2) == NextTable(mm, Walk(mm, page, 1).value, StepIndex(page, 1));
    P1PageReaches(m, r, page);
  }

  /** `RecursivePageTable::new`. The table's page must have all four indices equal, which fixes
      the recursive index, and the table's entry at that index must name the frame CR3 holds
      (passed in as `cr3Frame`); otherwise `Err(())`. */
  function New(table: PageTable, tableAddr: VirtAddr, cr3Frame: PhysFrame)
    : (res: Result<RecursivePageTable, ()>)
  {
    var page := ContainingAddress(Size4KiB, tableAddr);
    var r := PageTableIndexOf(page, Four);
    if PageTableIndexOf(page, Three) != r || PageTableIndexOf(page, Two) != r
       || PageTableIndexOf(page, One) != r then Err(())
    else if EntryFrame(table[r]) != Ok(cr3Frame) then Err(())
    else Ok(RecursivePageTable(r))
  }

  /** `RecursivePageTable::new_unchecked`: the caller vouches for the recursive index. */
  function NewUnchecked(recursiveIndex: PageTableIndex): (t: RecursivePageTable)
    ensures t.recursiveIndex == recursiveIndex
  {
    RecursivePageTable(recursiveIndex)
  }

  /** A table in the recursive slot is accepted: handed the level-4 table of a machine recursively
      mapped at `r`, its address four times `r`, and the root frame, `new` returns index `r`;
      and the processor does map that address to the root frame. */
  lemma NewAcceptsRecursiveTable(m: RecMachine, r: PageTableIndex, cr3Frame: PhysFrame)
    requires Recursive(m, r) && cr3Frame == RawFrame(Size4KiB, m.root)
    ensures New(Tbl(m, m.root), RecursiveTablePage(r).start, cr3Frame) == Ok(RecursivePageTable(r))
    ensures HwFrame(m, RecursiveTablePage(r)) == Some(m.root)
  {
    var p := RecursiveTablePage(r);
    PageRoundTrip(p, p.start);
    assert ContainingAddress(Size4KiB, p.start) == p;
  }

  /** Whatever `new` accepts is such a table: the machine is recursively mapped at the returned
      index, the given address lies in the page four times that index, and the processor maps
      that page to the root frame. */
  lemma NewOkMeansRecursive(m: RecMachine, tableAddr: VirtAddr, cr3Frame: PhysFrame)
    requires cr3Frame == RawFrame(Size4KiB, m.root)
    requires New(Tbl(m, m.root), tableAddr, cr3Frame).Ok?
    ensures var r := New(Tbl(m, m.root), tableAddr, cr3Frame).value.recursiveIndex;
      && Recursive(m, r)
      && ContainingAddress(Size4KiB, tableAddr) == RecursiveTablePage(r)
      && HwFrame(m, RecursiveTablePage(r)) == Some(m.root)
  {
    var r := New(Tbl(m, m.root), tableAddr, cr3Frame).value.recursiveIndex;
    SameFieldsSamePage(ContainingAddress(Size4KiB, tableAddr), RecursiveTablePage(r));
  }

  /** How the crate tests a parent entry before it follows the recursive page below it:
      `unmap` decodes it with `frame()`, the other operations only ask `is_unused()`. */
  datatype ParentCheck = ByFrame | ByUse

  /** The verdict on one parent entry: `frame()` refuses an entry that is not present or maps a
      huge page, `is_unused()` only a zero entry. */
  function CheckParent(e: PageTableEntry, check: ParentCheck): (r: Result<(), PageTableWalkError>)
    ensures check == ByUse ==> (r.Err? <==> IsUnused(e)) && (r.Err? ==> r.error == PageTableWalkError.NotMapped)
    ensures check == ByFrame ==> (r.Err? <==> EntryFrame(e).Err?)
    ensures check == ByFrame && r.Err? ==> r.error == WalkErrorOf(EntryFrame(e).error)
  {
    if check == ByUse then (if IsUnused(e) then Err(PageTableWalkError.NotMapped) else Ok(()))
    else
      match EntryFrame(e)
      case Err(fe) => Err(WalkErrorOf(fe))
      case Ok(_) => Ok(())
  }

  /** `n` steps down the page's walk through the recursive pages: each parent entry is checked,
      then the table below it is reached through `p3_page`, `p2_page` or `p1_page`. The value is
      the frame of the table reached, `Err` with the first refused entry, or `None` when a
      recursive page is not mapped and the access faults. */
  function RecWalk(m: RecMachine, r: PageTableIndex, page: Page, n: nat, check: ParentCheck)
    : (res: Option<Result<PhysAddr, PageTableWalkError>>)
    requires n <= Depth(page.size)
    ensures n == 0 ==> res == Some(Ok(m.root))
  {
    if n == 0 then Some(Ok(m.root))
    else
      match RecWalk(m, r, page, n - 1, check)
      case None => None
      case Some(Err(e)) => Some(Err(e))
      case Some(Ok(t)) =>
        match CheckParent(Ent(m, t, StepIndex(page, n - 1)), check)
        case Err(e) => Some(Err(e))
        case Ok(_) =>
          match HwFrame(m, TablePage(page, r, n))
          case None => None
          case Some(next) => Some(Ok(next))
  }

  /** The engine's walk, with its tables given by their frames. */
  function WalkFrames(m: RecMachine, page: Page, n: nat): Result<PhysAddr, PageTableWalkError>
    requires n <= 3
  {
    match Walk(AsMapped(m), page, n)
    case Ok(t) => Ok(RefAddr(m, t))
    case Err(e) => Err(e)
  }

  /** On a recursively mapped machine, the walk through recursive pages that decodes each parent
      with `frame()` never faults and reaches exactly the tables, and stops with exactly the
      errors, of the engine's walk. */
  lemma {:induction false} RecWalkByFrameAgrees(m: RecMachine, r: PageTableIndex, page: Page, n: nat)
    requires Recursive(m, r) && n <= Depth(page.size)
    ensures RecWalk(m, r, page, n, ByFrame) == Some(WalkFrames(m, page, n))
  {
    if n > 0 {
      RecWalkByFrameAgrees(m, r, page, n - 1);
      RecWalkByFrameStep(m, r, page, n);
    }
  }

  /** One step of `RecWalkByFrameAgrees`. */
  lemma RecWalkByFrameStep(m: RecMachine, r: PageTableIndex, page: Page, n: nat)
    requires Recursive(m, r) && 1 <= n <= Depth(page.size)
    requires RecWalk(m, r, page, n - 1, ByFrame) == Some(WalkFrames(m, page, n - 1))
    ensures RecWalk(m, r, page, n, ByFrame) == Some(WalkFrames(m, page, n))
  {
    var mm := AsMapped(m);
    match Walk(mm, page, n - 1)
    case Err(_) =>
    case Ok(t) =>
      var e := EntryOf(mm, t, StepIndex(page, n - 1));
      match EntryFrame(e)
      case Err(fe) => RecWalkByFrameRefused(m, r, page, n, t, fe);
      case Ok(f) => RecWalkByFrameFollows(m, r, page, n, t, f);
  }

  /** The step of `RecWalkByFrameStep` at a parent entry `frame()` refuses. */
  lemma RecWalkByFrameRefused(m: RecMachine, r: PageTableIndex, page: Page, n: nat, t: TableRef,
                              fe: FrameError)
    requires Recursive(m, r) && 1 <= n <= Depth(page.size)
    requires Walk(AsMapped(m), page, n - 1) == Ok(t)
    requires RecWalk(m, r, page, n - 1, ByFrame) == Some(Ok(RefAddr(m, t)))
    requires EntryFrame(EntryOf(AsMapped(m), t, StepIndex(page, n - 1))) == Err(fe)
    ensures RecWalk(m, r, page, n, ByFrame) == Some(WalkFrames(m, page, n))
  {
    var e := EntryOf(AsMapped(m), t, StepIndex(page, n - 1));
    assert Ent(m, RefAddr(m, t), StepIndex(page, n - 1)) == e;
    assert Walk(AsMapped(m), page, n) == Err(WalkErrorOf(fe));
  }

  /** The step of `RecWalkByFrameStep` at a parent entry `frame()` decodes. */
  lemma RecWalkByFrameFollows(m: RecMachine, r: PageTableIndex, page: Page, n: nat, t: TableRef,
                              f: PhysFrame)
    requires Recursive(m, r) && 1 <= n <= Depth(page.size)
    requires Walk(AsMapped(m), page, n - 1) == Ok(t)
    requires RecWalk(m, r, page, n - 1, ByFrame) == Some(Ok(RefAddr(m, t)))
    requires EntryFrame(EntryOf(AsMapped(m), t, StepIndex(page, n - 1))) == Ok(f)
    ensures RecWalk(m, r, page, n, ByFrame) == Some(WalkFrames(m, page, n))
  {
    var e := EntryOf(AsMapped(m), t, StepIndex(page, n - 1));
    assert Ent(m, RefAddr(m, t), StepIndex(page, n - 1)) == e;
    TablePageReaches(m, r, page, n);
    assert Walk(AsMapped(m), page, n) == Ok(InFrame(f.start));
  }

  /** The walk that only asks `is_unused()` reaches the same tables as the engine's walk whenever
      the engine's walk gets through. */
  lemma {:induction false} RecWalkByUseAgrees(m: RecMachine, r: PageTableIndex, page: Page, n: nat)
    requires Recursive(m, r) && n <= Depth(page.size) && Walk(AsMapped(m), page, n).Ok?
    ensures RecWalk(m, r, page, n, ByUse) == Some(WalkFrames(m, page, n))
  {
    if n > 0 {
      var mm := AsMapped(m);
      WalkPrefix(mm, page, n - 1, n);
      RecWalkByUseAgrees(m, r, page, n - 1);
      var t := Walk(mm, page, n - 1).value;
      var e := EntryOf(mm, t, StepIndex(page, n - 1));
      assert Ent(m, RefAddr(m, t), StepIndex(page, n - 1)) == e;
      UnusedParts(e);
      TablePageReaches(m, r, page, n);
    }
  }

  /** `unmap` for the three sizes: each parent is decoded with `frame()` (`PageNotMapped` when it
      is not present, `ParentEntryHugePage` when it maps a huge page), and the leaf table is then
      reached through its recursive page. A 4 KiB leaf is decoded with `frame()`; a huge leaf must
      be present and huge and hold an address aligned to the page size. The leaf is set unused
      and its frame returned. */
  function RecUnmap(m: RecMachine, t: RecursivePageTable, page: Page)
    : (res: Run<Result<(PhysFrame, MapperFlush), UnmapError>>)
    ensures res.Returns? && res.value.Err? ==> res.machine == m
    ensures res.Returns? && res.value.Ok? ==>
      res.value.value.0.size == page.size && res.value.value.1 == MapperFlush(page)
  {
    match RecWalk(m, t.recursiveIndex, page, Depth(page.size), ByFrame)
    case None => Faults
    case Some(Err(e)) => Returns(m, Err(UnmapErrorOfWalk(e)))
    case Some(Ok(a)) =>
      var i := LeafIndex(page);
      var e := Ent(m, a, i);
      if page.size == Size4KiB then
        match EntryFrame(e)
        case Err(fe) => Returns(m, Err(UnmapErrorOf(fe)))
        case Ok(frame) => Returns(Write(m, a, i, SetUnused(e)), Ok((frame, MapperFlush(page))))
      else if PRESENT !in EntryFlags(e) then Returns(m, Err(UnmapError.PageNotMapped))
      else if HUGE_PAGE !in EntryFlags(e) then Returns(m, Err(UnmapError.ParentEntryHugePage))
      else
        match FrameFromStartAddress(page.size, EntryAddr(e))
        case Err(_) => Returns(m, Err(UnmapError.InvalidFrameAddress(EntryAddr(e))))
        case Ok(frame) => Returns(Write(m, a, i, SetUnused(e)), Ok((frame, MapperFlush(page))))
  }

  /** `update_flags` for the three sizes: every parent only has to be in use; an unused leaf gives
      `PageNotMapped`; otherwise the leaf's flags are replaced, with HUGE_PAGE added for a huge
      page. */
  function RecUpdateFlags(m: RecMachine, t: RecursivePageTable, page: Page, flags: PageTableFlags)
    : (res: Run<Result<MapperFlush, FlagUpdateError>>)
    ensures res.Returns? && res.value.Err? ==>
      res.machine == m && res.value.error == FlagUpdateError.PageNotMapped
    ensures res.Returns? && res.value.Ok? ==> res.value.value == MapperFlush(page)
  {
    match RecWalk(m, t.recursiveIndex, page, Depth(page.size), ByUse)
    case None => Faults
    case Some(Err(_)) => Returns(m, Err(FlagUpdateError.PageNotMapped))
    case Some(Ok(a)) =>
      var e := Ent(m, a, LeafIndex(page));
      if IsUnused(e) then Returns(m, Err(FlagUpdateError.PageNotMapped))
      else Returns(Write(m, a, LeafIndex(page), SetFlags(e, LeafFlags(page, flags))),
                   Ok(MapperFlush(page)))
  }

  /** `set_flags_p4_entry`, `set_flags_p3_entry` and `set_flags_p2_entry` for the three sizes. A
      level at or below the page's leaf level gives `ParentEntryHugePage`; otherwise every entry
      above that level only has to be in use, an unused entry at the level gives
      `PageNotMapped`, and the entry's flags are replaced. */
  function RecSetFlagsParentEntry(m: RecMachine, t: RecursivePageTable, page: Page,
                                  level: PageTableLevel, flags: PageTableFlags)
    : (res: Run<Result<MapperFlushAll, FlagUpdateError>>)
    requires level != One
    ensures res.Returns? && res.value.Err? ==> res.machine == m
    ensures StepsTo(level) >= Depth(page.size) ==>
      res == Returns(m, Err(FlagUpdateError.ParentEntryHugePage))
  {
    var n := StepsTo(level);
    if n >= Depth(page.size) then Returns(m, Err(FlagUpdateError.ParentEntryHugePage))
    else
      match RecWalk(m, t.recursiveIndex, page, n, ByUse)
      case None => Faults
      case Some(Err(_)) => Returns(m, Err(FlagUpdateError.PageNotMapped))
      case Some(Ok(a)) =>
        var e := Ent(m, a, StepIndex(page, n));
        if IsUnused(e) then Returns(m, Err(FlagUpdateError.PageNotMapped))
        else Returns(Write(m, a, StepIndex(page, n), SetFlags(e, flags)), Ok(MapperFlushAll))
  }

  /** `translate_page` for the three sizes: every parent only has to be in use, an unused leaf
      gives `PageNotMapped`, an address not aligned to the page size `InvalidFrameAddress`, and
      otherwise the frame of the page's size that starts at the leaf's address. */
  function RecTranslatePage(m: RecMachine, t: RecursivePageTable, page: Page)
    : (res: Run<Result<PhysFrame, TranslateError>>)
    ensures res.Returns? ==> res.machine == m
    ensures res.Returns? && res.value.Ok? ==> res.value.value.size == page.size
  {
    match RecWalk(m, t.recursiveIndex, page, Depth(page.size), ByUse)
    case None => Faults
    case Some(Err(_)) => Returns(m, Err(TranslateError.PageNotMapped))
    case Some(Ok(a)) => LeafTranslation(m, page, Ent(m, a, LeafIndex(page)))
  }

  /** `unmap` through the recursive pages behaves as the engine's `unmap`: the same result, and
      on success the same entry, the page's entry in the leaf table the engine's walk reaches,
      is set unused. */
  predicate UnmapsLikeEngine(m: RecMachine, t: RecursivePageTable, page: Page)
  {
    var res := RecUnmap(m, t, page);
    && res.Returns?
    && res.value == Unmap(AsMapped(m), page).1
    && (res.value.Ok? ==>
          Walk(AsMapped(m), page, Depth(page.size)).Ok?
          && var leaf := Walk(AsMapped(m), page, Depth(page.size)).value;
          res.machine == Write(m, RefAddr(m, leaf), LeafIndex(page), NewEntry()))
  }

  /** On a recursively mapped machine `unmap` never faults and unmaps as the engine does. */
  lemma RecUnmapAgrees(m: RecMachine, t: RecursivePageTable, page: Page)
    requires Recursive(m, t.recursiveIndex)
    ensures UnmapsLikeEngine(m, t, page)
  {
    RecWalkByFrameAgrees(m, t.recursiveIndex, page, Depth(page.size));
    match Walk(AsMapped(m), page, Depth(page.size))
    case Err(_) =>
    case Ok(leaf) =>
      if page.size == Size4KiB {
        UnmapLeafAgrees4KiB(m, t, page, leaf);
      } else {
        UnmapLeafAgreesHuge(m, t, page, leaf);
      }
  }

  /** `RecUnmapAgrees` at the leaf of a 4 KiB page. */
  lemma UnmapLeafAgrees4KiB(m: RecMachine, t: RecursivePageTable, page: Page, leaf: TableRef)
    requires page.size == Size4KiB && Walk(AsMapped(m), page, 3) == Ok(leaf)
    requires RecWalk(m, t.recursiveIndex, page, 3, ByFrame) == Some(Ok(RefAddr(m, leaf)))
    ensures UnmapsLikeEngine(m, t, page)
  {
    assert Ent(m, RefAddr(m, leaf), LeafIndex(page)) == EntryOf(AsMapped(m), leaf, LeafIndex(page));
  }

  /** `RecUnmapAgrees` at the leaf of a huge page. */
  lemma UnmapLeafAgreesHuge(m: RecMachine, t: RecursivePageTable, page: Page, leaf: TableRef)
    requires page.size != Size4KiB && Walk(AsMapped(m), page, Depth(page.size)) == Ok(leaf)
    requires RecWalk(m, t.recursiveIndex, page, Depth(page.size), ByFrame) == Some(Ok(RefAddr(m, leaf)))
    ensures UnmapsLikeEngine(m, t, page)
  {
    var a := RefAddr(m, leaf);
    var e := Ent(m, a, LeafIndex(page));
    assert e == EntryOf(AsMapped(m), leaf, LeafIndex(page));
    if PRESENT !in EntryFlags(e) {
      assert RecUnmap(m, t, page) == Returns(m, Err(UnmapError.PageNotMapped));
    } else if HUGE_PAGE !in EntryFlags(e) {
      assert RecUnmap(m, t, page) == Returns(m, Err(UnmapError.ParentEntryHugePage));
    } else {
      match FrameFromStartAddress(page.size, EntryAddr(e))
      case Err(_) =>
        assert RecUnmap(m, t, page) == Returns(m, Err(UnmapError.InvalidFrameAddress(EntryAddr(e))));
      case Ok(frame) =>
        assert RecUnmap(m, t, page)
          == Returns(Write(m, a, LeafIndex(page), SetUnused(e)), Ok((frame, MapperFlush(page))));
    }
  }

  /** On a recursively mapped machine whose walk for the page gets through, `update_flags`
      behaves as the engine's: the same result, and on success the same entry gets the same
      flags. */
  lemma RecUpdateFlagsAgrees(m: RecMachine, t: RecursivePageTable, page: Page, flags: PageTableFlags)
    requires Recursive(m, t.recursiveIndex) && Walk(AsMapped(m), page, Depth(page.size)).Ok?
    ensures var res := RecUpdateFlags(m, t, page, flags);
      var leaf := Walk(AsMapped(m), page, Depth(page.size)).value;
      var e := EntryOf(AsMapped(m), leaf, LeafIndex(page));
      && res.Returns?
      && res.value == UpdateFlags(AsMapped(m), page, flags).1
      && (res.value.Ok? ==>
            res.machine == Write(m, RefAddr(m, leaf), LeafIndex(page), SetFlags(e, LeafFlags(page, flags))))
  {
    RecWalkByUseAgrees(m, t.recursiveIndex, page, Depth(page.size));
  }

  /** On a recursively mapped machine whose walk down to the level gets through, setting a parent
      entry's flags behaves as the engine's: the same result, and on success the same entry gets
      the flags. */
  lemma RecSetFlagsParentEntryAgrees(m: RecMachine, t: RecursivePageTable, page: Page,
                                     level: PageTableLevel, flags: PageTableFlags)
    requires level != One && Recursive(m, t.recursiveIndex)
    requires StepsTo(level) < Depth(page.size) ==> Walk(AsMapped(m), page, StepsTo(level)).Ok?
    ensures var res := RecSetFlagsParentEntry(m, t, page, level, flags);
      && res.Returns?
      && res.value == SetFlagsParentEntry(AsMapped(m), page, level, flags).1
      && (res.value.Ok? ==>
            var n := StepsTo(level);
            var tbl := Walk(AsMapped(m), page, n).value;
            var e := EntryOf(AsMapped(m), tbl, StepIndex(page, n));
            res.machine == Write(m, RefAddr(m, tbl), StepIndex(page, n), SetFlags(e, flags)))
  {
    var n := StepsTo(level);
    if n < Depth(page.size) {
      RecWalkByUseAgrees(m, t.recursiveIndex, page, n);
      var tbl := Walk(AsMapped(m), page, n).value;
      var a := RefAddr(m, tbl);
      var e := Ent(m, a, StepIndex(page, n));
      assert e == EntryOf(AsMapped(m), tbl, StepIndex(page, n));
      if IsUnused(e) {
        assert RecSetFlagsParentEntry(m, t, page, level, flags)
          == Returns(m, Err(FlagUpdateError.PageNotMapped));
      } else {
        assert RecSetFlagsParentEntry(m, t, page, level, flags)
          == Returns(Write(m, a, StepIndex(page, n), SetFlags(e, flags)), Ok(MapperFlushAll));
      }
    }
  }

  /** On a recursively mapped machine whose walk for the page gets through, `translate_page`
      gives the engine's answer. */
  lemma RecTranslatePageAgrees(m: RecMachine, t: RecursivePageTable, page: Page)
    requires Recursive(m, t.recursiveIndex) && Walk(AsMapped(m), page, Depth(page.size)).Ok?
    ensures RecTranslatePage(m, t, page) == Returns(m, TranslatePage(AsMapped(m), page))
  {
    RecWalkByUseAgrees(m, t.recursiveIndex, page, Depth(page.size));
  }

  /** `TranslateResult` as this revision of the recursive mapper reports it: the frame with its
      size in the variant and the offset inside it, or one of the two failures. */
  datatype RecTranslateResult =
    | Frame4KiB(frame: PhysFrame, offset: u64)
    | Frame2MiB(frame: PhysFrame, offset: u64)
    | Frame1GiB(frame: PhysFrame, offset: u64)
    | PageNotMapped
    | InvalidFrameAddress(addr: PhysAddr)

  /** A found frame has the size its variant names, and the offset lies inside it. */
  predicate Sized(r: RecTranslateResult)
  {
    && (r.Frame4KiB? ==> r.frame.size == Size4KiB && r.offset < 0x1000)
    && (r.Frame2MiB? ==> r.frame.size == Size2MiB && r.offset < 0x20_0000)
    && (r.Frame1GiB? ==> r.frame.size == Size1GiB && r.offset < 0x4000_0000)
  }

  /** `translate` (of `MapperAllSizes`): the address's four entries are read through the level-4
      table and the recursive pages of the 4 KiB page containing it. An unused entry gives
      `PageNotMapped`; a huge level-4 or level-1 entry panics; a huge level-3 or level-2 entry maps
      the 1 GiB or 2 MiB frame containing its address, at the address's offset inside such a
      frame; a level-1 address that does not start a frame gives `InvalidFrameAddress`. Nothing is
      written. */
  function RecTranslate(m: RecMachine, t: RecursivePageTable, addr: VirtAddr)
    : (res: Run<RecTranslateResult>)
    ensures res.Returns? ==> res.machine == m && Sized(res.value)
  {
    var page := ContainingAddress(Size4KiB, addr);
    var e4 := Ent(m, m.root, P4Index(addr));
    if IsUnused(e4) then Returns(m, RecTranslateResult.PageNotMapped)
    else if HUGE_PAGE in EntryFlags(e4) then Panics
    else
      match HwFrame(m, P3Page(page, t.recursiveIndex))
      case None => Faults
      case Some(p3) => RecTranslateFrom3(m, t, page, addr, p3)
  }

  /** `translate` from the level-3 table, found in the frame at `p3`. */
  function RecTranslateFrom3(m: RecMachine, t: RecursivePageTable, page: Page, addr: VirtAddr,
                             p3: PhysAddr)
    : (res: Run<RecTranslateResult>)
    requires page == ContainingAddress(Size4KiB, addr)
    ensures res.Returns? ==> res.machine == m && Sized(res.value)
  {
    var e3 := Ent(m, p3, P3Index(addr));
    if IsUnused(e3) then Returns(m, RecTranslateResult.PageNotMapped)
    else if HUGE_PAGE in EntryFlags(e3) then
      Returns(m, Frame1GiB(FrameContainingAddress(Size1GiB, EntryAddr(e3)), addr % 0x4000_0000))
    else
      match HwFrame(m, P2Page(page, t.recursiveIndex))
      case None => Faults
      case Some(p2) => RecTranslateFrom2(m, t, page, addr, p2)
  }

  /** `translate` from the level-2 table, found in the frame at `p2`. */
  function RecTranslateFrom2(m: RecMachine, t: RecursivePageTable, page: Page, addr: VirtAddr,
                             p2: PhysAddr)
    : (res: Run<RecTranslateResult>)
    requires page == ContainingAddress(Size4KiB, addr)
    ensures res.Returns? ==> res.machine == m && Sized(res.value) && !res.value.Frame1GiB?
  {
    var e2 := Ent(m, p2, P2Index(addr));
    if IsUnused(e2) then Returns(m, RecTranslateResult.PageNotMapped)
    else if HUGE_PAGE in EntryFlags(e2) then
      Returns(m, Frame2MiB(FrameContainingAddress(Size2MiB, EntryAddr(e2)), addr % 0x20_0000))
    else
      match HwFrame(m, P1Page(page, t.recursiveIndex))
      case None => Faults
      case Some(p1) => RecTranslateFrom1(m, addr, p1)
  }

  /** `translate` at the level-1 table, found in the frame at `p1`: only a 4 KiB frame. */
  function RecTranslateFrom1(m: RecMachine, addr: VirtAddr, p1: PhysAddr)
    : (res: Run<RecTranslateResult>)
    ensures res.Returns? ==> res.machine == m && Sized(res.value)
    ensures res.Returns? ==> !res.value.Frame1GiB? && !res.value.Frame2MiB?
    ensures res.Panics? <==> !IsUnused(Ent(m, p1, P1Index(addr))) && HUGE_PAGE in EntryFlags(Ent(m, p1, P1Index(addr)))
  {
    var e1 := Ent(m, p1, P1Index(addr));
    if IsUnused(e1) then Returns(m, RecTranslateResult.PageNotMapped)
    else if HUGE_PAGE in EntryFlags(e1) then Panics
    else
      match FrameFromStartAddress(Size4KiB, EntryAddr(e1))
      case Err(_) => Returns(m, RecTranslateResult.InvalidFrameAddress(EntryAddr(e1)))
      case Ok(frame) => Returns(m, Frame4KiB(frame, PageOffsetOf(addr)))
  }

  /** The engine's `TranslateResult` in this revision's terms: the flags are dropped and the frame's
      size picks the variant. */
  function AsRecResult(r: TranslateResult): RecTranslateResult
  {
    match r
    case Mapped(f, offset, _) =>
      (match f.frame.size
       case Size4KiB => Frame4KiB(f.frame, offset)
       case Size2MiB => Frame2MiB(f.frame, offset)
       case Size1GiB => Frame1GiB(f.frame, offset))
    case NotMapped => RecTranslateResult.PageNotMapped
    case InvalidFrameAddress(a) => RecTranslateResult.InvalidFrameAddress(a)
  }

  /** An entry in use is present. */
  predicate UsedIsPresent(e: PageTableEntry)
  {
    !IsUnused(e) ==> PRESENT in EntryFlags(e)
  }

  /** The entries `translate` reads for the address follow the conventions it relies on: every
      parent entry in use is present, the level-4 entry maps no huge page, and the level-1 entry
      does not carry HUGE_PAGE. */
  predicate PresentPath(m: RecMachine, addr: VirtAddr)
  {
    var e4 := Ent(m, m.root, P4Index(addr));
    && UsedIsPresent(e4) && HUGE_PAGE !in EntryFlags(e4)
    && (EntryFrame(e4).Ok? ==>
          var e3 := Ent(m, EntryAddr(e4), P3Index(addr));
          && UsedIsPresent(e3)
          && (EntryFrame(e3).Ok? ==>
                var e2 := Ent(m, EntryAddr(e3), P2Index(addr));
                && UsedIsPresent(e2)
                && (EntryFrame(e2).Ok? ==> HUGE_PAGE !in EntryFlags(Ent(m, EntryAddr(e2), P1Index(addr))))))
  }

  /** On a recursively mapped machine whose entries for the address follow those conventions,
      `translate` never faults or panics and finds what the engine's `translate` finds. */
  lemma RecTranslateAgrees(m: RecMachine, t: RecursivePageTable, addr: VirtAddr)
    requires Recursive(m, t.recursiveIndex) && PresentPath(m, addr)
    ensures NoHugeLevel4Entry(AsMapped(m), addr)
    ensures RecTranslate(m, t, addr) == Returns(m, AsRecResult(Translate(AsMapped(m), addr)))
  {
    var mm := AsMapped(m);
    var page := ContainingAddress(Size4KiB, addr);
    ContainedIndices(page, addr);
    var e4 := Ent(m, m.root, P4Index(addr));
    assert EntryOf(mm, Root, P4Index(addr)) == e4;
    UnusedParts(e4);
    if PRESENT in EntryFlags(e4) {
      P3PageReaches(m, t.recursiveIndex, page);
      assert NextTable(mm, Root, P4Index(addr)) == Ok(InFrame(EntryAddr(e4)));
      Translate3Agrees(m, t, page, addr, EntryAddr(e4));
    }
  }

  /** `RecTranslateAgrees` from the level-3 table on. */
  lemma Translate3Agrees(m: RecMachine, t: RecursivePageTable, page: Page, addr: VirtAddr,
                         p3: PhysAddr)
    requires Recursive(m, t.recursiveIndex) && PresentPath(m, addr)
    requires page == ContainingAddress(Size4KiB, addr)
    requires EntryFrame(Ent(m, m.root, P4Index(addr))).Ok?
    requires p3 == EntryAddr(Ent(m, m.root, P4Index(addr)))
    ensures RecTranslateFrom3(m, t, page, addr, p3)
      == Returns(m, AsRecResult(TranslateFromLevel3(AsMapped(m), InFrame(p3), addr)))
  {
    var mm := AsMapped(m);
    ContainedIndices(page, addr);
    var e3 := Ent(m, p3, P3Index(addr));
    assert EntryOf(mm, InFrame(p3), P3Index(addr)) == e3;
    UnusedParts(e3);
    if PRESENT in EntryFlags(e3) && HUGE_PAGE !in EntryFlags(e3) {
      P2PageReaches(m, t.recursiveIndex, page);
      assert NextTable(mm, InFrame(p3), P3Index(addr)) == Ok(InFrame(EntryAddr(e3)));
      Translate2Agrees(m, t, page, addr, p3, EntryAddr(e3));
    }
  }

  /** `RecTranslateAgrees` from the level-2 table on. */
  lemma Translate2Agrees(m: RecMachine, t: RecursivePageTable, page: Page, addr: VirtAddr,
                         p3: PhysAddr, p2: PhysAddr)
    requires Recursive(m, t.recursiveIndex) && PresentPath(m, addr)
    requires page == ContainingAddress(Size4KiB, addr)
    requires EntryFrame(Ent(m, m.root, P4Index(addr))).Ok?
    requires p3 == EntryAddr(Ent(m, m.root, P4Index(addr)))
    requires EntryFrame(Ent(m, p3, P3Index(addr))).Ok?
    requires p2 == EntryAddr(Ent(m, p3, P3Index(addr)))
    ensures RecTranslateFrom2(m, t, page, addr, p2)
      == Returns(m, AsRecResult(TranslateFromLevel2(AsMapped(m), InFrame(p2), addr)))
  {
    var mm := AsMapped(m);
    ContainedIndices(page, addr);
    var e2 := Ent(m, p2, P2Index(addr));
    assert EntryOf(mm, InFrame(p2), P2Index(addr)) == e2;
    UnusedParts(e2);
    if PRESENT in EntryFlags(e2) && HUGE_PAGE !in EntryFlags(e2) {
      P1PageReaches(m, t.recursiveIndex, page);
      var p1 := EntryAddr(e2);
      assert NextTable(mm, InFrame(p2), P2Index(addr)) == Ok(InFrame(p1));
      assert EntryOf(mm, InFrame(p1), P1Index(addr)) == Ent(m, p1, P1Index(addr));
    }
  }

  /** The flags `create_next_table` gives an entry it installs: the insert flags with PRESENT and
      WRITABLE always added, as recursive mapping needs every parent present and writable. */
  function CreatedFlags(insert: PageTableFlags): (r: PageTableFlags)
    ensures PRESENT in r && WRITABLE in r && insert <= r
    ensures forall k :: k in r ==> k in insert || k == PRESENT || k == WRITABLE
  {
    insert + {PRESENT, WRITABLE}
  }

  /** `create_next_table`: entry `i` of the table at `a` is the parent entry, `next` the recursive
      page of the table below it. An unused entry asks the allocator for a frame: none gives
      `FrameAllocationFailed`; a frame is installed with `CreatedFlags(insert)` (`set_frame`,
      which panics on HUGE_PAGE). A used entry gets the insert flags or-ed in when they are not
      all there yet. Then an entry that maps a huge page gives `ParentEntryHugePage`; otherwise
      the next table is reached through `next`, and zeroed when it was just created. */
  function RecCreateNextTable(m: RecMachine, a: PhysAddr, i: PageTableIndex, next: Page,
                              insert: PageTableFlags)
    : (res: Run<Result<PhysAddr, MapToError>>)
    ensures res.Returns? && res.value.Err? ==> !res.value.error.PageAlreadyMapped?
    ensures res.Returns? ==> res.machine.root == m.root
  {
    var e := Ent(m, a, i);
    if IsUnused(e) then
      var answer := AllocateFrame(m.allocator);
      var m1 := m.(allocator := answer.1);
      match answer.0
      case None => Returns(m1, Err(MapToError.FrameAllocationFailed))
      case Some(frame) =>
        if HUGE_PAGE in CreatedFlags(insert) then Panics
        else ReachCreated(Write(m1, a, i, SetFrame(e, frame, CreatedFlags(insert))), a, i, next, true)
    else if insert != {} && !(insert <= EntryFlags(e)) then
      ReachCreated(Write(m, a, i, SetFlags(e, EntryFlags(e) + insert)), a, i, next, false)
    else
      ReachCreated(m, a, i, next, false)
  }

  /** The end of `create_next_table`: refuse a huge entry, reach the next table through its
      recursive page, and zero it when it was just created. */
  function ReachCreated(m: RecMachine, a: PhysAddr, i: PageTableIndex, next: Page, created: bool)
    : (res: Run<Result<PhysAddr, MapToError>>)
    ensures !res.Panics?
    ensures res.Returns? ==> res.machine.root == m.root && res.machine.allocator == m.allocator
    ensures res.Returns? && res.value.Err? ==>
      res.machine == m && res.value.error == MapToError.ParentEntryHugePage
    ensures res.Returns? && res.value.Ok? && created ==>
      forall j: PageTableIndex :: IsUnused(Ent(res.machine, res.value.value, j))
    ensures res.Returns? && res.value.Ok? && !created ==> res.machine == m
  {
    if HUGE_PAGE in EntryFlags(Ent(m, a, i)) then Returns(m, Err(MapToError.ParentEntryHugePage))
    else
      match HwFrame(m, next)
      case None => Faults
      case Some(t) => Returns(if created then Zero(m, t) else m, Ok(t))
  }

  /** `create_next_table` asks the allocator once for an unused entry and never for a used one;
      it fails for want of a frame exactly when the entry is unused and the allocator answers
      `None`, and then nothing but the allocator has changed. */
  lemma RecCreateNextTableAllocates(m: RecMachine, a: PhysAddr, i: PageTableIndex, next: Page,
                                    insert: PageTableFlags)
    ensures var res := RecCreateNextTable(m, a, i, next, insert);
      res.Returns? ==>
        Consumed(m.allocator, res.machine.allocator, if IsUnused(Ent(m, a, i)) then 1 else 0)
    ensures var res := RecCreateNextTable(m, a, i, next, insert);
      (res.Returns? && res.value == Err(MapToError.FrameAllocationFailed))
        <==> (IsUnused(Ent(m, a, i)) && AllocateFrame(m.allocator).0.None?)
    ensures var res := RecCreateNextTable(m, a, i, next, insert);
      res.Returns? && res.value == Err(MapToError.FrameAllocationFailed) ==>
        res.machine == m.(allocator := AllocateFrame(m.allocator).1)
  {
    AllocateConsumesOne(m.allocator);
    var e := Ent(m, a, i);
    if IsUnused(e) {
      var answer := AllocateFrame(m.allocator);
      var m1 := m.(allocator := answer.1);
      if answer.0.Some? && HUGE_PAGE !in CreatedFlags(insert) {
        var m2 := Write(m1, a, i, SetFrame(e, answer.0.value, CreatedFlags(insert)));
        assert RecCreateNextTable(m, a, i, next, insert) == ReachCreated(m2, a, i, next, true);
      }
    } else {
      assert Consumed(m.allocator, m.allocator, 0);
      if insert != {} && !(insert <= EntryFlags(e)) {
        var m1 := Write(m, a, i, SetFlags(e, EntryFlags(e) + insert));
        assert RecCreateNextTable(m, a, i, next, insert) == ReachCreated(m1, a, i, next, false);
      }
    }
  }

  /** `create_next_table` panics exactly when it installs a new table and the insert flags ask for
      a huge page; the crate's own flags PRESENT and WRITABLE never cause it. */
  lemma RecCreateNextTablePanics(m: RecMachine, a: PhysAddr, i: PageTableIndex, next: Page,
                                 insert: PageTableFlags)
    ensures RecCreateNextTable(m, a, i, next, insert).Panics? <==>
      IsUnused(Ent(m, a, i)) && AllocateFrame(m.allocator).0.Some? && HUGE_PAGE in insert
  {
  }

  /** `n` steps of `create_next_table` down the page's walk, each through the recursive page of
      the next table, all with the same insert flags; the first error, panic or fault ends it.
      The value is the frame of the table reached. */
  function RecCreateWalk(m: RecMachine, r: PageTableIndex, page: Page, insert: PageTableFlags, n: nat)
    : (res: Run<Result<PhysAddr, MapToError>>)
    requires n <= Depth(page.size)
    ensures n == 0 ==> res == Returns(m, Ok(m.root))
    ensures res.Returns? ==> res.machine.root == m.root
    ensures res.Returns? && res.value.Err? ==> !res.value.error.PageAlreadyMapped?
  {
    if n == 0 then Returns(m, Ok(m.root))
    else
      match RecCreateWalk(m, r, page, insert, n - 1)
      case Panics => Panics
      case Faults => Faults
      case Returns(m1, Err(e)) => Returns(m1, Err(e))
      case Returns(m1, Ok(a)) =>
        RecCreateNextTable(m1, a, StepIndex(page, n - 1), TablePage(page, r, n), insert)
  }

  /** `map_to_1gib`, `map_to_2mib` and `map_to_4kib`: create the parent tables with the parent
      flags; a used leaf gives `PageAlreadyMapped` with the caller's frame; then write the leaf,
      `set_frame` for a 4 KiB page (which panics on HUGE_PAGE) and `set_addr` with HUGE_PAGE
      added for a huge page. */
  function RecMapTo(m: RecMachine, t: RecursivePageTable, page: Page, frame: PhysFrame,
                    flags: PageTableFlags, parentFlags: PageTableFlags)
    : (res: Run<Result<MapperFlush, MapToError>>)
    requires frame.size == page.size
    ensures res.Returns? && res.value.Ok? ==> res.value.value == MapperFlush(page)
    ensures res.Returns? && res.value.Err? && res.value.error.PageAlreadyMapped? ==>
      res.value.error.frame == frame
  {
    match RecCreateWalk(m, t.recursiveIndex, page, parentFlags, Depth(page.size))
    case Panics => Panics
    case Faults => Faults
    case Returns(m1, Err(e)) => Returns(m1, Err(e))
    case Returns(m1, Ok(a)) =>
      var i := LeafIndex(page);
      var e := Ent(m1, a, i);
      if !IsUnused(e) then Returns(m1, Err(PageAlreadyMapped(frame)))
      else if page.size == Size4KiB && HUGE_PAGE in flags then Panics
      else Returns(Write(m1, a, i, LeafEntry(e, page, frame, flags)), Ok(MapperFlush(page)))
  }

  /** Every parent table of the page already exists and every parent entry already holds the
      parent flags, so `map_to` creates and changes nothing on its way down. */
  predicate ParentsInPlace(m: RecMachine, page: Page, parentFlags: PageTableFlags)
  {
    var mm := AsMapped(m);
    && Walk(mm, page, Depth(page.size)).Ok?
    && forall k: nat :: k < Depth(page.size) && Walk(mm, page, k).Ok? ==>
         parentFlags <= EntryFlags(EntryOf(mm, Walk(mm, page, k).value, StepIndex(page, k)))
  }

  /** Over parents in place the engine's creating walk changes nothing and passes the tables of
      its plain walk. */
  lemma {:induction false} EngineCreateWalkInPlace(mm: Machine, page: Page, insert: PageTableFlags, n: nat)
    requires n <= Depth(page.size) && Walk(mm, page, n).Ok?
    requires forall k: nat :: k < n && Walk(mm, page, k).Ok? ==>
      insert <= EntryFlags(EntryOf(mm, Walk(mm, page, k).value, StepIndex(page, k)))
    ensures var w := CreateWalk(mm, page, insert, n);
      w.Done? && w.machine == mm && w.value.Ok? && w.value.value[n] == Walk(mm, page, n).value
  {
    if n > 0 {
      WalkPrefix(mm, page, n - 1, n);
      EngineCreateWalkInPlace(mm, page, insert, n - 1);
      EngineCreateWalkInPlaceStep(mm, page, insert, n);
    }
  }

  /** One step of `EngineCreateWalkInPlace`. */
  lemma EngineCreateWalkInPlaceStep(mm: Machine, page: Page, insert: PageTableFlags, n: nat)
    requires 1 <= n <= Depth(page.size) && Walk(mm, page, n).Ok? && Walk(mm, page, n - 1).Ok?
    requires insert <= EntryFlags(EntryOf(mm, Walk(mm, page, n - 1).value, StepIndex(page, n - 1)))
    requires var w := CreateWalk(mm, page, insert, n - 1);
      w.Done? && w.machine == mm && w.value.Ok? && w.value.value[n - 1] == Walk(mm, page, n - 1).value
    ensures var w := CreateWalk(mm, page, insert, n);
      w.Done? && w.machine == mm && w.value.Ok? && w.value.value[n] == Walk(mm, page, n).value
  {
    var t := Walk(mm, page, n - 1).value;
    var i := StepIndex(page, n - 1);
    var e := EntryOf(mm, t, i);
    UnusedParts(e);
    assert CreateNextTable(mm, t, i, insert) == WalkCreated(mm, t, i, false);
  }

  /** Over parents in place the recursive creating walk never faults, changes nothing and reaches
      the frame of the engine's table. */
  lemma {:induction false} RecCreateWalkInPlace(m: RecMachine, r: PageTableIndex, page: Page,
                                                insert: PageTableFlags, n: nat)
    requires Recursive(m, r) && n <= Depth(page.size) && Walk(AsMapped(m), page, n).Ok?
    requires forall k: nat :: k < n && Walk(AsMapped(m), page, k).Ok? ==>
      insert <= EntryFlags(EntryOf(AsMapped(m), Walk(AsMapped(m), page, k).value, StepIndex(page, k)))
    ensures RecCreateWalk(m, r, page, insert, n) == Returns(m, Ok(RefAddr(m, Walk(AsMapped(m), page, n).value)))
  {
    if n > 0 {
      WalkPrefix(AsMapped(m), page, n - 1, n);
      RecCreateWalkInPlace(m, r, page, insert, n - 1);
      RecCreateWalkInPlaceStep(m, r, page, insert, n);
    }
  }

  /** One step of `RecCreateWalkInPlace`. */
  lemma RecCreateWalkInPlaceStep(m: RecMachine, r: PageTableIndex, page: Page,
                                 insert: PageTableFlags, n: nat)
    requires Recursive(m, r) && 1 <= n <= Depth(page.size) && Walk(AsMapped(m), page, n).Ok?
    requires Walk(AsMapped(m), page, n - 1).Ok?
    requires insert <= EntryFlags(EntryOf(AsMapped(m), Walk(AsMapped(m), page, n - 1).value,
                                          StepIndex(page, n - 1)))
    requires RecCreateWalk(m, r, page, insert, n - 1)
      == Returns(m, Ok(RefAddr(m, Walk(AsMapped(m), page, n - 1).value)))
    ensures RecCreateWalk(m, r, page, insert, n) == Returns(m, Ok(RefAddr(m, Walk(AsMapped(m), page, n).value)))
  {
    var mm := AsMapped(m);
    var t := Walk(mm, page, n - 1).value;
    var i := StepIndex(page, n - 1);
    var e := EntryOf(mm, t, i);
    assert Ent(m, RefAddr(m, t), i) == e;
    assert Walk(mm, page, n) == NextTable(mm, t, i);
    TablePageReaches(m, r, page, n);
    CreateInPlace(m, RefAddr(m, t), i, TablePage(page, r, n), insert);
  }

  /** `create_next_table` on a present, non-huge entry that already holds the insert flags only
      reaches the next table. */
  lemma CreateInPlace(m: RecMachine, a: PhysAddr, i: PageTableIndex, next: Page, insert: PageTableFlags)
    requires EntryFrame(Ent(m, a, i)).Ok? && insert <= EntryFlags(Ent(m, a, i))
    ensures RecCreateNextTable(m, a, i, next, insert)
      == if HwFrame(m, next).None? then Faults else Returns(m, Ok(HwFrame(m, next).value))
  {
    UnusedParts(Ent(m, a, i));
    assert RecCreateNextTable(m, a, i, next, insert) == ReachCreated(m, a, i, next, false);
  }


  /** On a recursively mapped machine whose parent tables for the page are in place, `map_to`
      never faults, panics exactly when the engine's does, gives the engine's result, and on
      success writes the same entry the engine writes, leaving the machine as it was on an
      error. */
  lemma RecMapToAgrees(m: RecMachine, t: RecursivePageTable, page: Page, frame: PhysFrame,
                       flags: PageTableFlags, parentFlags: PageTableFlags)
    requires Recursive(m, t.recursiveIndex) && frame.size == page.size
    requires ParentsInPlace(m, page, parentFlags)
    ensures var res := RecMapTo(m, t, page, frame, flags, parentFlags);
      var eng := MapToWithTableFlags(AsMapped(m), page, frame, flags, parentFlags);
      && !res.Faults?
      && (res.Panics? <==> eng.Panic?)
      && (res.Returns? ==> eng.Done? && res.value == eng.value)
      && (res.Returns? && res.value.Err? ==> res.machine == m)
    ensures var res := RecMapTo(m, t, page, frame, flags, parentFlags);
      var leaf := Walk(AsMapped(m), page, Depth(page.size)).value;
      var e := EntryOf(AsMapped(m), leaf, LeafIndex(page));
      res.Returns? && res.value.Ok? ==>
        && (page.size == Size4KiB ==> HUGE_PAGE !in flags)
        && res.machine == Write(m, RefAddr(m, leaf), LeafIndex(page), LeafEntry(e, page, frame, flags))
  {
    var mm := AsMapped(m);
    var d := Depth(page.size);
    EngineCreateWalkInPlace(mm, page, parentFlags, d);
    RecCreateWalkInPlace(m, t.recursiveIndex, page, parentFlags, d);
    var leaf := Walk(mm, page, d).value;
    MapLeafAgrees(m, t, page, frame, flags, parentFlags, leaf);
  }

  /** `RecMapToAgrees` at the leaf, once both creating walks have reached it unchanged. */
  lemma MapLeafAgrees(m: RecMachine, t: RecursivePageTable, page: Page, frame: PhysFrame,
                      flags: PageTableFlags, parentFlags: PageTableFlags, leaf: TableRef)
    requires frame.size == page.size
    requires RecCreateWalk(m, t.recursiveIndex, page, parentFlags, Depth(page.size))
      == Returns(m, Ok(RefAddr(m, leaf)))
    requires var w := CreateWalk(AsMapped(m), page, parentFlags, Depth(page.size));
      w.Done? && w.machine == AsMapped(m) && w.value.Ok? && w.value.value[Depth(page.size)] == leaf
    ensures var res := RecMapTo(m, t, page, frame, flags, parentFlags);
      var eng := MapToWithTableFlags(AsMapped(m), page, frame, flags, parentFlags);
      && !res.Faults?
      && (res.Panics? <==> eng.Panic?)
      && (res.Returns? ==> eng.Done? && res.value == eng.value)
      && (res.Returns? && res.value.Err? ==> res.machine == m)
    ensures var res := RecMapTo(m, t, page, frame, flags, parentFlags);
      var e := EntryOf(AsMapped(m), leaf, LeafIndex(page));
      res.Returns? && res.value.Ok? ==>
        && (page.size == Size4KiB ==> HUGE_PAGE !in flags)
        && res.machine == Write(m, RefAddr(m, leaf), LeafIndex(page), LeafEntry(e, page, frame, flags))
  {
    var mm := AsMapped(m);
    var a, i := RefAddr(m, leaf), LeafIndex(page);
    var e := Ent(m, a, i);
    assert e == EntryOf(mm, leaf, i);
    var eng := MapToWithTableFlags(mm, page, frame, flags, parentFlags);
    if !IsUnused(e) {
      assert RecMapTo(m, t, page, frame, flags, parentFlags) == Returns(m, Err(PageAlreadyMapped(frame)));
      assert eng == Done(mm, Err(PageAlreadyMapped(frame)));
    } else if page.size == Size4KiB && HUGE_PAGE in flags {
      assert RecMapTo(m, t, page, frame, flags, parentFlags) == Panics;
      assert eng == Panic;
    } else {
      assert RecMapTo(m, t, page, frame, flags, parentFlags)
        == Returns(Write(m, a, i, LeafEntry(e, page, frame, flags)), Ok(MapperFlush(page)));
      assert eng.Done? && eng.value == Ok(MapperFlush(page));
    }
  }

  /** A recursive creating walk of `n` steps asks the allocator at most `n` times. */
  lemma {:induction false} RecCreateWalkConsumes(m: RecMachine, r: PageTableIndex, page: Page,
                                                 insert: PageTableFlags, n: nat)
    requires n <= Depth(page.size) && RecCreateWalk(m, r, page, insert, n).Returns?
    ensures exists k: nat ::
      k <= n && Consumed(m.allocator, RecCreateWalk(m, r, page, insert, n).machine.allocator, k)
  {
    if n == 0 {
      ConsumedAdds(m.allocator, m.allocator, m.allocator, 0, 0);
      assert Consumed(m.allocator, RecCreateWalk(m, r, page, insert, n).machine.allocator, 0);
    } else {
      var before := RecCreateWalk(m, r, page, insert, n - 1);
      RecCreateWalkConsumes(m, r, page, insert, n - 1);
      var k1: nat :| k1 <= n - 1 && Consumed(m.allocator, before.machine.allocator, k1);
      if before.value.Ok? {
        var a, i := before.value.value, StepIndex(page, n - 1);
        var next := TablePage(page, r, n);
        var step := RecCreateNextTable(before.machine, a, i, next, insert);
        assert RecCreateWalk(m, r, page, insert, n) == step;
        RecCreateNextTableAllocates(before.machine, a, i, next, insert);
        var k2 := if IsUnused(Ent(before.machine, a, i)) then 1 else 0;
        ConsumedAdds(m.allocator, before.machine.allocator, step.machine.allocator, k1, k2);
        assert Consumed(m.allocator, RecCreateWalk(m, r, page, insert, n).machine.allocator, k1 + k2);
      } else {
        assert RecCreateWalk(m, r, page, insert, n).machine == before.machine;
      }
    }
  }

  /** The recursive `map_to` asks the allocator at most once per parent table: at most three
      frames for a 4 KiB page, two for 2 MiB and one for 1 GiB. */
  lemma RecMapToConsumesAtMostDepth(m: RecMachine, t: RecursivePageTable, page: Page,
                                    frame: PhysFrame, flags: PageTableFlags, parentFlags: PageTableFlags)
    requires frame.size == page.size && RecMapTo(m, t, page, frame, flags, parentFlags).Returns?
    ensures exists k: nat :: k <= Depth(page.size) && Consumed(m.allocator,
      RecMapTo(m, t, page, frame, flags, parentFlags).machine.allocator, k)
  {
    var walk := RecCreateWalk(m, t.recursiveIndex, page, parentFlags, Depth(page.size));
    RecCreateWalkConsumes(m, t.recursiveIndex, page, parentFlags, Depth(page.size));
    assert RecMapTo(m, t, page, frame, flags, parentFlags).machine.allocator == walk.machine.allocator;
  }

  /** Without HUGE_PAGE in the parent flags a recursive creating walk never panics: unlike the
      engine's, it adds PRESENT itself. */
  lemma {:induction false} RecCreateWalkNeverPanics(m: RecMachine, r: PageTableIndex, page: Page,
                                                    insert: PageTableFlags, n: nat)
    requires n <= Depth(page.size) && HUGE_PAGE !in insert
    ensures !RecCreateWalk(m, r, page, insert, n).Panics?
  {
    if n > 0 {
      RecCreateWalkNeverPanics(m, r, page, insert, n - 1);
      var before := RecCreateWalk(m, r, page, insert, n - 1);
      if before.Returns? && before.value.Ok? {
        RecCreateNextTablePanics(before.machine, before.value.value, StepIndex(page, n - 1),
                                 TablePage(page, r, n), insert);
      }
    }
  }

  /** The recursive `map_to` panics only through its flags: with no HUGE_PAGE in the parent flags
      and none in the flags of a 4 KiB leaf, it never panics. */
  lemma RecMapToPanicsOnlyOnHuge(m: RecMachine, t: RecursivePageTable, page: Page, frame: PhysFrame,
                                 flags: PageTableFlags, parentFlags: PageTableFlags)
    requires frame.size == page.size && HUGE_PAGE !in parentFlags
    requires page.size == Size4KiB ==> HUGE_PAGE !in flags
    ensures !RecMapTo(m, t, page, frame, flags, parentFlags).Panics?
  {
    RecCreateWalkNeverPanics(m, t.recursiveIndex, page, parentFlags, Depth(page.size));
  }

  /** `translate_page` as written reads a huge page's data as a page table: when the level-3
      entry for a 4 KiB page maps a 1 GiB page, `p2_page` leads into that page's first 4 KiB,
      and a zero word there makes it answer `PageNotMapped`, although the processor maps the
      page and the engine answers `ParentEntryHugePage`. */
  lemma RecTranslatePageMissesHugeParent(m: RecMachine, t: RecursivePageTable, page: Page)
    requires Recursive(m, t.recursiveIndex) && page.size == Size4KiB
    requires EntryFrame(Ent(m, m.root, PageTableIndexOf(page, Four))).Ok?
    requires var e3 := Ent(m, EntryAddr(Ent(m, m.root, PageTableIndexOf(page, Four))),
                           PageTableIndexOf(page, Three));
      && PRESENT in EntryFlags(e3) && HUGE_PAGE in EntryFlags(e3)
      && IsUnused(Ent(m, EntryAddr(e3), PageTableIndexOf(page, Two)))
    ensures HwFrame(m, page).Some?
    ensures TranslatePage(AsMapped(m), page) == Err(TranslateError.ParentEntryHugePage)
    ensures RecTranslatePage(m, t, page) == Returns(m, Err(TranslateError.PageNotMapped))
  {
    var r := t.recursiveIndex;
    var mm := AsMapped(m);
    var e4 := Ent(m, m.root, PageTableIndexOf(page, Four));
    var e3 := Ent(m, EntryAddr(e4), PageTableIndexOf(page, Three));
    UnusedParts(e4);
    UnusedParts(e3);
    P3PageReaches(m, r, page);
    P2PageReaches(m, r, page);
    assert RecWalk(m, r, page, 1, ByUse) == Some(Ok(EntryAddr(e4)));
    assert RecWalk(m, r, page, 2, ByUse) == Some(Ok(EntryAddr(e3)));
    assert RecWalk(m, r, page, 3, ByUse) == Some(Err(PageTableWalkError.NotMapped));
    assert Walk(mm, page, 1) == Ok(InFrame(EntryAddr(e4)));
    assert Walk(mm, page, 2) == Err(PageTableWalkError.MappedToHugePage);
  }

  /** `translate_page` with every parent decoded by `frame()`, as `unmap` and the engine do: a
      parent that is not present gives `PageNotMapped` and one that maps a huge page
      `ParentEntryHugePage`. The leaf is read as before. */
  function RecTranslatePageChecked(m: RecMachine, t: RecursivePageTable, page: Page)
    : (res: Run<Result<PhysFrame, TranslateError>>)
    ensures res.Returns? ==> res.machine == m
    ensures res.Returns? && res.value.Ok? ==> res.value.value.size == page.size
  {
    match RecWalk(m, t.recursiveIndex, page, Depth(page.size), ByFrame)
    case None => Faults
    case Some(Err(e)) => Returns(m, Err(TranslateErrorOfWalk(e)))
    case Some(Ok(a)) => LeafTranslation(m, page, Ent(m, a, LeafIndex(page)))
  }

  /** With its parents checked, `translate_page` gives the engine's answer on every recursively
      mapped machine and for every page, huge parents included. */
  lemma RecTranslatePageCheckedAgrees(m: RecMachine, t: RecursivePageTable, page: Page)
    requires Recursive(m, t.recursiveIndex)
    ensures RecTranslatePageChecked(m, t, page) == Returns(m, TranslatePage(AsMapped(m), page))
  {
    RecWalkByFrameAgrees(m, t.recursiveIndex, page, Depth(page.size));
    match Walk(AsMapped(m), page, Depth(page.size))
    case Err(_) =>
    case Ok(leaf) =>
      var a := RefAddr(m, leaf);
      var e := Ent(m, a, LeafIndex(page));
      assert e == EntryOf(AsMapped(m), leaf, LeafIndex(page));
      assert RecTranslatePageChecked(m, t, page) == LeafTranslation(m, page, e);
      assert TranslatePage(AsMapped(m), page) == LeafTranslation(m, page, e).value;
  }

  /** The end of `translate_page`, from the page's own entry. */
  function LeafTranslation(m: RecMachine, page: Page, e: PageTableEntry)
    : (res: Run<Result<PhysFrame, TranslateError>>)
    ensures res.Returns? && res.machine == m
    ensures res.value.Ok? ==>
      res.value.value.size == page.size && res.value.value.start == EntryAddr(e) && !IsUnused(e)
  {
    if IsUnused(e) then Returns(m, Err(TranslateError.PageNotMapped))
    else
      match FrameFromStartAddress(page.size, EntryAddr(e))
      case Err(_) => Returns(m, Err(TranslateError.InvalidFrameAddress(EntryAddr(e))))
      case Ok(frame) => Returns(m, Ok(frame))
  }

  /** Machines that show it: the level-4 table in frame `root` maps itself at index `r` and
      maps the level-3 table in frame `level3` at the page's level-4 index; that table's entry at
      the page's level-3 index maps a 1 GiB page at physical `huge`, whose memory reads as
      zero. With `root` 0x1000, `level3` 0x2000, `huge` 0x4000_0000, `r` 511 and the page at
      virtual 0x4000_0000 this is one concrete machine. */
  lemma RecTranslatePageHugeParentExample(root: PhysAddr, level3: PhysAddr, huge: PhysAddr,
                                          r: PageTableIndex, page: Page)
    requires root % 0x1000 == 0 && level3 % 0x1000 == 0 && huge % 0x1000 == 0
    requires root != level3 && huge != root && huge != level3
    requires page.size == Size4KiB && r != PageTableIndexOf(page, Four)
    ensures var m := HugeParentMachine(root, level3, huge, r, page);
      && Recursive(m, r)
      && HwFrame(m, page).Some?
      && TranslatePage(AsMapped(m), page) == Err(TranslateError.ParentEntryHugePage)
      && RecTranslatePage(m, RecursivePageTable(r), page) == Returns(m, Err(TranslateError.PageNotMapped))
  {
    var m := HugeParentMachine(root, level3, huge, r, page);
    assert Ent(m, root, r) == TableEntry(root);
    assert Ent(m, root, PageTableIndexOf(page, Four)) == TableEntry(level3);
    assert Ent(m, level3, PageTableIndexOf(page, Three)) == HugeEntry(huge);
    assert Tbl(m, huge) == EmptyTable();
    RecTranslatePageMissesHugeParent(m, RecursivePageTable(r), page);
  }

  /** A parent entry of the example: present and writable, naming the table in frame `a`. */
  function TableEntry(a: PhysAddr): (e: PageTableEntry)
    requires a % 0x1000 == 0
    ensures EntryFrame(e).Ok? && EntryFrame(e).value.start == a
  {
    SetAddr(NewEntry(), a, {PRESENT, WRITABLE})
  }

  /** The example's level-3 entry: present and huge, at physical `a`. */
  function HugeEntry(a: PhysAddr): (e: PageTableEntry)
    requires a % 0x1000 == 0
    ensures PRESENT in EntryFlags(e) && HUGE_PAGE in EntryFlags(e) && EntryAddr(e) == a
  {
    SetAddr(NewEntry(), a, {PRESENT, HUGE_PAGE})
  }

  /** The level-4 table of the example: entry `r` names `root` and entry `i` names `level3`. */
  function ExampleLevel4(root: PhysAddr, level3: PhysAddr, r: PageTableIndex, i: PageTableIndex)
    : (t: PageTable)
    requires root % 0x1000 == 0 && level3 % 0x1000 == 0
    ensures r != i ==> t[r] == TableEntry(root) && t[i] == TableEntry(level3)
  {
    EmptyTable()[r := TableEntry(root)][i := TableEntry(level3)]
  }

  /** The level-3 table of the example: entry `i` maps the huge page at `huge`. */
  function ExampleLevel3(huge: PhysAddr, i: PageTableIndex): (t: PageTable)
    requires huge % 0x1000 == 0
    ensures t[i] == HugeEntry(huge)
  {
    EmptyTable()[i := HugeEntry(huge)]
  }

  /** The machine of `RecTranslatePageHugeParentExample`. */
  function HugeParentMachine(root: PhysAddr, level3: PhysAddr, huge: PhysAddr, r: PageTableIndex,
                             page: Page): (m: RecMachine)
    requires root % 0x1000 == 0 && level3 % 0x1000 == 0 && huge % 0x1000 == 0 && root != level3
    ensures m.root == root
    ensures Tbl(m, root) == ExampleLevel4(root, level3, r, PageTableIndexOf(page, Four))
    ensures Tbl(m, level3) == ExampleLevel3(huge, PageTableIndexOf(page, Three))
    ensures huge != root && huge != level3 ==> Tbl(m, huge) == EmptyTable()
  {
    var level4 := ExampleLevel4(root, level3, r, PageTableIndexOf(page, Four));
    var table3 := ExampleLevel3(huge, PageTableIndexOf(page, Three));
    RecMachine(map[root := level4, level3 := table3], root, FrameAllocator([]))
  }
}
