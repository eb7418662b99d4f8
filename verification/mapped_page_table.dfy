/** The mapper over page tables that live in physical memory (`mapper/mapped_page_table.rs`).

    Physical memory is a map from the start address of a 4 KiB frame to the page table stored
    there; a frame the map does not hold reads as a zeroed table. The frame-to-table mapping of
    `PageTableFrameMapping` is the lookup in that map. The level-4 table is held apart, as the
    crate holds it by reference. The allocator the caller lends to the mapping operations
    travels with the tables, so every operation returns the new tables together with what
    remains of the allocator.

    Walks go top-down: step `n` reads the entry the page selects in the table of level `4 - n`.
    A `panic!` or a failed `assert!` on the way becomes the outcome `Panic`. */
module MappedTables {
  import opened Wrappers
  import opened Words
  import opened Addr
  import opened TableIndex
  import opened Pages
  import opened Frames
  import opened Tables
  import opened FrameAlloc
  import opened Mapper

  /** Page tables in physical memory, by the start address of the frame that holds each. */
  type Memory = map<PhysAddr, PageTable>

  /** Where a table lives: the level-4 table the mapper was built on, or a frame. */
  datatype TableRef = Root | InFrame(start: PhysAddr)

  /** A `MappedPageTable` with the frame allocator lent to it. */
  datatype Machine = Machine(level4: PageTable, memory: Memory, allocator: FrameAllocator)

  /** What an operation that may panic returns: the new machine and the operation's value. */
  datatype Outcome<T> = Done(machine: Machine, value: T) | Panic

  /** The table a reference names; a frame outside the map reads as a zeroed table. */
  function TableOf(m: Machine, t: TableRef): PageTable
  {
    match t
    case Root => m.level4
    case InFrame(a) => if a in m.memory then m.memory[a] else EmptyTable()
  }

  /** Entry `i` of table `t`. */
  function EntryOf(m: Machine, t: TableRef, i: PageTableIndex): PageTableEntry
  {
    TableOf(m, t)[i]
  }

  /** Writes entry `i` of table `t`: that entry reads back as written and every other entry of
      every table, and the allocator, stay as they were. */
  function SetEntry(m: Machine, t: TableRef, i: PageTableIndex, e: PageTableEntry): (r: Machine)
    ensures EntryOf(r, t, i) == e
    ensures forall u: TableRef, j: PageTableIndex :: (u != t || j != i) ==>
      EntryOf(r, u, j) == EntryOf(m, u, j)
    ensures r.allocator == m.allocator
  {
    var table := TableOf(m, t)[i := e];
    match t
    case Root => m.(level4 := table)
    case InFrame(a) => m.(memory := m.memory[a := table])
  }

  /** `PageTable::zero` on the table in the frame at `a`: all its entries become unused and every
      other table, and the allocator, stay as they were. */
  function ZeroFrame(m: Machine, a: PhysAddr): (r: Machine)
    ensures forall j: PageTableIndex :: IsUnused(EntryOf(r, InFrame(a), j))
    ensures forall u: TableRef, j: PageTableIndex :: u != InFrame(a) ==>
      EntryOf(r, u, j) == EntryOf(m, u, j)
    ensures r.allocator == m.allocator
  {
    m.(memory := m.memory[a := ZeroTable(TableOf(m, InFrame(a)))])
  }

  /** `PageTableWalkError`. */
  datatype PageTableWalkError = NotMapped | MappedToHugePage

  /** `PageTableCreateError`. */
  datatype PageTableCreateError = MappedToHugePage | FrameAllocationFailed

  /** `From<FrameError> for PageTableWalkError`. */
  function WalkErrorOf(e: FrameError): PageTableWalkError
  {
    match e
    case FrameNotPresent => PageTableWalkError.NotMapped
    case HugeFrame => PageTableWalkError.MappedToHugePage
  }

  /** `From<PageTableCreateError> for MapToError<S>`, the same for all three sizes. */
  function MapToErrorOf(e: PageTableCreateError): MapToError
  {
    match e
    case MappedToHugePage => MapToError.ParentEntryHugePage
    case FrameAllocationFailed => MapToError.FrameAllocationFailed
  }

  /** `From<PageTableWalkError> for UnmapError`. */
  function UnmapErrorOfWalk(e: PageTableWalkError): UnmapError
  {
    match e
    case MappedToHugePage => UnmapError.ParentEntryHugePage
    case NotMapped => UnmapError.PageNotMapped
  }

  /** `From<PageTableWalkError> for FlagUpdateError`. */
  function FlagUpdateErrorOfWalk(e: PageTableWalkError): FlagUpdateError
  {
    match e
    case MappedToHugePage => FlagUpdateError.ParentEntryHugePage
    case NotMapped => FlagUpdateError.PageNotMapped
  }

  /** `From<PageTableWalkError> for TranslateError`. */
  function TranslateErrorOfWalk(e: PageTableWalkError): TranslateError
  {
    match e
    case MappedToHugePage => TranslateError.ParentEntryHugePage
    case NotMapped => TranslateError.PageNotMapped
  }

  /** Going through the walker's error gives the same unmap and flag-update errors as the
      direct conversions from `FrameError` in the mapper interface, and every conversion keeps
      "not mapped" and "huge page" apart. */
  lemma WalkConversionsAgree(e: FrameError, w: PageTableWalkError, c: PageTableCreateError)
    ensures UnmapErrorOfWalk(WalkErrorOf(e)) == UnmapErrorOf(e)
    ensures FlagUpdateErrorOfWalk(WalkErrorOf(e)) == FlagUpdateErrorOf(e)
    ensures TranslateErrorOfWalk(w) == TranslateError.PageNotMapped <==> w == PageTableWalkError.NotMapped
    ensures MapToErrorOf(c) == MapToError.FrameAllocationFailed <==> c == PageTableCreateError.FrameAllocationFailed
  {
  }

  /** `PageTableWalker::next_table` (and `next_table_mut`): the table in the frame entry `i` of
      `t` points to. The walk stops with `NotMapped` exactly when the entry is not present and
      with `MappedToHugePage` exactly when it is present and maps a huge page. */
  function NextTable(m: Machine, t: TableRef, i: PageTableIndex)
    : (r: Result<TableRef, PageTableWalkError>)
    ensures r == Err(PageTableWalkError.NotMapped) <==> PRESENT !in EntryFlags(EntryOf(m, t, i))
    ensures r == Err(PageTableWalkError.MappedToHugePage) <==>
      PRESENT in EntryFlags(EntryOf(m, t, i)) && HUGE_PAGE in EntryFlags(EntryOf(m, t, i))
    ensures r.Ok? ==> r.value == InFrame(EntryAddr(EntryOf(m, t, i)))
  {
    match EntryFrame(EntryOf(m, t, i))
    case Ok(frame) => Ok(InFrame(frame.start))
    case Err(e) => Err(WalkErrorOf(e))
  }

  /** `PageTableWalker::create_next_table`. An unused entry gets a newly allocated frame with the
      insert flags (`set_frame`, which panics on HUGE_PAGE); an allocator without a frame gives
      `FrameAllocationFailed`. A used entry gets the insert flags or-ed in when they are not all
      there yet. Then the entry is walked: a huge page gives `MappedToHugePage`, an entry without
      PRESENT panics, and a newly created table is zeroed. */
  function CreateNextTable(m: Machine, t: TableRef, i: PageTableIndex, insert: PageTableFlags)
    : (r: Outcome<Result<TableRef, PageTableCreateError>>)
  {
    var e := EntryOf(m, t, i);
    if IsUnused(e) then
      var answer := AllocateFrame(m.allocator);
      var m1 := m.(allocator := answer.1);
      match answer.0
      case None => Done(m1, Err(PageTableCreateError.FrameAllocationFailed))
      case Some(frame) =>
        if HUGE_PAGE in insert then Panic
        else WalkCreated(SetEntry(m1, t, i, SetFrame(e, frame, insert)), t, i, true)
    else if insert != {} && !(insert <= EntryFlags(e)) then
      WalkCreated(SetEntry(m, t, i, SetFlags(e, EntryFlags(e) + insert)), t, i, false)
    else
      WalkCreated(m, t, i, false)
  }

  /** The end of `create_next_table`: walk the entry just installed or updated, and zero the
      table it points to when it was newly created. */
  function WalkCreated(m: Machine, t: TableRef, i: PageTableIndex, created: bool)
    : (r: Outcome<Result<TableRef, PageTableCreateError>>)
  {
    match NextTable(m, t, i)
    case Err(NotMapped) => Panic
    case Err(MappedToHugePage) => Done(m, Err(PageTableCreateError.MappedToHugePage))
    case Ok(next) => Done(if created then ZeroFrame(m, next.start) else m, Ok(next))
  }

  /** `create_next_table` on an unused entry when the allocator has no frame:
      `FrameAllocationFailed`, with every table as it was and the allocator's answer used up. */
  lemma CreateNextTableAllocationFails(m: Machine, t: TableRef, i: PageTableIndex,
                                       insert: PageTableFlags)
    requires IsUnused(EntryOf(m, t, i)) && AllocateFrame(m.allocator).0.None?
    ensures CreateNextTable(m, t, i, insert)
      == Done(m.(allocator := AllocateFrame(m.allocator).1),
              Err(PageTableCreateError.FrameAllocationFailed))
    ensures EntryOf(CreateNextTable(m, t, i, insert).machine, t, i) == EntryOf(m, t, i)
  {
  }

  /** `create_next_table` on an unused entry when the allocator answers with a frame, and the
      insert flags hold PRESENT but not HUGE_PAGE: the entry now maps that frame with exactly the
      insert flags, the new table is zeroed, the walk continues into it, one answer of the
      allocator is used up, and no other entry changes. */
  lemma CreateNextTableInstalls(m: Machine, t: TableRef, i: PageTableIndex,
                                insert: PageTableFlags, frame: Frame4KiB)
    requires IsUnused(EntryOf(m, t, i)) && AllocateFrame(m.allocator).0 == Some(frame)
    requires FlagsOnly(insert) && PRESENT in insert && HUGE_PAGE !in insert
    requires t != InFrame(frame.start)
    ensures CreateNextTable(m, t, i, insert).Done?
    ensures CreateNextTable(m, t, i, insert).value == Ok(InFrame(frame.start))
    ensures CreateNextTable(m, t, i, insert).machine.allocator == AllocateFrame(m.allocator).1
    ensures EntryAddr(EntryOf(CreateNextTable(m, t, i, insert).machine, t, i)) == frame.start
    ensures EntryFlags(EntryOf(CreateNextTable(m, t, i, insert).machine, t, i)) == insert
    ensures forall j: PageTableIndex ::
      IsUnused(EntryOf(CreateNextTable(m, t, i, insert).machine, InFrame(frame.start), j))
    ensures forall u: TableRef, j: PageTableIndex ::
      (u != InFrame(frame.start) && (u != t || j != i)) ==>
        EntryOf(CreateNextTable(m, t, i, insert).machine, u, j) == EntryOf(m, u, j)
  {
    var m1 := m.(allocator := AllocateFrame(m.allocator).1);
    var e := SetFrame(EntryOf(m, t, i), frame, insert);
    var m2 := SetEntry(m1, t, i, e);
    assert forall u: TableRef, j: PageTableIndex :: EntryOf(m1, u, j) == EntryOf(m, u, j);
    assert NextTable(m2, t, i) == Ok(InFrame(frame.start));
    assert CreateNextTable(m, t, i, insert) == WalkCreated(m2, t, i, true);
  }

  /** `create_next_table` on a used entry: the allocator is not asked, the entry keeps its address
      and ends up with its old flags together with the insert flags (written only when some were
      missing), and no other entry changes. It panics exactly when PRESENT is still missing; it
      reports `MappedToHugePage` exactly when the entry maps a huge page, whose flags stay
      modified; otherwise the walk continues into the frame the entry names. */
  lemma CreateNextTableExisting(m: Machine, t: TableRef, i: PageTableIndex, insert: PageTableFlags)
    requires !IsUnused(EntryOf(m, t, i)) && FlagsOnly(insert)
    ensures CreateNextTable(m, t, i, insert).Panic? <==>
      PRESENT !in EntryFlags(EntryOf(m, t, i)) + insert
    ensures CreateNextTable(m, t, i, insert).Done? ==>
      var r := CreateNextTable(m, t, i, insert);
      && r.machine.allocator == m.allocator
      && EntryAddr(EntryOf(r.machine, t, i)) == EntryAddr(EntryOf(m, t, i))
      && EntryFlags(EntryOf(r.machine, t, i)) == EntryFlags(EntryOf(m, t, i)) + insert
      && (forall u: TableRef, j: PageTableIndex :: (u != t || j != i) ==>
            EntryOf(r.machine, u, j) == EntryOf(m, u, j))
      && (r.value == Err(PageTableCreateError.MappedToHugePage) <==>
            HUGE_PAGE in EntryFlags(EntryOf(m, t, i)) + insert)
      && (r.value.Ok? ==> r.value.value == InFrame(EntryAddr(EntryOf(m, t, i))))
  {
    var e := EntryOf(m, t, i);
    var flags := EntryFlags(e) + insert;
    if insert != {} && !(insert <= EntryFlags(e)) {
      var m1 := SetEntry(m, t, i, SetFlags(e, flags));
      assert CreateNextTable(m, t, i, insert) == WalkCreated(m1, t, i, false);
    } else {
      assert flags == EntryFlags(e);
      assert CreateNextTable(m, t, i, insert) == WalkCreated(m, t, i, false);
    }
  }

  /** `create_next_table` panics exactly when the entry it leaves behind is not present: a new
      frame is installed with HUGE_PAGE (the `set_frame` assertion) or without PRESENT, or a used
      entry stays without PRESENT after the insert flags are or-ed in. */
  lemma CreateNextTablePanics(m: Machine, t: TableRef, i: PageTableIndex, insert: PageTableFlags)
    ensures CreateNextTable(m, t, i, insert).Panic? <==>
      if IsUnused(EntryOf(m, t, i)) then
        AllocateFrame(m.allocator).0.Some? && (HUGE_PAGE in insert || PRESENT !in insert)
      else
        PRESENT !in EntryFlags(EntryOf(m, t, i)) + insert
  {
    var e := EntryOf(m, t, i);
    if IsUnused(e) {
      var answer := AllocateFrame(m.allocator);
      if answer.0.Some? && HUGE_PAGE !in insert {
        var m1 := m.(allocator := answer.1);
        var m2 := SetEntry(m1, t, i, SetFrame(e, answer.0.value, insert));
        assert EntryFlags(EntryOf(m2, t, i)) == insert - ADDRESS_BITS;
        assert CreateNextTable(m, t, i, insert) == WalkCreated(m2, t, i, true);
      }
    } else {
      var flags := EntryFlags(e) + insert;
      if insert != {} && !(insert <= EntryFlags(e)) {
        var m1 := SetEntry(m, t, i, SetFlags(e, flags));
        assert EntryFlags(EntryOf(m1, t, i)) == flags - ADDRESS_BITS;
        assert CreateNextTable(m, t, i, insert) == WalkCreated(m1, t, i, false);
      } else {
        assert flags == EntryFlags(e);
      }
    }
  }

  /** The level of the table step `n` of a walk reads: level four at the root, level one at the
      fourth step. */
  function LevelAt(n: nat): (level: PageTableLevel)
    requires n < 4
    ensures LevelNumber(level) == 4 - n
  {
    if n == 0 then Four else if n == 1 then Three else if n == 2 then Two else One
  }

  /** How many tables below the level-4 table the walk for a page of this size passes through;
      the page's own entry then lies in a table of the page's leaf level. */
  function Depth(s: PageSize): (d: nat)
    ensures 1 <= d <= 3 && LevelAt(d) == LeafLevel(s)
  {
    match s
    case Size4KiB => 3
    case Size2MiB => 2
    case Size1GiB => 1
  }

  /** The index step `n` of the page's walk uses: the page's index at that level. */
  function StepIndex(page: Page, n: nat): PageTableIndex
    requires n < 4
  {
    PageTableIndexOf(page, LevelAt(n))
  }

  /** `n` steps of `next_table` from the level-4 table along the page's indices; the first step
      that fails ends the walk with its error. */
  function Walk(m: Machine, page: Page, n: nat): (r: Result<TableRef, PageTableWalkError>)
    requires n <= 3
    ensures n == 0 ==> r == Ok(Root)
    ensures n > 0 && r.Ok? ==> r.value.InFrame?
  {
    if n == 0 then Ok(Root)
    else
      match Walk(m, page, n - 1)
      case Err(e) => Err(e)
      case Ok(t) => NextTable(m, t, StepIndex(page, n - 1))
  }

  /** A walk that gets somewhere got through every shorter walk. */
  lemma {:induction false} WalkPrefix(m: Machine, page: Page, k: nat, n: nat)
    requires k <= n <= 3 && Walk(m, page, n).Ok?
    ensures Walk(m, page, k).Ok?
  {
    if k < n {
      WalkPrefix(m, page, k, n - 1);
    }
  }

  /** Every entry a walk of `n` steps reads is the same in `m` and `m2`. */
  predicate SameWalkEntries(m: Machine, m2: Machine, page: Page, n: nat)
    requires n <= 3
  {
    forall k: nat :: k < n && Walk(m, page, k).Ok? ==>
      EntryOf(m2, Walk(m, page, k).value, StepIndex(page, k))
        == EntryOf(m, Walk(m, page, k).value, StepIndex(page, k))
  }

  /** A walk only depends on the entries it reads. */
  lemma {:induction false} WalkFrame(m: Machine, m2: Machine, page: Page, n: nat)
    requires n <= 3 && SameWalkEntries(m, m2, page, n)
    ensures Walk(m2, page, n) == Walk(m, page, n)
  {
    if n > 0 {
      assert SameWalkEntries(m, m2, page, n - 1);
      WalkFrame(m, m2, page, n - 1);
    }
  }

  /** The tables of a walk are pairwise distinct. */
  predicate Distinct(path: seq<TableRef>)
  {
    forall a, b :: 0 <= a < b < |path| ==> path[a] != path[b]
  }

  /** `n` steps of `create_next_table` from the level-4 table along the page's indices, each with
      the same insert flags, as the `map_to_*` functions do; the first error or panic ends the
      walk. The value is the tables passed through, the level-4 table first and the table the
      page's entry lies in last. */
  function CreateWalk(m: Machine, page: Page, insert: PageTableFlags, n: nat)
    : (r: Outcome<Result<seq<TableRef>, PageTableCreateError>>)
    requires n <= 3
    ensures r.Done? && r.value.Ok? ==> |r.value.value| == n + 1 && r.value.value[0] == Root
  {
    if n == 0 then Done(m, Ok([Root]))
    else
      match CreateWalk(m, page, insert, n - 1)
      case Panic => Panic
      case Done(m1, Err(e)) => Done(m1, Err(e))
      case Done(m1, Ok(path)) =>
        match CreateNextTable(m1, path[n - 1], StepIndex(page, n - 1), insert)
        case Panic => Panic
        case Done(m2, Err(e)) => Done(m2, Err(e))
        case Done(m2, Ok(next)) => Done(m2, Ok(path + [next]))
  }

  /** `create_next_table` changes only the entry it was given and, when it creates a table, that
      new table; when it succeeds the entry now leads to the table it returned. */
  lemma CreateNextTableFrame(m: Machine, t: TableRef, i: PageTableIndex, insert: PageTableFlags)
    requires CreateNextTable(m, t, i, insert).Done?
    ensures var r := CreateNextTable(m, t, i, insert);
      forall u: TableRef, j: PageTableIndex ::
        ((u != t || j != i) && (r.value.Ok? ==> u != r.value.value)) ==>
          EntryOf(r.machine, u, j) == EntryOf(m, u, j)
    ensures var r := CreateNextTable(m, t, i, insert);
      r.value.Ok? && r.value.value != t ==> NextTable(r.machine, t, i) == Ok(r.value.value)
  {
    var e := EntryOf(m, t, i);
    if IsUnused(e) {
      var answer := AllocateFrame(m.allocator);
      var m1 := m.(allocator := answer.1);
      assert forall u: TableRef, j: PageTableIndex :: EntryOf(m1, u, j) == EntryOf(m, u, j);
      if answer.0.Some? {
        var m2 := SetEntry(m1, t, i, SetFrame(e, answer.0.value, insert));
        assert CreateNextTable(m, t, i, insert) == WalkCreated(m2, t, i, true);
      }
    } else if insert != {} && !(insert <= EntryFlags(e)) {
      var m1 := SetEntry(m, t, i, SetFlags(e, EntryFlags(e) + insert));
      assert CreateNextTable(m, t, i, insert) == WalkCreated(m1, t, i, false);
    }
  }

  /** One more step of a successful `CreateWalk` is one more successful `create_next_table`
      from the table the shorter walk reached. */
  lemma CreateWalkUnfold(m: Machine, page: Page, insert: PageTableFlags, n: nat)
    requires 0 < n <= 3
    requires CreateWalk(m, page, insert, n).Done? && CreateWalk(m, page, insert, n).value.Ok?
    ensures var before := CreateWalk(m, page, insert, n - 1);
      && before.Done? && before.value.Ok?
      && var step := CreateNextTable(before.machine, before.value.value[n - 1],
                                     StepIndex(page, n - 1), insert);
      && step.Done? && step.value.Ok?
      && CreateWalk(m, page, insert, n)
        == Done(step.machine, Ok(before.value.value + [step.value.value]))
  {
  }

  /** A walk the level-4 table down to `path[n - 1]` survives a step that changes only the entry
      of `path[n - 1]` the next step reads and the table `path[n]`, when the path's tables are
      distinct. */
  lemma WalkSurvivesStep(mA: Machine, m1: Machine, page: Page, path: seq<TableRef>, n: nat, k: nat)
    requires 0 < n <= 3 && |path| == n + 1 && Distinct(path) && k <= n - 1
    requires forall k': nat :: k' <= n - 1 ==> Walk(mA, page, k') == Ok(path[k'])
    requires forall u: TableRef, j: PageTableIndex ::
      ((u != path[n - 1] || j != StepIndex(page, n - 1)) && u != path[n]) ==>
        EntryOf(m1, u, j) == EntryOf(mA, u, j)
    ensures Walk(m1, page, k) == Ok(path[k])
  {
    forall k': nat | k' < k && Walk(mA, page, k').Ok?
      ensures EntryOf(m1, Walk(mA, page, k').value, StepIndex(page, k'))
        == EntryOf(mA, Walk(mA, page, k').value, StepIndex(page, k'))
    {
      assert Walk(mA, page, k').value == path[k'];
      assert path[k'] != path[n - 1] && path[k'] != path[n];
    }
    WalkFrame(mA, m1, page, k);
  }

  /** `WalkSurvivesStep` for every level above the step at once. */
  lemma WalksSurviveStep(mA: Machine, m1: Machine, page: Page, path: seq<TableRef>, n: nat)
    requires 0 < n <= 3 && |path| == n + 1 && Distinct(path)
    requires forall k': nat :: k' <= n - 1 ==> Walk(mA, page, k') == Ok(path[k'])
    requires forall u: TableRef, j: PageTableIndex ::
      ((u != path[n - 1] || j != StepIndex(page, n - 1)) && u != path[n]) ==>
        EntryOf(m1, u, j) == EntryOf(mA, u, j)
    ensures forall k: nat :: k <= n - 1 ==> Walk(m1, page, k) == Ok(path[k])
  {
    forall k: nat | k <= n - 1
      ensures Walk(m1, page, k) == Ok(path[k])
    {
      WalkSurvivesStep(mA, m1, page, path, n, k);
    }
  }

  /** When `create_next_table` walks through pairwise distinct tables, the tables it created or
      passed through are where a plain walk of the resulting tables goes, step by step. */
  lemma {:induction false} CreateWalkReaches(m: Machine, page: Page, insert: PageTableFlags, n: nat)
    requires n <= 3
    requires CreateWalk(m, page, insert, n).Done? && CreateWalk(m, page, insert, n).value.Ok?
    requires Distinct(CreateWalk(m, page, insert, n).value.value)
    ensures forall k: nat :: k <= n ==>
      Walk(CreateWalk(m, page, insert, n).machine, page, k)
        == Ok(CreateWalk(m, page, insert, n).value.value[k])
  {
    if n > 0 {
      CreateWalkUnfold(m, page, insert, n);
      var before := CreateWalk(m, page, insert, n - 1);
      var mA, pathA := before.machine, before.value.value;
      var step := CreateNextTable(mA, pathA[n - 1], StepIndex(page, n - 1), insert);
      assert Distinct(pathA) by {
        var path := pathA + [step.value.value];
        assert forall k :: 0 <= k < |pathA| ==> pathA[k] == path[k];
      }
      CreateWalkReaches(m, page, insert, n - 1);
      CreateStepReaches(mA, pathA, page, insert, n);
    }
  }

  /** The step case of `CreateWalkReaches`: one more `create_next_table` from the end of a path
      a plain walk follows extends the path by the table it returns. */
  lemma CreateStepReaches(mA: Machine, pathA: seq<TableRef>, page: Page, insert: PageTableFlags,
                          n: nat)
    requires 0 < n <= 3 && |pathA| == n
    requires forall k: nat :: k <= n - 1 ==> Walk(mA, page, k) == Ok(pathA[k])
    requires var step := CreateNextTable(mA, pathA[n - 1], StepIndex(page, n - 1), insert);
      step.Done? && step.value.Ok? && Distinct(pathA + [step.value.value])
    ensures var step := CreateNextTable(mA, pathA[n - 1], StepIndex(page, n - 1), insert);
      forall k: nat :: k <= n ==> Walk(step.machine, page, k) == Ok((pathA + [step.value.value])[k])
  {
    var step := CreateNextTable(mA, pathA[n - 1], StepIndex(page, n - 1), insert);
    var m1, path := step.machine, pathA + [step.value.value];
    CreateNextTableFrame(mA, pathA[n - 1], StepIndex(page, n - 1), insert);
    assert forall k': nat :: k' <= n - 1 ==> Walk(mA, page, k') == Ok(path[k']);
    WalksSurviveStep(mA, m1, page, path, n);
    assert Walk(m1, page, n - 1) == Ok(path[n - 1]);
    assert path[n - 1] != path[n];
  }

  /** Every frame starts on a 4 KiB boundary, whatever its size. */
  lemma FrameStartAligned(f: PhysFrame)
    ensures f.start % 0x1000 == 0
  {
    var q := f.start / Size(f.size);
    assert f.start == Size(f.size) * q;
    DivModUnique(0x1000, Size(f.size) / 0x1000 * q, 0, f.start);
  }

  /** The index of the page's own entry, in the table of its leaf level. */
  function LeafIndex(page: Page): PageTableIndex
  {
    StepIndex(page, Depth(page.size))
  }

  /** The flags `map_to` writes into the page's entry: HUGE_PAGE is added for a huge page. */
  function LeafFlags(page: Page, flags: PageTableFlags): PageTableFlags
  {
    if page.size == Size4KiB then flags else flags + {HUGE_PAGE}
  }

  /** The entry `map_to` writes for the page: `set_frame` for a 4 KiB page, `set_addr` with
      HUGE_PAGE added for a huge page. */
  function LeafEntry(e: PageTableEntry, page: Page, frame: PhysFrame, flags: PageTableFlags)
    : PageTableEntry
    requires frame.size == page.size && (page.size == Size4KiB ==> HUGE_PAGE !in flags)
  {
    if page.size == Size4KiB then SetFrame(e, frame, flags)
    else
      FrameStartAligned(frame);
      SetAddr(e, frame.start, flags + {HUGE_PAGE})
  }

  /** The written entry holds the frame's address and the leaf flags, names the frame again,
      and is in use unless it is a 4 KiB entry of frame 0 with no flags. */
  lemma LeafEntryReads(e: PageTableEntry, page: Page, frame: PhysFrame, flags: PageTableFlags)
    requires frame.size == page.size && (page.size == Size4KiB ==> HUGE_PAGE !in flags)
    requires FlagsOnly(flags)
    ensures var leaf := LeafEntry(e, page, frame, flags);
      && EntryAddr(leaf) == frame.start && EntryFlags(leaf) == LeafFlags(page, flags)
      && FrameFromStartAddress(page.size, EntryAddr(leaf)) == Ok(frame)
      && (IsUnused(leaf) <==> page.size == Size4KiB && frame.start == 0 && flags == {})
  {
    var leaf := LeafEntry(e, page, frame, flags);
    assert FlagsOnly(LeafFlags(page, flags));
    UnusedParts(leaf);
    FrameRoundTrip(frame, 0);
  }

  /** `map_to_1gib`, `map_to_2mib` and `map_to_4kib` (`Mapper::map_to_with_table_flags`): create
      the parent tables with the parent flags, refuse a used leaf entry with
      `PageAlreadyMapped(frame)` (the caller's frame), then write the leaf: `set_frame` for a
      4 KiB page, which panics on HUGE_PAGE, and `set_addr` with HUGE_PAGE added for a huge
      page. A failure to create a parent table becomes the matching `MapToError`. */
  function MapToWithTableFlags(m: Machine, page: Page, frame: PhysFrame, flags: PageTableFlags,
                               parentFlags: PageTableFlags)
    : (r: Outcome<Result<MapperFlush, MapToError>>)
    requires frame.size == page.size
    ensures r.Done? && r.value.Ok? ==> r.value.value == MapperFlush(page)
    ensures r.Done? && r.value.Err? && r.value.error.PageAlreadyMapped? ==>
      r.value.error.frame == frame
  {
    match CreateWalk(m, page, parentFlags, Depth(page.size))
    case Panic => Panic
    case Done(m1, Err(e)) => Done(m1, Err(MapToErrorOf(e)))
    case Done(m1, Ok(path)) =>
      var t, i := path[Depth(page.size)], LeafIndex(page);
      var e := EntryOf(m1, t, i);
      if !IsUnused(e) then Done(m1, Err(PageAlreadyMapped(frame)))
      else if page.size == Size4KiB && HUGE_PAGE in flags then Panic
      else Done(SetEntry(m1, t, i, LeafEntry(e, page, frame, flags)), Ok(MapperFlush(page)))
  }

  /** `unmap` for the three sizes. A failed parent walk becomes `PageNotMapped` or
      `ParentEntryHugePage`. A 4 KiB leaf is decoded with `frame()`; a huge leaf must be present
      and huge and hold an address aligned to the page size. The leaf is then set unused and
      its frame returned; nothing is deallocated. */
  function Unmap(m: Machine, page: Page)
    : (r: (Machine, Result<(PhysFrame, MapperFlush), UnmapError>))
    ensures r.1.Err? ==> r.0 == m
    ensures r.1.Ok? ==> r.1.value.0.size == page.size && r.1.value.1 == MapperFlush(page)
  {
    match Walk(m, page, Depth(page.size))
    case Err(e) => (m, Err(UnmapErrorOfWalk(e)))
    case Ok(t) =>
      var e := EntryOf(m, t, LeafIndex(page));
      if page.size == Size4KiB then
        match EntryFrame(e)
        case Err(fe) => (m, Err(UnmapErrorOf(fe)))
        case Ok(frame) => (SetEntry(m, t, LeafIndex(page), SetUnused(e)), Ok((frame, MapperFlush(page))))
      else if PRESENT !in EntryFlags(e) then (m, Err(UnmapError.PageNotMapped))
      else if HUGE_PAGE !in EntryFlags(e) then (m, Err(UnmapError.ParentEntryHugePage))
      else
        match FrameFromStartAddress(page.size, EntryAddr(e))
        case Err(_) => (m, Err(UnmapError.InvalidFrameAddress(EntryAddr(e))))
        case Ok(frame) => (SetEntry(m, t, LeafIndex(page), SetUnused(e)), Ok((frame, MapperFlush(page))))
  }

  /** `update_flags` for the three sizes: after the parent walk, an unused leaf gives
      `PageNotMapped`; otherwise the leaf's flags are replaced, with HUGE_PAGE added for a huge
      page. */
  function UpdateFlags(m: Machine, page: Page, flags: PageTableFlags)
    : (r: (Machine, Result<MapperFlush, FlagUpdateError>))
    ensures r.1.Err? ==> r.0 == m
    ensures r.1.Ok? ==> r.1.value == MapperFlush(page)
  {
    match Walk(m, page, Depth(page.size))
    case Err(e) => (m, Err(FlagUpdateErrorOfWalk(e)))
    case Ok(t) =>
      var e := EntryOf(m, t, LeafIndex(page));
      if IsUnused(e) then (m, Err(FlagUpdateError.PageNotMapped))
      else
        var written := if page.size == Size4KiB then flags else flags + {HUGE_PAGE};
        (SetEntry(m, t, LeafIndex(page), SetFlags(e, written)), Ok(MapperFlush(page)))
  }

  /** How many steps below the level-4 table the table of a parent level lies. */
  function StepsTo(level: PageTableLevel): (n: nat)
    requires level != One
    ensures n < 3 && LevelAt(n) == level
  {
    4 - LevelNumber(level)
  }

  /** `set_flags_p4_entry`, `set_flags_p3_entry` and `set_flags_p2_entry` for the three sizes. A
      level at or below the page's leaf level has no parent entry for the page:
      `ParentEntryHugePage`. Otherwise the walk to that level's table runs, an unused entry gives
      `PageNotMapped`, and the entry's flags are replaced. */
  function SetFlagsParentEntry(m: Machine, page: Page, level: PageTableLevel, flags: PageTableFlags)
    : (r: (Machine, Result<MapperFlushAll, FlagUpdateError>))
    requires level != One
    ensures r.1.Err? ==> r.0 == m
    ensures StepsTo(level) >= Depth(page.size) ==> r.1 == Err(FlagUpdateError.ParentEntryHugePage)
  {
    var n := StepsTo(level);
    if n >= Depth(page.size) then (m, Err(FlagUpdateError.ParentEntryHugePage))
    else
      match Walk(m, page, n)
      case Err(e) => (m, Err(FlagUpdateErrorOfWalk(e)))
      case Ok(t) =>
        var e := EntryOf(m, t, StepIndex(page, n));
        if IsUnused(e) then (m, Err(FlagUpdateError.PageNotMapped))
        else (SetEntry(m, t, StepIndex(page, n), SetFlags(e, flags)), Ok(MapperFlushAll))
  }

  /** `translate_page` for the three sizes: after the parent walk, an unused leaf gives
      `PageNotMapped`, an address not aligned to the page size gives `InvalidFrameAddress`, and
      otherwise the frame of the page's size that starts at the leaf's address. */
  function TranslatePage(m: Machine, page: Page): (r: Result<PhysFrame, TranslateError>)
    ensures r.Ok? ==> r.value.size == page.size
  {
    match Walk(m, page, Depth(page.size))
    case Err(e) => Err(TranslateErrorOfWalk(e))
    case Ok(t) =>
      var e := EntryOf(m, t, LeafIndex(page));
      if IsUnused(e) then Err(TranslateError.PageNotMapped)
      else
        match FrameFromStartAddress(page.size, EntryAddr(e))
        case Err(_) => Err(TranslateError.InvalidFrameAddress(EntryAddr(e)))
        case Ok(frame) => Ok(frame)
  }

  /** The level-4 entry `translate` reads does not map a huge page (it panics on one). */
  predicate NoHugeLevel4Entry(m: Machine, addr: VirtAddr)
  {
    !(PRESENT in EntryFlags(EntryOf(m, Root, P4Index(addr)))
      && HUGE_PAGE in EntryFlags(EntryOf(m, Root, P4Index(addr))))
  }

  /** `Translate::translate`: walk with the address's indices. A missing parent gives
      `NotMapped`; a huge level-3 entry maps the 1 GiB frame containing its address at offset
      `addr & (2^30 - 1)`; a huge level-2 entry the 2 MiB frame at offset `addr & (2^21 - 1)`. A
      level-1 entry counts as mapped whenever it is not zero, even without PRESENT, and an
      address it holds that does not start a frame gives `InvalidFrameAddress`. The offset always
      lies inside the frame. */
  function Translate(m: Machine, addr: VirtAddr): (r: TranslateResult)
    requires NoHugeLevel4Entry(m, addr)
    ensures r.Mapped? ==> r.offset < MappedFrameSize(r.frame)
  {
    match NextTable(m, Root, P4Index(addr))
    case Err(NotMapped) => TranslateResult.NotMapped
    case Err(MappedToHugePage) => assert false; TranslateResult.NotMapped
    case Ok(p3) => TranslateFromLevel3(m, p3, addr)
  }

  /** `translate` from the level-3 table on. */
  function TranslateFromLevel3(m: Machine, p3: TableRef, addr: VirtAddr): (r: TranslateResult)
    ensures r.Mapped? ==> r.offset < MappedFrameSize(r.frame)
  {
    match NextTable(m, p3, P3Index(addr))
    case Err(NotMapped) => TranslateResult.NotMapped
    case Err(MappedToHugePage) =>
      var e := EntryOf(m, p3, P3Index(addr));
      Mapped(MappedFrame(FrameContainingAddress(Size1GiB, EntryAddr(e))), addr % 0x4000_0000,
             EntryFlags(e))
    case Ok(p2) => TranslateFromLevel2(m, p2, addr)
  }

  /** `translate` from the level-2 table on: it never finds a 1 GiB frame. */
  function TranslateFromLevel2(m: Machine, p2: TableRef, addr: VirtAddr): (r: TranslateResult)
    ensures r.Mapped? ==> r.offset < MappedFrameSize(r.frame) && r.frame.frame.size != Size1GiB
  {
    match NextTable(m, p2, P2Index(addr))
    case Err(NotMapped) => TranslateResult.NotMapped
    case Err(MappedToHugePage) =>
      var e := EntryOf(m, p2, P2Index(addr));
      Mapped(MappedFrame(FrameContainingAddress(Size2MiB, EntryAddr(e))), addr % 0x20_0000,
             EntryFlags(e))
    case Ok(p1) => TranslateFromLevel1(m, p1, addr)
  }

  /** `translate` at the level-1 table: it only ever finds a 4 KiB frame. */
  function TranslateFromLevel1(m: Machine, p1: TableRef, addr: VirtAddr): (r: TranslateResult)
    ensures r.Mapped? ==> r.offset < MappedFrameSize(r.frame) && r.frame.frame.size == Size4KiB
  {
    var e := EntryOf(m, p1, P1Index(addr));
    if IsUnused(e) then TranslateResult.NotMapped
    else
      match FrameFromStartAddress(Size4KiB, EntryAddr(e))
      case Err(_) => TranslateResult.InvalidFrameAddress(EntryAddr(e))
      case Ok(frame) => Mapped(MappedFrame(frame), PageOffsetOf(addr), EntryFlags(e))
  }

  /** `create_next_table` asks the allocator once for an unused entry and never for a used one. */
  lemma CreateNextTableConsumes(m: Machine, t: TableRef, i: PageTableIndex, insert: PageTableFlags)
    requires CreateNextTable(m, t, i, insert).Done?
    ensures Consumed(m.allocator, CreateNextTable(m, t, i, insert).machine.allocator,
                     if IsUnused(EntryOf(m, t, i)) then 1 else 0)
  {
    var e := EntryOf(m, t, i);
    if IsUnused(e) {
      AllocateConsumesOne(m.allocator);
      var answer := AllocateFrame(m.allocator);
      var m1 := m.(allocator := answer.1);
      if answer.0.Some? {
        var m2 := SetEntry(m1, t, i, SetFrame(e, answer.0.value, insert));
        assert CreateNextTable(m, t, i, insert) == WalkCreated(m2, t, i, true);
      }
    } else if insert != {} && !(insert <= EntryFlags(e)) {
      var m1 := SetEntry(m, t, i, SetFlags(e, EntryFlags(e) + insert));
      assert CreateNextTable(m, t, i, insert) == WalkCreated(m1, t, i, false);
    }
  }

  /** A walk of `n` steps of `create_next_table` asks the allocator at most `n` times. */
  lemma {:induction false} CreateWalkConsumes(m: Machine, page: Page, insert: PageTableFlags, n: nat)
    requires n <= 3 && CreateWalk(m, page, insert, n).Done?
    ensures exists k: nat :: k <= n && Consumed(m.allocator, CreateWalk(m, page, insert, n).machine.allocator, k)
  {
    if n == 0 {
      ConsumedAdds(m.allocator, m.allocator, m.allocator, 0, 0);
      assert Consumed(m.allocator, CreateWalk(m, page, insert, n).machine.allocator, 0);
    } else {
      var before := CreateWalk(m, page, insert, n - 1);
      CreateWalkConsumes(m, page, insert, n - 1);
      var k1: nat :| k1 <= n - 1 && Consumed(m.allocator, before.machine.allocator, k1);
      if before.value.Ok? {
        var t := before.value.value[n - 1];
        CreateNextTableConsumes(before.machine, t, StepIndex(page, n - 1), insert);
        var step := CreateNextTable(before.machine, t, StepIndex(page, n - 1), insert);
        var k2 := if IsUnused(EntryOf(before.machine, t, StepIndex(page, n - 1))) then 1 else 0;
        ConsumedAdds(m.allocator, before.machine.allocator, step.machine.allocator, k1, k2);
        assert CreateWalk(m, page, insert, n).machine == step.machine;
        assert Consumed(m.allocator, CreateWalk(m, page, insert, n).machine.allocator, k1 + k2);
      } else {
        assert CreateWalk(m, page, insert, n).machine == before.machine;
      }
    }
  }

  /** `map_to` for a page of any size asks the allocator at most once per parent table: at most
      three frames for a 4 KiB page, two for 2 MiB and one for 1 GiB. */
  lemma MapToConsumesAtMostDepth(m: Machine, page: Page, frame: PhysFrame, flags: PageTableFlags,
                                 parentFlags: PageTableFlags)
    requires frame.size == page.size
    requires MapToWithTableFlags(m, page, frame, flags, parentFlags).Done?
    ensures exists k: nat :: k <= Depth(page.size) && Consumed(m.allocator,
      MapToWithTableFlags(m, page, frame, flags, parentFlags).machine.allocator, k)
  {
    var walk := CreateWalk(m, page, parentFlags, Depth(page.size));
    CreateWalkConsumes(m, page, parentFlags, Depth(page.size));
    assert MapToWithTableFlags(m, page, frame, flags, parentFlags).machine.allocator
      == walk.machine.allocator;
  }

  /** Parent flags with PRESENT and without HUGE_PAGE never make `create_next_table` panic, so a
      walk with them never panics. */
  lemma {:induction false} CreateWalkNeverPanics(m: Machine, page: Page, insert: PageTableFlags, n: nat)
    requires n <= 3 && PRESENT in insert && HUGE_PAGE !in insert
    ensures CreateWalk(m, page, insert, n).Done?
  {
    if n > 0 {
      CreateWalkNeverPanics(m, page, insert, n - 1);
      var before := CreateWalk(m, page, insert, n - 1);
      if before.value.Ok? {
        CreateNextTablePanics(before.machine, before.value.value[n - 1], StepIndex(page, n - 1), insert);
      }
    }
  }

  /** `map_to` panics only through its flags: with PRESENT in the parent flags, no HUGE_PAGE in
      them, and no HUGE_PAGE in the flags of a 4 KiB leaf, it returns. */
  lemma MapToReturns(m: Machine, page: Page, frame: PhysFrame, flags: PageTableFlags,
                     parentFlags: PageTableFlags)
    requires frame.size == page.size
    requires PRESENT in parentFlags && HUGE_PAGE !in parentFlags
    requires page.size == Size4KiB ==> HUGE_PAGE !in flags
    ensures MapToWithTableFlags(m, page, frame, flags, parentFlags).Done?
  {
    CreateWalkNeverPanics(m, page, parentFlags, Depth(page.size));
  }

  /** The default `map_to` with PRESENT among its flags, and no HUGE_PAGE when the page is 4 KiB,
      never panics: the parent flags it derives hold PRESENT and never HUGE_PAGE. */
  lemma DefaultMapToReturns(m: Machine, page: Page, frame: PhysFrame, flags: PageTableFlags)
    requires frame.size == page.size && PRESENT in flags
    requires page.size == Size4KiB ==> HUGE_PAGE !in flags
    ensures MapToWithTableFlags(m, page, frame, flags, ParentTableFlags(flags)).Done?
  {
    MapToReturns(m, page, frame, flags, ParentTableFlags(flags));
  }

  /** Writing an entry of the last table of a walk through pairwise distinct tables leaves the
      walk to that table as it was. */
  lemma WalkSurvivesLeafWrite(m: Machine, page: Page, path: seq<TableRef>, i: PageTableIndex,
                              x: PageTableEntry)
    requires 1 <= |path| <= 4 && Distinct(path)
    requires forall k: nat :: k < |path| ==> Walk(m, page, k) == Ok(path[k])
    ensures Walk(SetEntry(m, path[|path| - 1], i, x), page, |path| - 1) == Ok(path[|path| - 1])
  {
    var d := |path| - 1;
    var m2 := SetEntry(m, path[d], i, x);
    forall k: nat | k < d && Walk(m, page, k).Ok?
      ensures EntryOf(m2, Walk(m, page, k).value, StepIndex(page, k))
        == EntryOf(m, Walk(m, page, k).value, StepIndex(page, k))
    {
      assert path[k] != path[d];
    }
    WalkFrame(m, m2, page, d);
  }

  /** The parent walk of `map_to` gets through, and the tables it passes are pairwise distinct,
      as they are in any well-formed hierarchy of page tables; `UniqueAnswersKeepParentsApart`
      derives it from the frame allocator's promise. */
  predicate ParentsDistinct(m: Machine, page: Page, parentFlags: PageTableFlags)
  {
    var w := CreateWalk(m, page, parentFlags, Depth(page.size));
    w.Done? && w.value.Ok? && Distinct(w.value.value)
  }

  /** A mapping `map_to` made is the one `translate_page` finds: the walk to the page's entry
      still gets through, the entry holds the written flags, and it names the mapped frame. A
      4 KiB page mapped to frame 0 with no flags leaves a zero entry, which reads as unmapped. */
  lemma MapThenTranslatePage(m: Machine, page: Page, frame: PhysFrame, flags: PageTableFlags,
                             parentFlags: PageTableFlags)
    requires frame.size == page.size && FlagsOnly(flags)
    requires ParentsDistinct(m, page, parentFlags)
    requires page.size == Size4KiB ==> frame.start != 0 || flags != {}
    requires MapToWithTableFlags(m, page, frame, flags, parentFlags).Done?
    requires MapToWithTableFlags(m, page, frame, flags, parentFlags).value.Ok?
    ensures var m2 := MapToWithTableFlags(m, page, frame, flags, parentFlags).machine;
      && TranslatePage(m2, page) == Ok(frame)
      && Walk(m2, page, Depth(page.size))
        == Ok(CreateWalk(m, page, parentFlags, Depth(page.size)).value.value[Depth(page.size)])
      && EntryFlags(EntryOf(m2, Walk(m2, page, Depth(page.size)).value, LeafIndex(page)))
        == LeafFlags(page, flags)
  {
    var d := Depth(page.size);
    var w := CreateWalk(m, page, parentFlags, d);
    var m1, path := w.machine, w.value.value;
    CreateWalkReaches(m, page, parentFlags, d);
    var e := EntryOf(m1, path[d], LeafIndex(page));
    LeafEntryReads(e, page, frame, flags);
    WalkSurvivesLeafWrite(m1, page, path, LeafIndex(page), LeafEntry(e, page, frame, flags));
  }

  /** Every used entry of every table names a frame whose start is in `used`. */
  ghost predicate NamesUsed(m: Machine, used: set<int>)
  {
    forall t: TableRef, i: PageTableIndex ::
      !IsUnused(EntryOf(m, t, i)) ==> EntryAddr(EntryOf(m, t, i)) in used
  }

  /** The frame starts among the tables of a path. */
  function PathStarts(path: seq<TableRef>): set<int>
  {
    set k | 0 <= k < |path| && path[k].InFrame? :: path[k].start
  }

  /** Appending a table to a path adds its frame start, if it has one. */
  lemma PathStartsAppend(path: seq<TableRef>, t: TableRef)
    ensures PathStarts(path + [t]) == PathStarts(path) + (if t.InFrame? then {t.start} else {})
    ensures forall k :: 0 <= k < |path| && path[k].InFrame? ==> path[k].start in PathStarts(path)
  {
    var p := path + [t];
    forall k | 0 <= k < |path| && path[k].InFrame?
      ensures path[k].start in PathStarts(path)
    {
    }
    forall a | a in PathStarts(p)
      ensures a in PathStarts(path) + (if t.InFrame? then {t.start} else {})
    {
      var k :| 0 <= k < |p| && p[k].InFrame? && p[k].start == a;
      if k < |path| {
        assert p[k] == path[k];
      }
    }
    forall a | a in PathStarts(path) + (if t.InFrame? then {t.start} else {})
      ensures a in PathStarts(p)
    {
      if a in PathStarts(path) {
        var k :| 0 <= k < |path| && path[k].InFrame? && path[k].start == a;
        assert p[k] == path[k];
      } else {
        assert p[|path|] == t;
      }
    }
  }

  /** `n` steps from the level-4 table along the page's indices through used entries, whatever
      their flags: the tables `create_next_table` passes through when it creates none. `None`
      once an entry is unused. */
  function Links(m: Machine, page: Page, n: nat): Option<TableRef>
    requires n <= 3
  {
    if n == 0 then Some(Root)
    else
      match Links(m, page, n - 1)
      case None => None
      case Some(t) =>
        var e := EntryOf(m, t, StepIndex(page, n - 1));
        if IsUnused(e) then None else Some(InFrame(EntryAddr(e)))
  }

  /** The tables the page's used entries lead through are pairwise distinct, as they are in a
      well-formed hierarchy, where each level's table is a different table. */
  predicate LinksApart(m: Machine, page: Page)
  {
    forall a, b :: 0 <= a < b <= 3 && Links(m, page, a).Some? && Links(m, page, b).Some? ==>
      Links(m, page, a).value != Links(m, page, b).value
  }

  /** A creating walk that has created nothing yet: it followed the used entries of `m`, and
      `m2` differs from `m` only in the entries it updated on the way. */
  ghost predicate OnLinks(m: Machine, m2: Machine, page: Page, path: seq<TableRef>)
  {
    && 1 <= |path| <= 4
    && (forall j :: 0 <= j < |path| ==> Links(m, page, j) == Some(path[j]))
    && (forall u: TableRef, i: PageTableIndex :: u !in path[..|path| - 1] ==>
          EntryOf(m2, u, i) == EntryOf(m, u, i))
  }

  /** A creating walk that ends in a table it just created, which is still zeroed. */
  ghost predicate FreshEnd(m2: Machine, path: seq<TableRef>)
  {
    1 <= |path| && ZeroedTable(m2, path[|path| - 1])
  }

  /** Every entry of table `t` is unused. */
  ghost predicate ZeroedTable(m: Machine, t: TableRef)
  {
    forall i: PageTableIndex :: IsUnused(EntryOf(m, t, i))
  }

  /** A step of `create_next_table` from an unused entry: the allocator's frame is new to the
      path, the uniqueness promise carries over with it counted as used, and the walk now ends
      in that zeroed table. */
  lemma CreateStepFresh(mA: Machine, page: Page, pA: seq<TableRef>, insert: PageTableFlags,
                        usedA: set<int>, n: nat)
    requires 0 < n <= 3 && |pA| == n && Distinct(pA) && FlagsOnly(insert)
    requires PathStarts(pA) <= usedA
    requires AnswersUnique(mA.allocator, usedA) && NamesUsed(mA, usedA)
    requires IsUnused(EntryOf(mA, pA[n - 1], StepIndex(page, n - 1)))
    requires var step := CreateNextTable(mA, pA[n - 1], StepIndex(page, n - 1), insert);
      step.Done? && step.value.Ok?
    ensures var step := CreateNextTable(mA, pA[n - 1], StepIndex(page, n - 1), insert);
      var path := pA + [step.value.value];
      && Distinct(path)
      && AnswersUnique(step.machine.allocator, usedA + PathStarts(path))
      && NamesUsed(step.machine, usedA + PathStarts(path))
      && FreshEnd(step.machine, path)
  {
    var t, i := pA[n - 1], StepIndex(page, n - 1);
    var answer := AllocateFrame(mA.allocator);
    AllocationKeepsUnique(mA.allocator, usedA);
    CreateNextTablePanics(mA, t, i, insert);
    if answer.0.None? {
      CreateNextTableAllocationFails(mA, t, i, insert);
      assert false;
    }
    var frame := answer.0.value;
    PathStartsAppend(pA, InFrame(frame.start));
    CreateNextTableInstalls(mA, t, i, insert, frame);
    var step := CreateNextTable(mA, t, i, insert);
    var next := InFrame(frame.start);
    assert usedA + PathStarts(pA + [next]) == usedA + {frame.start};
    FreshPathApart(pA, frame.start, usedA);
    FreshStepEntries(mA, step.machine, t, i, frame.start, usedA);
  }

  /** A table in a frame outside `used` extends a path of distinct tables whose frames are
      all in `used` to a longer one. */
  lemma FreshPathApart(pA: seq<TableRef>, a: PhysAddr, usedA: set<int>)
    requires Distinct(pA) && PathStarts(pA) <= usedA && a !in usedA
    ensures Distinct(pA + [InFrame(a)])
  {
    var path := pA + [InFrame(a)];
    PathStartsAppend(pA, InFrame(a));
    forall x, y | 0 <= x < y < |path|
      ensures path[x] != path[y]
    {
      assert path[x] == pA[x];
      if y < |pA| {
        assert path[y] == pA[y];
      }
    }
  }

  /** The entries after a step that installs the new frame `a` in entry `i` of `t` and zeroes
      it: they still name used frames, with `a` now counted as used. */
  lemma FreshStepEntries(mA: Machine, m1: Machine, t: TableRef, i: PageTableIndex, a: PhysAddr,
                         usedA: set<int>)
    requires NamesUsed(mA, usedA)
    requires EntryAddr(EntryOf(m1, t, i)) == a
    requires ZeroedTable(m1, InFrame(a))
    requires forall u: TableRef, j: PageTableIndex :: (u != InFrame(a) && (u != t || j != i)) ==>
      EntryOf(m1, u, j) == EntryOf(mA, u, j)
    ensures NamesUsed(m1, usedA + {a})
  {
  }

  /** A step of `create_next_table` from a used entry of a walk that has created nothing yet:
      it follows the entry to the next table of the existing hierarchy, which is new to the
      path, and needs no frame from the allocator. */
  lemma CreateStepExisting(m: Machine, mA: Machine, page: Page, pA: seq<TableRef>,
                           insert: PageTableFlags, usedA: set<int>, n: nat)
    requires 0 < n <= 3 && |pA| == n && Distinct(pA) && FlagsOnly(insert)
    requires OnLinks(m, mA, page, pA) && LinksApart(m, page)
    requires PathStarts(pA) <= usedA
    requires AnswersUnique(mA.allocator, usedA) && NamesUsed(mA, usedA)
    requires !IsUnused(EntryOf(mA, pA[n - 1], StepIndex(page, n - 1)))
    requires var step := CreateNextTable(mA, pA[n - 1], StepIndex(page, n - 1), insert);
      step.Done? && step.value.Ok?
    ensures var step := CreateNextTable(mA, pA[n - 1], StepIndex(page, n - 1), insert);
      var path := pA + [step.value.value];
      && Distinct(path)
      && AnswersUnique(step.machine.allocator, usedA + PathStarts(path))
      && NamesUsed(step.machine, usedA + PathStarts(path))
      && OnLinks(m, step.machine, page, path)
  {
    var t, i := pA[n - 1], StepIndex(page, n - 1);
    var pre := pA[..n - 1];
    assert t !in pre by {
      forall k | 0 <= k < |pre|
        ensures pre[k] != t
      {
        assert pre[k] == pA[k];
      }
    }
    var e := EntryOf(mA, t, i);
    assert e == EntryOf(m, t, i);
    CreateNextTableExisting(mA, t, i, insert);
    var step := CreateNextTable(mA, t, i, insert);
    var next := InFrame(EntryAddr(e));
    assert step.value.value == next;
    assert Links(m, page, n - 1) == Some(t);
    assert Links(m, page, n) == Some(next);
    ExistingPathApart(m, page, pA, next, n);
    assert EntryAddr(e) in usedA;
    PathStartsAppend(pA, next);
    assert PathStarts(pA + [next]) <= usedA;
    assert usedA + PathStarts(pA + [next]) == usedA;
    ExistingStepEntries(m, mA, step.machine, pA, next, t, i, usedA);
  }

  /** Following one more used entry of a hierarchy whose used entries lead through pairwise
      distinct tables extends a path of such tables to a longer one. */
  lemma ExistingPathApart(m: Machine, page: Page, pA: seq<TableRef>, next: TableRef, n: nat)
    requires 0 < n <= 3 && |pA| == n && Distinct(pA) && LinksApart(m, page)
    requires forall j :: 0 <= j < n ==> Links(m, page, j) == Some(pA[j])
    requires Links(m, page, n) == Some(next)
    ensures Distinct(pA + [next])
    ensures forall j :: 0 <= j < n + 1 ==> Links(m, page, j) == Some((pA + [next])[j])
  {
    var path := pA + [next];
    forall a, b | 0 <= a < b < |path|
      ensures path[a] != path[b]
    {
      assert path[a] == pA[a];
      if b < n {
        assert path[b] == pA[b];
      } else {
        assert Links(m, page, a) == Some(pA[a]);
      }
    }
    forall j | 0 <= j < n + 1
      ensures Links(m, page, j) == Some(path[j])
    {
      if j < n {
        assert path[j] == pA[j];
      }
    }
  }

  /** The entries after a step that only updates entry `i` of `t`, keeping its address: they
      still name used frames, and outside the path they are those of `m`. */
  lemma ExistingStepEntries(m: Machine, mA: Machine, m1: Machine, pA: seq<TableRef>,
                            next: TableRef, t: TableRef, i: PageTableIndex, usedA: set<int>)
    requires 1 <= |pA| <= 3 && t == pA[|pA| - 1]
    requires NamesUsed(mA, usedA) && !IsUnused(EntryOf(mA, t, i))
    requires EntryAddr(EntryOf(m1, t, i)) == EntryAddr(EntryOf(mA, t, i))
    requires forall u: TableRef, j: PageTableIndex :: (u != t || j != i) ==>
      EntryOf(m1, u, j) == EntryOf(mA, u, j)
    requires forall u: TableRef, j: PageTableIndex :: u !in pA[..|pA| - 1] ==>
      EntryOf(mA, u, j) == EntryOf(m, u, j)
    ensures NamesUsed(m1, usedA)
    ensures forall u: TableRef, j: PageTableIndex :: u !in (pA + [next])[..|pA|] ==>
      EntryOf(m1, u, j) == EntryOf(m, u, j)
  {
    var path := pA + [next];
    assert path[..|pA|] == pA;
    forall u: TableRef, j: PageTableIndex | u !in pA
      ensures EntryOf(m1, u, j) == EntryOf(m, u, j)
    {
      assert u != t;
      assert u !in pA[..|pA| - 1];
    }
  }

  /** Under the allocator's uniqueness promise over the frames the machine already uses, and
      with the page's existing tables pairwise distinct, a successful creating walk passes
      through pairwise distinct tables, keeps the promise with the frames of its path counted
      as used, and keeps every used entry naming a used frame. */
  lemma {:induction false} CreateWalkApart(m: Machine, page: Page, insert: PageTableFlags, n: nat,
                                           used: set<int>)
    requires n <= 3 && FlagsOnly(insert)
    requires AnswersUnique(m.allocator, used) && NamesUsed(m, used) && LinksApart(m, page)
    requires CreateWalk(m, page, insert, n).Done? && CreateWalk(m, page, insert, n).value.Ok?
    ensures var w := CreateWalk(m, page, insert, n);
      && Distinct(w.value.value)
      && PathStarts(w.value.value) <= used + PathStarts(w.value.value)
      && AnswersUnique(w.machine.allocator, used + PathStarts(w.value.value))
      && NamesUsed(w.machine, used + PathStarts(w.value.value))
      && (OnLinks(m, w.machine, page, w.value.value) || FreshEnd(w.machine, w.value.value))
  {
    if n == 0 {
      assert PathStarts([Root]) == {};
      assert [Root][..0] == [];
    } else {
      CreateWalkUnfold(m, page, insert, n);
      CreateWalkApart(m, page, insert, n - 1, used);
      var before := CreateWalk(m, page, insert, n - 1);
      var mA, pA := before.machine, before.value.value;
      var usedA := used + PathStarts(pA);
      var step := CreateNextTable(mA, pA[n - 1], StepIndex(page, n - 1), insert);
      var path := pA + [step.value.value];
      PathStartsAppend(pA, step.value.value);
      assert usedA + PathStarts(path) == used + PathStarts(path);
      if IsUnused(EntryOf(mA, pA[n - 1], StepIndex(page, n - 1))) {
        CreateStepFresh(mA, page, pA, insert, usedA, n);
      } else {
        CreateStepExisting(m, mA, page, pA, insert, usedA, n);
      }
    }
  }

  /** The allocator's uniqueness promise gives `ParentsDistinct`: when every frame it will
      hand out is new to the machine and the page's existing tables are pairwise distinct, a
      parent walk of `map_to` that gets through passes pairwise distinct tables. */
  lemma UniqueAnswersKeepParentsApart(m: Machine, page: Page, parentFlags: PageTableFlags,
                                      used: set<int>)
    requires FlagsOnly(parentFlags)
    requires AnswersUnique(m.allocator, used) && NamesUsed(m, used) && LinksApart(m, page)
    requires CreateWalk(m, page, parentFlags, Depth(page.size)).Done?
    requires CreateWalk(m, page, parentFlags, Depth(page.size)).value.Ok?
    ensures ParentsDistinct(m, page, parentFlags)
  {
    CreateWalkApart(m, page, parentFlags, Depth(page.size), used);
  }

  /** The mapper as the `Mapper` defaults thread it: the machine, or the end of the run once a
      call has panicked. */
  datatype State = Running(machine: Machine) | Panicked

  /** `map_to_with_table_flags` of this mapper as the single-page operation the `Mapper`
      defaults are given. Rust's types give the page and the frame the same size; a pair of
      different sizes, and a call after a panic, leave the state as it is and answer
      `FrameAllocationFailed`, a value no caller of the crate can observe. */
  function MapStep(st: State, page: Page, frame: PhysFrame, flags: PageTableFlags,
                   parentFlags: PageTableFlags): (State, Result<MapperFlush, MapToError>)
  {
    match st
    case Panicked => (Panicked, Err(MapToError.FrameAllocationFailed))
    case Running(m) =>
      if frame.size != page.size then (st, Err(MapToError.FrameAllocationFailed))
      else
        match MapToWithTableFlags(m, page, frame, flags, parentFlags)
        case Panic => (Panicked, Err(MapToError.FrameAllocationFailed))
        case Done(m2, res) => (Running(m2), res)
  }

  /** The default `map_to` over this mapper: when it returns `Ok`, `translate_page` finds the
      page mapped to the frame, provided the allocator hands out only frames new to the machine
      and the page's existing tables are pairwise distinct. */
  lemma DefaultMapToThenTranslatePage(m: Machine, page: Page, frame: PhysFrame,
                                      flags: PageTableFlags, used: set<int>)
    requires frame.size == page.size && FlagsOnly(flags)
    requires page.size == Size4KiB ==> frame.start != 0 || flags != {}
    requires AnswersUnique(m.allocator, used) && NamesUsed(m, used) && LinksApart(m, page)
    requires MapTo(Running(m), page, frame, flags, MapStep).0.Running?
    requires MapTo(Running(m), page, frame, flags, MapStep).1.Ok?
    ensures TranslatePage(MapTo(Running(m), page, frame, flags, MapStep).0.machine, page)
      == Ok(frame)
  {
    var pf := ParentTableFlags(flags);
    assert MapTo(Running(m), page, frame, flags, MapStep) == MapStep(Running(m), page, frame, flags, pf);
    var r := MapToWithTableFlags(m, page, frame, flags, pf);
    assert r.Done? && r.value.Ok?;
    assert FlagsOnly(pf);
    UniqueAnswersKeepParentsApart(m, page, pf, used);
    MapThenTranslatePage(m, page, frame, flags, pf);
  }

  /** `identity_map` over this mapper: when it returns `Ok`, the page at the frame's own address
      (sign-extended from 2^47 on) translates back to the frame, under the same allocator and
      hierarchy conditions as `map_to`. */
  lemma IdentityMapThenTranslatePage(m: Machine, frame: PhysFrame, flags: PageTableFlags,
                                     used: set<int>)
    requires VirtAccepts(frame.start) && FlagsOnly(flags)
    requires frame.size == Size4KiB ==> frame.start != 0 || flags != {}
    requires AnswersUnique(m.allocator, used) && NamesUsed(m, used)
    requires LinksApart(m, IdentityPage(frame))
    requires IdentityMap(Running(m), frame, flags, MapStep).0.Running?
    requires IdentityMap(Running(m), frame, flags, MapStep).1.Ok?
    ensures TranslatePage(IdentityMap(Running(m), frame, flags, MapStep).0.machine,
                          IdentityPage(frame)) == Ok(frame)
    ensures frame.start < TWO_47 ==> IdentityPage(frame).start == frame.start
    ensures TWO_47 <= frame.start ==>
      IdentityPage(frame).start == frame.start + (U64_LIMIT - TWO_48)
  {
    IdentityPageAddress(frame);
    DefaultMapToThenTranslatePage(m, IdentityPage(frame), frame, flags, used);
  }

  /** The alignment of every table on the walk to a page's entry is a multiple of the page
      size. */
  lemma AlignmentIsMultiple(s: PageSize, n: nat)
    requires n <= Depth(s)
    ensures EntryAlignment(LevelAt(n)) % Size(s) == 0
  {
    if n == 0 {
      assert LevelAt(n) == Four;
    } else if n == 1 {
      assert LevelAt(n) == Three;
    } else if n == 2 {
      assert LevelAt(n) == Two;
    } else {
      assert LevelAt(n) == One && s == Size4KiB;
    }
  }

  /** Every address inside a page selects the page's own indices on the walk down to the page's
      entry, and lies `addr - page.start` into it. */
  lemma ContainedIndex(page: Page, addr: VirtAddr, n: nat)
    requires page.start <= addr < page.start + Size(page.size) && n <= Depth(page.size)
    ensures StepIndex(page, n) == addr / EntryAlignment(LevelAt(n)) % 512
    ensures addr % Size(page.size) == addr - page.start
  {
    var s, e := Size(page.size), EntryAlignment(LevelAt(n));
    AlignmentIsMultiple(page.size, n);
    SameQuotient(page.start, addr - page.start, s, e);
    OffsetIsMod(page.start, addr - page.start, s);
  }

  /** The indices of the walk for any address inside a page are the page's own. */
  lemma ContainedIndices(page: Page, addr: VirtAddr)
    requires page.start <= addr < page.start + Size(page.size)
    ensures StepIndex(page, 0) == P4Index(addr)
    ensures Depth(page.size) >= 1 ==> StepIndex(page, 1) == P3Index(addr)
    ensures Depth(page.size) >= 2 ==> StepIndex(page, 2) == P2Index(addr)
    ensures Depth(page.size) >= 3 ==> StepIndex(page, 3) == P1Index(addr)
    ensures addr % Size(page.size) == addr - page.start
  {
    for n := 0 to Depth(page.size) + 1
      invariant forall k: nat :: k < n ==>
        StepIndex(page, k) == addr / EntryAlignment(LevelAt(k)) % 512
    {
      ContainedIndex(page, addr, n);
    }
    ContainedIndex(page, addr, 0);
  }

  /** For a 4 KiB page, `translate` of any address inside it and `translate_page` agree: one
      finds the page's frame exactly when the other finds a 4 KiB frame, at the address's
      offset into the page and with the entry's flags; both report the same misaligned address;
      and where `translate` finds nothing `translate_page` reports `PageNotMapped`. */
  lemma TranslateAgrees4KiB(m: Machine, page: Page, addr: VirtAddr, a: PhysAddr)
    requires page.size == Size4KiB && page.start <= addr < page.start + 0x1000
    requires NoHugeLevel4Entry(m, addr)
    ensures TranslatePage(m, page).Ok? <==>
      Translate(m, addr).Mapped? && Translate(m, addr).frame.frame.size == Size4KiB
    ensures TranslatePage(m, page).Ok? ==>
      && Walk(m, page, 3).Ok?
      && Translate(m, addr) == Mapped(MappedFrame(TranslatePage(m, page).value), addr - page.start,
                                      EntryFlags(EntryOf(m, Walk(m, page, 3).value, LeafIndex(page))))
    ensures TranslatePage(m, page) == Err(TranslateError.InvalidFrameAddress(a)) <==>
      Translate(m, addr) == TranslateResult.InvalidFrameAddress(a)
    ensures Translate(m, addr).NotMapped? ==> TranslatePage(m, page) == Err(TranslateError.PageNotMapped)
  {
    ContainedIndices(page, addr);
    assert Walk(m, page, 1) == NextTable(m, Root, P4Index(addr));
    match NextTable(m, Root, P4Index(addr))
    case Err(e) =>
      assert Walk(m, page, 2) == Err(e);
      assert Walk(m, page, 3) == Err(e);
    case Ok(p3) =>
      assert Walk(m, page, 2) == NextTable(m, p3, P3Index(addr));
      match NextTable(m, p3, P3Index(addr))
      case Err(e) =>
        assert Walk(m, page, 3) == Err(e);
      case Ok(p2) =>
        assert Walk(m, page, 3) == NextTable(m, p2, P2Index(addr));
  }

  /** The page's own entry, when the walk to the table that holds it gets through. */
  function LeafOf(m: Machine, page: Page): Option<PageTableEntry>
  {
    match Walk(m, page, Depth(page.size))
    case Err(_) => None
    case Ok(t) => Some(EntryOf(m, t, LeafIndex(page)))
  }

  /** An entry `next_table` refuses to follow because it maps a huge page. */
  predicate IsHugeEntry(e: PageTableEntry)
  {
    PRESENT in EntryFlags(e) && HUGE_PAGE in EntryFlags(e)
  }

  /** For a 1 GiB page, `translate` of any address inside it finds a 1 GiB frame exactly when
      the page's entry is present and huge; it then finds the frame containing the entry's
      address, at the address's offset into the page and with the entry's flags, and
      `translate_page` finds the same frame or reports the entry's address as misaligned. */
  lemma TranslateAgrees1GiB(m: Machine, page: Page, addr: VirtAddr)
    requires page.size == Size1GiB && page.start <= addr < page.start + Size(page.size)
    requires NoHugeLevel4Entry(m, addr)
    ensures (Translate(m, addr).Mapped? && Translate(m, addr).frame.frame.size == Size1GiB) <==>
      LeafOf(m, page).Some? && IsHugeEntry(LeafOf(m, page).value)
    ensures LeafOf(m, page).Some? && IsHugeEntry(LeafOf(m, page).value) ==>
      var e := LeafOf(m, page).value;
      && Translate(m, addr) == Mapped(MappedFrame(FrameContainingAddress(Size1GiB, EntryAddr(e))),
                                      addr - page.start, EntryFlags(e))
      && TranslatePage(m, page) ==
        if EntryAddr(e) % Size(Size1GiB) == 0 then Ok(FrameContainingAddress(Size1GiB, EntryAddr(e)))
        else Err(TranslateError.InvalidFrameAddress(EntryAddr(e)))
  {
    Level3Walk(m, page, addr);
    TranslatePageOfHugeLeaf(m, page);
    match NextTable(m, Root, P4Index(addr))
    case Err(_) =>
    case Ok(p3) => Level3Translation(m, p3, addr);
  }

  /** For a 1 GiB page and an address inside it, the page's entry and the translation of the
      address are both read from the level-3 table the address's level-4 entry points to, and the
      address lies `addr & (2^30 - 1)` into the page. */
  lemma Level3Walk(m: Machine, page: Page, addr: VirtAddr)
    requires page.size == Size1GiB && page.start <= addr < page.start + Size(page.size)
    requires NoHugeLevel4Entry(m, addr)
    ensures NextTable(m, Root, P4Index(addr)).Err? ==>
      LeafOf(m, page).None? && Translate(m, addr) == TranslateResult.NotMapped
    ensures NextTable(m, Root, P4Index(addr)).Ok? ==>
      var p3 := NextTable(m, Root, P4Index(addr)).value;
      LeafOf(m, page) == Some(EntryOf(m, p3, P3Index(addr)))
      && Translate(m, addr) == TranslateFromLevel3(m, p3, addr)
    ensures addr % 0x4000_0000 == addr - page.start
  {
    ContainedIndices(page, addr);
    match NextTable(m, Root, P4Index(addr))
    case Err(_) =>
    case Ok(p3) => assert Walk(m, page, 1) == Ok(p3);
  }

  /** At a level-3 table, `translate` finds a 1 GiB frame exactly when the entry is present and
      huge, and then the frame containing the entry's address, at offset `addr & (2^30 - 1)`. */
  lemma Level3Translation(m: Machine, p3: TableRef, addr: VirtAddr)
    ensures (TranslateFromLevel3(m, p3, addr).Mapped?
             && TranslateFromLevel3(m, p3, addr).frame.frame.size == Size1GiB)
            <==> IsHugeEntry(EntryOf(m, p3, P3Index(addr)))
    ensures IsHugeEntry(EntryOf(m, p3, P3Index(addr))) ==>
      var e := EntryOf(m, p3, P3Index(addr));
      TranslateFromLevel3(m, p3, addr)
        == Mapped(MappedFrame(FrameContainingAddress(Size1GiB, EntryAddr(e))), addr % 0x4000_0000,
                  EntryFlags(e))
  {
  }

  /** At a level-2 table, `translate` finds a 2 MiB frame exactly when the entry is present and
      huge, and then the frame containing the entry's address, at offset `addr & (2^21 - 1)`. */
  lemma Level2Translation(m: Machine, p2: TableRef, addr: VirtAddr)
    ensures (TranslateFromLevel2(m, p2, addr).Mapped?
             && TranslateFromLevel2(m, p2, addr).frame.frame.size == Size2MiB)
            <==> IsHugeEntry(EntryOf(m, p2, P2Index(addr)))
    ensures IsHugeEntry(EntryOf(m, p2, P2Index(addr))) ==>
      var e := EntryOf(m, p2, P2Index(addr));
      TranslateFromLevel2(m, p2, addr)
        == Mapped(MappedFrame(FrameContainingAddress(Size2MiB, EntryAddr(e))), addr % 0x20_0000,
                  EntryFlags(e))
  {
  }

  /** The same for a 2 MiB page, whose entry lies one table further down. */
  lemma TranslateAgrees2MiB(m: Machine, page: Page, addr: VirtAddr)
    requires page.size == Size2MiB && page.start <= addr < page.start + Size(page.size)
    requires NoHugeLevel4Entry(m, addr)
    ensures (Translate(m, addr).Mapped? && Translate(m, addr).frame.frame.size == Size2MiB) <==>
      LeafOf(m, page).Some? && IsHugeEntry(LeafOf(m, page).value)
    ensures LeafOf(m, page).Some? && IsHugeEntry(LeafOf(m, page).value) ==>
      var e := LeafOf(m, page).value;
      && Translate(m, addr) == Mapped(MappedFrame(FrameContainingAddress(Size2MiB, EntryAddr(e))),
                                      addr - page.start, EntryFlags(e))
      && TranslatePage(m, page) ==
        if EntryAddr(e) % Size(Size2MiB) == 0 then Ok(FrameContainingAddress(Size2MiB, EntryAddr(e)))
        else Err(TranslateError.InvalidFrameAddress(EntryAddr(e)))
  {
    Level2Walk(m, page, addr);
    TranslatePageOfHugeLeaf(m, page);
    match Walk(m, page, 2)
    case Err(_) =>
    case Ok(p2) => Level2Translation(m, p2, addr);
  }

  /** For a 2 MiB page and an address inside it, the page's entry and the translation of the
      address are both read from the level-2 table the walk reaches; where the walk stops,
      `translate` finds no 2 MiB frame. The address lies `addr & (2^21 - 1)` into the page. */
  lemma Level2Walk(m: Machine, page: Page, addr: VirtAddr)
    requires page.size == Size2MiB && page.start <= addr < page.start + Size(page.size)
    requires NoHugeLevel4Entry(m, addr)
    ensures Walk(m, page, 2).Err? ==>
      LeafOf(m, page).None?
      && !(Translate(m, addr).Mapped? && Translate(m, addr).frame.frame.size == Size2MiB)
    ensures Walk(m, page, 2).Ok? ==>
      var p2 := Walk(m, page, 2).value;
      LeafOf(m, page) == Some(EntryOf(m, p2, P2Index(addr)))
      && Translate(m, addr) == TranslateFromLevel2(m, p2, addr)
    ensures addr % 0x20_0000 == addr - page.start
  {
    ContainedIndices(page, addr);
    match NextTable(m, Root, P4Index(addr))
    case Err(err) =>
      assert Walk(m, page, 2) == Err(err);
    case Ok(p3) =>
      assert Walk(m, page, 1) == Ok(p3);
      match NextTable(m, p3, P3Index(addr))
      case Err(err) =>
        assert Walk(m, page, 2) == Err(err);
      case Ok(p2) =>
        assert Walk(m, page, 2) == Ok(p2);
  }

  /** A present huge leaf entry is not unused, so `translate_page` finds the frame of the page's
      size at the entry's address, or reports the address as misaligned. */
  lemma TranslatePageOfHugeLeaf(m: Machine, page: Page)
    ensures LeafOf(m, page).Some? && IsHugeEntry(LeafOf(m, page).value) ==>
      var e := LeafOf(m, page).value;
      TranslatePage(m, page) ==
        if EntryAddr(e) % Size(page.size) == 0 then Ok(FrameContainingAddress(page.size, EntryAddr(e)))
        else Err(TranslateError.InvalidFrameAddress(EntryAddr(e)))
  {
    if LeafOf(m, page).Some? && IsHugeEntry(LeafOf(m, page).value) {
      var e := LeafOf(m, page).value;
      UnusedParts(e);
      if EntryAddr(e) % Size(page.size) == 0 {
        FrameContainingAligned(page.size, EntryAddr(e));
      }
    }
  }

  /** When the walk to a page's entry gets through, no address inside the page meets a huge
      level-4 entry. */
  lemma ReachedPageNotUnderHugeLevel4(m: Machine, page: Page, addr: VirtAddr)
    requires page.start <= addr < page.start + Size(page.size)
    requires LeafOf(m, page).Some?
    ensures NoHugeLevel4Entry(m, addr)
  {
    WalkPrefix(m, page, 1, Depth(page.size));
    ContainedIndices(page, addr);
    assert NextTable(m, Root, P4Index(addr)).Ok?;
  }

  /** When `translate_page` finds a frame for a page whose entry holds PRESENT and the flags
      `map_to` writes, `translate` of every address inside the page finds that frame too, at the
      address's offset into the page. */
  lemma TranslateOfMappedPage(m: Machine, page: Page, frame: PhysFrame, flags: PageTableFlags,
                              addr: VirtAddr)
    requires PRESENT in flags && page.start <= addr < page.start + Size(page.size)
    requires TranslatePage(m, page) == Ok(frame)
    requires LeafOf(m, page).Some? && EntryFlags(LeafOf(m, page).value) == LeafFlags(page, flags)
    ensures NoHugeLevel4Entry(m, addr)
    ensures Translate(m, addr) == Mapped(MappedFrame(frame), addr - page.start, LeafFlags(page, flags))
  {
    ReachedPageNotUnderHugeLevel4(m, page, addr);
    match page.size
    case Size4KiB =>
      TranslateOfMapped4KiB(m, page, frame, flags, addr);
    case Size2MiB =>
      TranslateOfMapped2MiB(m, page, frame, flags, addr);
    case Size1GiB =>
      TranslateOfMapped1GiB(m, page, frame, flags, addr);
  }

  lemma TranslateOfMapped4KiB(m: Machine, page: Page, frame: PhysFrame, flags: PageTableFlags,
                              addr: VirtAddr)
    requires PRESENT in flags && page.start <= addr < page.start + Size(page.size)
    requires TranslatePage(m, page) == Ok(frame)
    requires LeafOf(m, page).Some? && EntryFlags(LeafOf(m, page).value) == LeafFlags(page, flags)
    requires NoHugeLevel4Entry(m, addr)
    requires page.size == Size4KiB
    ensures Translate(m, addr) == Mapped(MappedFrame(frame), addr - page.start, LeafFlags(page, flags))
  {
    TranslateAgrees4KiB(m, page, addr, 0);
  }

  lemma TranslateOfMapped2MiB(m: Machine, page: Page, frame: PhysFrame, flags: PageTableFlags,
                              addr: VirtAddr)
    requires PRESENT in flags && page.start <= addr < page.start + Size(page.size)
    requires TranslatePage(m, page) == Ok(frame)
    requires LeafOf(m, page).Some? && EntryFlags(LeafOf(m, page).value) == LeafFlags(page, flags)
    requires NoHugeLevel4Entry(m, addr)
    requires page.size == Size2MiB
    ensures Translate(m, addr) == Mapped(MappedFrame(frame), addr - page.start, LeafFlags(page, flags))
  {
    TranslateAgrees2MiB(m, page, addr);
  }

  lemma TranslateOfMapped1GiB(m: Machine, page: Page, frame: PhysFrame, flags: PageTableFlags,
                              addr: VirtAddr)
    requires PRESENT in flags && page.start <= addr < page.start + Size(page.size)
    requires TranslatePage(m, page) == Ok(frame)
    requires LeafOf(m, page).Some? && EntryFlags(LeafOf(m, page).value) == LeafFlags(page, flags)
    requires NoHugeLevel4Entry(m, addr)
    requires page.size == Size1GiB
    ensures Translate(m, addr) == Mapped(MappedFrame(frame), addr - page.start, LeafFlags(page, flags))
  {
    TranslateAgrees1GiB(m, page, addr);
  }

  /** After `map_to` maps a page with PRESENT, `translate` of every address inside the page finds
      the mapped frame, at the address's offset into the page and with the written flags. */
  lemma MapThenTranslate(m: Machine, page: Page, frame: PhysFrame, flags: PageTableFlags,
                         parentFlags: PageTableFlags, addr: VirtAddr)
    requires frame.size == page.size && FlagsOnly(flags) && PRESENT in flags
    requires ParentsDistinct(m, page, parentFlags)
    requires MapToWithTableFlags(m, page, frame, flags, parentFlags).Done?
    requires MapToWithTableFlags(m, page, frame, flags, parentFlags).value.Ok?
    requires page.start <= addr < page.start + Size(page.size)
    ensures var m2 := MapToWithTableFlags(m, page, frame, flags, parentFlags).machine;
      && NoHugeLevel4Entry(m2, addr)
      && Translate(m2, addr) == Mapped(MappedFrame(frame), addr - page.start, LeafFlags(page, flags))
  {
    var m2 := MapToWithTableFlags(m, page, frame, flags, parentFlags).machine;
    MapThenTranslatePage(m, page, frame, flags, parentFlags);
    TranslateOfMappedPage(m2, page, frame, flags, addr);
  }

  /** No table the walk to the page's entry passes through above the entry's own table is that
      table, as in any well-formed hierarchy of page tables. */
  predicate LeafApart(m: Machine, page: Page)
  {
    && Walk(m, page, Depth(page.size)).Ok?
    && forall k: nat :: k < Depth(page.size) ==>
      Walk(m, page, k).Ok? && Walk(m, page, k).value != Walk(m, page, Depth(page.size)).value
  }

  /** Writing the page's own entry leaves the walk to it as it was: the entry then reads back as
      written and the tables stay apart. */
  lemma LeafWriteKeepsWalk(m: Machine, page: Page, x: PageTableEntry)
    requires LeafApart(m, page)
    ensures var m2 := SetEntry(m, Walk(m, page, Depth(page.size)).value, LeafIndex(page), x);
      && (forall k: nat :: k <= Depth(page.size) ==> Walk(m2, page, k) == Walk(m, page, k))
      && LeafOf(m2, page) == Some(x)
      && LeafApart(m2, page)
  {
    var d := Depth(page.size);
    var m2 := SetEntry(m, Walk(m, page, d).value, LeafIndex(page), x);
    forall k: nat | k <= d
      ensures Walk(m2, page, k) == Walk(m, page, k)
    {
      assert SameWalkEntries(m, m2, page, k);
      WalkFrame(m, m2, page, k);
    }
  }

  /** `unmap` succeeds exactly on a present entry of the page's kind (huge for a huge page, not
      huge for a 4 KiB page) whose frame `translate_page` finds; it returns that frame and writes
      an unused entry in its place. */
  lemma UnmapReturnsTranslatedFrame(m: Machine, page: Page)
    ensures Unmap(m, page).1.Ok? <==>
      && LeafOf(m, page).Some? && TranslatePage(m, page).Ok?
      && PRESENT in EntryFlags(LeafOf(m, page).value)
      && (HUGE_PAGE in EntryFlags(LeafOf(m, page).value) <==> page.size != Size4KiB)
    ensures Unmap(m, page).1.Ok? ==>
      && Unmap(m, page).1.value.0 == TranslatePage(m, page).value
      && Unmap(m, page).0
        == SetEntry(m, Walk(m, page, Depth(page.size)).value, LeafIndex(page), NewEntry())
  {
    match Walk(m, page, Depth(page.size))
    case Err(_) =>
    case Ok(t) =>
      var e := EntryOf(m, t, LeafIndex(page));
      UnusedParts(e);
      if page.size == Size4KiB && EntryFrame(e).Ok? {
        FrameContainingAligned(Size4KiB, EntryAddr(e));
      }
  }

  /** After a successful `unmap` of a page whose tables are apart, `translate_page` reports the
      page as not mapped and a second `unmap` reports `PageNotMapped`. */
  lemma UnmapThenNotMapped(m: Machine, page: Page)
    requires LeafApart(m, page) && Unmap(m, page).1.Ok?
    ensures TranslatePage(Unmap(m, page).0, page) == Err(TranslateError.PageNotMapped)
    ensures Unmap(Unmap(m, page).0, page).1 == Err(UnmapError.PageNotMapped)
  {
    UnmapReturnsTranslatedFrame(m, page);
    LeafWriteKeepsWalk(m, page, NewEntry());
    UnusedParts(NewEntry());
  }

  /** Unmapping a page `map_to` has just mapped with PRESENT returns the mapped frame and leaves
      every entry as it was once the parent tables were in place: the page's entry is unused
      again. */
  lemma MapThenUnmap(m: Machine, page: Page, frame: PhysFrame, flags: PageTableFlags,
                     parentFlags: PageTableFlags)
    requires frame.size == page.size && FlagsOnly(flags) && PRESENT in flags
    requires ParentsDistinct(m, page, parentFlags)
    requires MapToWithTableFlags(m, page, frame, flags, parentFlags).Done?
    requires MapToWithTableFlags(m, page, frame, flags, parentFlags).value.Ok?
    ensures var m1 := CreateWalk(m, page, parentFlags, Depth(page.size)).machine;
      var m2 := MapToWithTableFlags(m, page, frame, flags, parentFlags).machine;
      && Unmap(m2, page).1 == Ok((frame, MapperFlush(page)))
      && forall u: TableRef, j: PageTableIndex :: EntryOf(Unmap(m2, page).0, u, j) == EntryOf(m1, u, j)
  {
    var d := Depth(page.size);
    var w := CreateWalk(m, page, parentFlags, d);
    var m1, t, i := w.machine, w.value.value[d], LeafIndex(page);
    var e := EntryOf(m1, t, i);
    var m2 := MapToWithTableFlags(m, page, frame, flags, parentFlags).machine;
    assert IsUnused(e) && e == NewEntry();
    assert m2 == SetEntry(m1, t, i, LeafEntry(e, page, frame, flags));
    MapThenTranslatePage(m, page, frame, flags, parentFlags);
    UnmapReturnsTranslatedFrame(m2, page);
    assert Unmap(m2, page).0 == SetEntry(m2, t, i, NewEntry());
    SetEntryUndo(m1, t, i, LeafEntry(e, page, frame, flags));
  }

  /** Writing an entry back to what it held undoes an earlier write to it. */
  lemma SetEntryUndo(m: Machine, t: TableRef, i: PageTableIndex, x: PageTableEntry)
    ensures forall u: TableRef, j: PageTableIndex ::
      EntryOf(SetEntry(SetEntry(m, t, i, x), t, i, EntryOf(m, t, i)), u, j) == EntryOf(m, u, j)
  {
  }

  /** `update_flags` fails exactly where `translate_page` finds no entry, with the matching
      error, and succeeds on every entry in use, including one whose address is misaligned. */
  lemma UpdateFlagsFailsLikeTranslatePage(m: Machine, page: Page, flags: PageTableFlags)
    ensures UpdateFlags(m, page, flags).1 == Err(FlagUpdateError.PageNotMapped) <==>
      TranslatePage(m, page) == Err(TranslateError.PageNotMapped)
    ensures UpdateFlags(m, page, flags).1 == Err(FlagUpdateError.ParentEntryHugePage) <==>
      TranslatePage(m, page) == Err(TranslateError.ParentEntryHugePage)
    ensures UpdateFlags(m, page, flags).1.Ok? <==>
      TranslatePage(m, page).Ok? || TranslatePage(m, page).error.InvalidFrameAddress?
  {
  }

  /** A successful `update_flags` on a page whose tables are apart leaves the walk to the page's
      entry and the entry's address as they were and gives the entry the new flags (with
      HUGE_PAGE for a huge page); with any flag set, `translate_page` then still finds what it
      found before. */
  lemma UpdateFlagsEffect(m: Machine, page: Page, flags: PageTableFlags)
    requires LeafApart(m, page) && FlagsOnly(flags) && UpdateFlags(m, page, flags).1.Ok?
    ensures var m2 := UpdateFlags(m, page, flags).0;
      && LeafOf(m2, page).Some?
      && EntryAddr(LeafOf(m2, page).value) == EntryAddr(LeafOf(m, page).value)
      && EntryFlags(LeafOf(m2, page).value) == LeafFlags(page, flags)
      && Walk(m2, page, Depth(page.size)) == Walk(m, page, Depth(page.size))
      && (flags != {} ==> TranslatePage(m2, page) == TranslatePage(m, page))
  {
    var e := LeafOf(m, page).value;
    var x := SetFlags(e, LeafFlags(page, flags));
    assert FlagsOnly(LeafFlags(page, flags));
    LeafWriteKeepsWalk(m, page, x);
    UnusedParts(x);
    UnusedParts(e);
    var m2 := UpdateFlags(m, page, flags).0;
    assert m2 == SetEntry(m, Walk(m, page, Depth(page.size)).value, LeafIndex(page), x);
    if flags != {} {
      assert !IsUnused(x) && !IsUnused(e);
      TranslatePageOfUsedLeaf(m, page);
      TranslatePageOfUsedLeaf(m2, page);
    }
  }

  /** The entry closure of the `MappedPageTable` overrides of `update_flags_range`, run on the
      page's entry after the walk to its table: an unused entry gives `PageNotMapped`, and
      otherwise the entry's flags become `flags` exactly as given, for every page size. Unlike
      `update_flags`, the 1 GiB and 2 MiB overrides do not add HUGE_PAGE. */
  function UpdateFlagsRangeStepAsWritten(m: Machine, page: Page, flags: PageTableFlags)
    : (r: (Machine, Result<MapperFlush, FlagUpdateError>))
    ensures r.1.Err? ==> r.0 == m
    ensures r.1.Ok? ==> r.1.value == MapperFlush(page)
  {
    match Walk(m, page, Depth(page.size))
    case Err(e) => (m, Err(FlagUpdateErrorOfWalk(e)))
    case Ok(t) =>
      var e := EntryOf(m, t, LeafIndex(page));
      if IsUnused(e) then (m, Err(FlagUpdateError.PageNotMapped))
      else (SetEntry(m, t, LeafIndex(page), SetFlags(e, flags)), Ok(MapperFlush(page)))
  }

  /** For a 4 KiB page, or flags that already hold HUGE_PAGE, the range closure writes what
      `update_flags` writes. */
  lemma RangeStepAsWrittenAgrees(m: Machine, page: Page, flags: PageTableFlags)
    requires page.size == Size4KiB || HUGE_PAGE in flags
    ensures UpdateFlagsRangeStepAsWritten(m, page, flags) == UpdateFlags(m, page, flags)
  {
    if page.size != Size4KiB {
      assert flags + {HUGE_PAGE} == flags;
    }
  }

  /** On a 1 GiB or 2 MiB page mapped by a present huge entry, the range closure as written,
      given present flags without HUGE_PAGE, succeeds where `update_flags` does but leaves the
      entry without HUGE_PAGE: `next_table` then leads into the huge page's frame as if it held a
      page table, where after `update_flags` it still refuses with `MappedToHugePage`. */
  lemma RangeStepAsWrittenDropsHugePage(m: Machine, page: Page, flags: PageTableFlags)
    requires LeafApart(m, page) && FlagsOnly(flags)
    requires page.size != Size4KiB && PRESENT in flags && HUGE_PAGE !in flags
    requires UpdateFlags(m, page, flags).1.Ok?
    ensures var a := UpdateFlagsRangeStepAsWritten(m, page, flags);
      var u := UpdateFlags(m, page, flags);
      var t := Walk(m, page, Depth(page.size)).value;
      && a.1 == u.1
      && a.0 != u.0
      && LeafOf(a.0, page).Some? && LeafOf(u.0, page).Some?
      && HUGE_PAGE !in EntryFlags(LeafOf(a.0, page).value)
      && HUGE_PAGE in EntryFlags(LeafOf(u.0, page).value)
      && NextTable(a.0, t, LeafIndex(page)) == Ok(InFrame(EntryAddr(LeafOf(m, page).value)))
      && NextTable(u.0, t, LeafIndex(page)) == Err(PageTableWalkError.MappedToHugePage)
  {
    var t := Walk(m, page, Depth(page.size)).value;
    var e := EntryOf(m, t, LeafIndex(page));
    var xa := SetFlags(e, flags);
    var xu := SetFlags(e, LeafFlags(page, flags));
    assert FlagsOnly(LeafFlags(page, flags));
    LeafWriteKeepsWalk(m, page, xa);
    LeafWriteKeepsWalk(m, page, xu);
    var ma := UpdateFlagsRangeStepAsWritten(m, page, flags).0;
    var mu := UpdateFlags(m, page, flags).0;
    assert ma == SetEntry(m, t, LeafIndex(page), xa);
    assert mu == SetEntry(m, t, LeafIndex(page), xu);
    assert EntryFlags(xa) != EntryFlags(xu);
    assert LeafOf(ma, page) != LeafOf(mu, page);
  }

  /** Where the page's entry is in use, `translate_page` reads the frame of the page's size off
      the entry's address alone. */
  lemma TranslatePageOfUsedLeaf(m: Machine, page: Page)
    requires LeafOf(m, page).Some? && !IsUnused(LeafOf(m, page).value)
    ensures var a := EntryAddr(LeafOf(m, page).value);
      TranslatePage(m, page) ==
        if a % Size(page.size) == 0 then Ok(FrameContainingAddress(page.size, a))
        else Err(TranslateError.InvalidFrameAddress(a))
  {
    var a := EntryAddr(LeafOf(m, page).value);
    if a % Size(page.size) == 0 {
      FrameContainingAligned(page.size, a);
    }
  }

  /** `set_flags_p4_entry`, `set_flags_p3_entry` and `set_flags_p2_entry` succeed exactly on a
      used entry of a table above the page's leaf level that the walk reaches; they then replace
      that entry's flags, keep its address, and change no other entry. */
  lemma SetFlagsParentEntryEffect(m: Machine, page: Page, level: PageTableLevel, flags: PageTableFlags)
    requires level != One && FlagsOnly(flags)
    ensures var n := StepsTo(level);
      SetFlagsParentEntry(m, page, level, flags).1.Ok? <==>
        n < Depth(page.size) && Walk(m, page, n).Ok?
        && !IsUnused(EntryOf(m, Walk(m, page, n).value, StepIndex(page, n)))
    ensures var n := StepsTo(level);
      var r := SetFlagsParentEntry(m, page, level, flags);
      r.1.Ok? ==>
        var t, i := Walk(m, page, n).value, StepIndex(page, n);
        && EntryFlags(EntryOf(r.0, t, i)) == flags
        && EntryAddr(EntryOf(r.0, t, i)) == EntryAddr(EntryOf(m, t, i))
        && forall u: TableRef, j: PageTableIndex :: (u != t || j != i) ==>
          EntryOf(r.0, u, j) == EntryOf(m, u, j)
  {
  }
}
