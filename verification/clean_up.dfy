/** `CleanUp` for the mapper over page tables in physical memory (`mapper/mapped_page_table.rs`):
    freeing the page tables that no longer map anything.

    The walk is recursive by level. For each entry of a table whose index lies within the range
    and that leads to a table of the next level, the entry's part of the range is cleaned first;
    when that leaves the lower table with no used entry, the entry is set unused and its frame
    handed to the deallocator. A table reports whether all its entries are unused afterwards. */
module MappedCleanUp {
  import opened Wrappers
  import opened Words
  import opened Addr
  import opened TableIndex
  import opened Pages
  import opened Frames
  import opened Tables
  import opened FrameAlloc
  import opened MappedTables

  /** A range of 4 KiB pages, the kind `clean_up_addr_range` takes. */
  predicate Is4KiBRange(range: PageRangeInclusive)
  {
    range.start.size == Size4KiB && range.end.size == Size4KiB
  }

  /** `Ord::max` on pages: the one with the larger start address. */
  function PageMax(a: Page, b: Page): (r: Page)
    ensures r == a || r == b
    ensures r.start >= a.start && r.start >= b.start
  {
    if a.start > b.start then a else b
  }

  /** `Ord::min` on pages: the one with the smaller start address. */
  function PageMin(a: Page, b: Page): (r: Page)
    ensures r == a || r == b
    ensures r.start <= a.start && r.start <= b.start
  {
    if a.start < b.start then a else b
  }

  /** Every table of a level spans a power of two, which `align_down` accepts. */
  lemma TableAlignmentIsPowerOfTwo(level: PageTableLevel)
    ensures IsPowerOfTwo(TableAlignment(level)) && TableAlignment(level) <= TWO_48
  {
    Pow2Values();
    var k: nat := LevelNumber(level) * 9 + 12;
    assert TableAlignment(level) == Pow2(k);
  }

  /** `table_addr`: the range's first address aligned down to the span of a whole table of the
      level. */
  function TableAddr(level: PageTableLevel, range: PageRangeInclusive): (r: u64)
    ensures r <= range.start.start && r % TableAlignment(level) == 0
  {
    TableAlignmentIsPowerOfTwo(level);
    AlignDown(range.start.start, TableAlignment(level))
  }

  /** The part of the range entry `i` of a table at `tableAddr` covers: from the entry's first
      4 KiB page (`table_addr + offset_per_entry * i`) to its last, clipped to the range. Both
      additions go through `VirtAddr + u64`, which panics (`None`) on an overflow or on a sum
      `VirtAddr::new` rejects. */
  function EntryRange(tableAddr: u64, level: PageTableLevel, i: PageTableIndex,
                      range: PageRangeInclusive): (r: Option<PageRangeInclusive>)
    requires Is4KiBRange(range)
    ensures r.Some? ==> Is4KiBRange(r.value)
    ensures r.Some? ==> r.value.start.start >= range.start.start && r.value.end.start <= range.end.start
  {
    var offset := EntryAlignment(level);
    var s := tableAddr + offset * i;
    if s >= U64_LIMIT || !VirtAccepts(s) then None
    else
      var first := VirtNew(s);
      if first + (offset - 1) >= U64_LIMIT || !VirtAccepts(first + (offset - 1)) then None
      else
        var last := VirtNew(first + (offset - 1));
        Some(PageRangeInclusive(PageMax(ContainingAddress(Size4KiB, first), range.start),
                                PageMin(ContainingAddress(Size4KiB, last), range.end)))
  }

  /** The inner `clean_up` on table `t` of `level` over `range`: an empty range leaves everything
      as it was and reports `false`; otherwise the entries from the range start's index to the
      range end's index are cleaned (below level one there is nothing to clean) and the result
      says whether every entry of `t` is now unused. */
  function CleanUpTable(m: Machine, t: TableRef, level: PageTableLevel, range: PageRangeInclusive,
                        d: FrameDeallocator)
    : (r: Outcome<(FrameDeallocator, bool)>)
    requires Is4KiBRange(range)
    ensures r.Done? ==> r.machine.allocator == m.allocator
    ensures r.Done? ==> forall u: TableRef, j: PageTableIndex ::
      EntryOf(r.machine, u, j) == EntryOf(m, u, j) || IsUnused(EntryOf(r.machine, u, j))
    ensures r.Done? ==> (r.value.1 <==> !InclusiveIsEmpty(range) && AllUnused(TableOf(r.machine, t)))
    decreases LevelNumber(level), 1, 0
  {
    if InclusiveIsEmpty(range) then Done(m, (d, false))
    else
      var tableAddr := TableAddr(level, range);
      var first, last := PageTableIndexOf(range.start, level), PageTableIndexOf(range.end, level);
      match NextLowerLevel(level)
      case None => Done(m, (d, AllUnused(TableOf(m, t))))
      case Some(next) =>
        match CleanUpEntries(m, t, level, next, range, tableAddr, first, last, d)
        case Panic => Panic
        case Done(m1, d1) => Done(m1, (d1, AllUnused(TableOf(m1, t))))
  }

  /** The loop of the inner `clean_up` over the entries `i..=last` of table `t`. */
  function CleanUpEntries(m: Machine, t: TableRef, level: PageTableLevel, next: PageTableLevel,
                          range: PageRangeInclusive, tableAddr: u64, i: nat, last: PageTableIndex,
                          d: FrameDeallocator)
    : (r: Outcome<FrameDeallocator>)
    requires Is4KiBRange(range) && NextLowerLevel(level) == Some(next)
    ensures r.Done? ==> r.machine.allocator == m.allocator
    ensures r.Done? ==> forall u: TableRef, j: PageTableIndex ::
      EntryOf(r.machine, u, j) == EntryOf(m, u, j) || IsUnused(EntryOf(r.machine, u, j))
    decreases LevelNumber(level), 0, last + 1 - i
  {
    if i > last then Done(m, d)
    else
      match CleanUpEntry(m, t, level, next, range, tableAddr, i, d)
      case Panic => Panic
      case Done(m1, d1) => CleanUpEntries(m1, t, level, next, range, tableAddr, i + 1, last, d1)
  }

  /** One round of that loop: an entry `next_table_mut` cannot follow is skipped; otherwise the
      entry's part of the range is cleaned in the table it leads to, and when that table is then
      empty the entry's frame (`frame().unwrap()`, which panics if the entry no longer names a
      4 KiB frame) is taken, the entry set unused and the frame deallocated. */
  function CleanUpEntry(m: Machine, t: TableRef, level: PageTableLevel, next: PageTableLevel,
                        range: PageRangeInclusive, tableAddr: u64, i: PageTableIndex,
                        d: FrameDeallocator)
    : (r: Outcome<FrameDeallocator>)
    requires Is4KiBRange(range) && NextLowerLevel(level) == Some(next)
    ensures r.Done? ==> r.machine.allocator == m.allocator
    ensures r.Done? ==> forall u: TableRef, j: PageTableIndex ::
      EntryOf(r.machine, u, j) == EntryOf(m, u, j) || IsUnused(EntryOf(r.machine, u, j))
    decreases LevelNumber(level), 0, 0
  {
    match NextTable(m, t, i)
    case Err(_) => Done(m, d)
    case Ok(sub) =>
      match EntryRange(tableAddr, level, i, range)
      case None => Panic
      case Some(subRange) =>
        match CleanUpTable(m, sub, next, subRange, d)
        case Panic => Panic
        case Done(m1, (d1, empty)) =>
          if !empty then Done(m1, d1)
          else
            var e := EntryOf(m1, t, i);
            match EntryFrame(e)
            case Err(_) => Panic
            case Ok(frame) => Done(SetEntry(m1, t, i, SetUnused(e)), DeallocateFrame(d1, frame))
  }

  /** `clean_up_addr_range`: the inner `clean_up` on the level-4 table over the range; its
      verdict on the level-4 table is dropped, so the level-4 table itself is never freed. */
  function CleanUpAddrRange(m: Machine, range: PageRangeInclusive, d: FrameDeallocator)
    : (r: Outcome<FrameDeallocator>)
    requires Is4KiBRange(range)
    ensures InclusiveIsEmpty(range) ==> r == Done(m, d)
    ensures r.Done? ==> r.machine.allocator == m.allocator
    ensures r.Done? ==> forall u: TableRef, j: PageTableIndex ::
      EntryOf(r.machine, u, j) == EntryOf(m, u, j) || IsUnused(EntryOf(r.machine, u, j))
  {
    match CleanUpTable(m, Root, Four, range, d)
    case Panic => Panic
    case Done(m1, (d1, _)) => Done(m1, d1)
  }

  /** The range `clean_up` covers: every 4 KiB page, from address 0 to `0xffff_ffff_ffff_f000`. */
  function WholeRange(): (r: PageRangeInclusive)
    ensures Is4KiBRange(r) && !InclusiveIsEmpty(r)
    ensures r.start.start == 0 && r.end.start == 0xffff_ffff_ffff_f000
  {
    PageRangeInclusive(RawPage(Size4KiB, 0), RawPage(Size4KiB, 0xffff_ffff_ffff_f000))
  }

  /** `CleanUp::clean_up`: `clean_up_addr_range` over the whole address space. */
  function CleanUp(m: Machine, d: FrameDeallocator): Outcome<FrameDeallocator>
  {
    CleanUpAddrRange(m, WholeRange(), d)
  }

  /** Entry `j` of table `u` named the 4 KiB frame `f` in `m` and is unused in `m2`. */
  predicate ClearedEntry(m: Machine, m2: Machine, u: TableRef, j: PageTableIndex, f: PhysFrame)
  {
    EntryFrame(EntryOf(m, u, j)) == Ok(f) && IsUnused(EntryOf(m2, u, j))
  }

  /** Some entry that named `f` in `m` is unused in `m2`. */
  ghost predicate Cleared(m: Machine, m2: Machine, f: PhysFrame)
  {
    exists u: TableRef, j: PageTableIndex :: ClearedEntry(m, m2, u, j, f)
  }

  /** What cleaning up from `m` to `m2` may do, with the deallocator going from `d` to `d2`: the
      deallocator only gains frames; every entry that changed is now unused, named a 4 KiB frame
      before, and that frame was deallocated; and every frame deallocated is the frame of an
      entry that is now unused. */
  ghost predicate CleansUp(m: Machine, m2: Machine, d: FrameDeallocator, d2: FrameDeallocator)
  {
    && |d.freed| <= |d2.freed| && d2.freed[..|d.freed|] == d.freed
    && (forall u: TableRef, j: PageTableIndex :: EntryOf(m2, u, j) != EntryOf(m, u, j) ==>
          && IsUnused(EntryOf(m2, u, j))
          && EntryFrame(EntryOf(m, u, j)).Ok?
          && EntryFrame(EntryOf(m, u, j)).value in d2.freed[|d.freed|..])
    && (forall k :: |d.freed| <= k < |d2.freed| ==> Cleared(m, m2, d2.freed[k]))
    && (forall k :: |d.freed| <= k < |d2.freed| ==> FreedTableEmpty(m2, d2.freed[k]))
  }

  /** The table in frame `f` has no used entry. */
  predicate FreedTableEmpty(m: Machine, f: PhysFrame)
  {
    AllUnused(TableOf(m, InFrame(f.start)))
  }

  /** A table with no used entry keeps none when entries only ever become unused. */
  lemma StaysEmpty(m: Machine, m2: Machine, f: PhysFrame)
    requires FreedTableEmpty(m, f) && OnlyClears(m, m2)
    ensures FreedTableEmpty(m2, f)
  {
    var t, t2 := TableOf(m, InFrame(f.start)), TableOf(m2, InFrame(f.start));
    AllUnusedMeansEvery(t);
    AllUnusedMeansEvery(t2);
    forall j | 0 <= j < |t2|
      ensures IsUnused(t2[j])
    {
      assert EntryOf(m2, InFrame(f.start), j) == t2[j];
    }
  }

  /** Doing nothing cleans up. */
  lemma CleansUpNothing(m: Machine, d: FrameDeallocator)
    ensures CleansUp(m, m, d, d)
  {
    assert d.freed[..|d.freed|] == d.freed;
  }

  /** Clearing one entry that names a 4 KiB frame whose table has no used entry, and deallocating
      that frame, cleans up. */
  lemma CleansUpOne(m: Machine, t: TableRef, i: PageTableIndex, d: FrameDeallocator)
    requires EntryFrame(EntryOf(m, t, i)).Ok?
    requires FreedTableEmpty(m, EntryFrame(EntryOf(m, t, i)).value)
    ensures var f := EntryFrame(EntryOf(m, t, i)).value;
      CleansUp(m, SetEntry(m, t, i, SetUnused(EntryOf(m, t, i))), d, DeallocateFrame(d, f))
  {
    var f := EntryFrame(EntryOf(m, t, i)).value;
    var m2 := SetEntry(m, t, i, SetUnused(EntryOf(m, t, i)));
    var d2 := DeallocateFrame(d, f);
    assert d2.freed[|d.freed|..] == [f];
    ClearOneChanges(m, t, i);
    assert Cleared(m, m2, f) by {
      assert ClearedEntry(m, m2, t, i, f);
    }
    StaysEmpty(m, m2, f);
  }

  /** Every entry of `m2` is the one in `m` or unused. */
  ghost predicate OnlyClears(m: Machine, m2: Machine)
  {
    forall u: TableRef, j: PageTableIndex ::
      EntryOf(m2, u, j) == EntryOf(m, u, j) || IsUnused(EntryOf(m2, u, j))
  }

  /** Clearing one entry changes that entry alone, and only clears it. */
  lemma ClearOneChanges(m: Machine, t: TableRef, i: PageTableIndex)
    ensures var m2 := SetEntry(m, t, i, SetUnused(EntryOf(m, t, i)));
      && OnlyClears(m, m2)
      && forall u: TableRef, j: PageTableIndex :: EntryOf(m2, u, j) != EntryOf(m, u, j) ==>
           u == t && j == i
  {
  }

  /** Two clean-ups in a row are one clean-up. */
  lemma CleansUpChains(m1: Machine, m2: Machine, m3: Machine,
                       d1: FrameDeallocator, d2: FrameDeallocator, d3: FrameDeallocator)
    requires CleansUp(m1, m2, d1, d2) && CleansUp(m2, m3, d2, d3)
    ensures CleansUp(m1, m3, d1, d3)
  {
    var n1, n2 := |d1.freed|, |d2.freed|;
    assert d3.freed[..n1] == d1.freed by {
      assert d3.freed[..n1] == d3.freed[..n2][..n1];
    }
    ChainedChanges(m1, m2, m3, d1, d2, d3);
    assert OnlyClears(m1, m2) && OnlyClears(m2, m3);
    forall k | n1 <= k < |d3.freed|
      ensures Cleared(m1, m3, d3.freed[k]) && FreedTableEmpty(m3, d3.freed[k])
    {
      if k < n2 {
        assert d2.freed[k] == d3.freed[k];
        FreedEarlier(m1, m2, m3, d3.freed[k]);
      } else {
        FreedLater(m1, m2, m3, d3.freed[k]);
      }
    }
  }

  /** The entries two clean-ups in a row change are the ones a single clean-up may change. */
  lemma ChainedChanges(m1: Machine, m2: Machine, m3: Machine,
                       d1: FrameDeallocator, d2: FrameDeallocator, d3: FrameDeallocator)
    requires CleansUp(m1, m2, d1, d2) && CleansUp(m2, m3, d2, d3)
    ensures forall u: TableRef, j: PageTableIndex :: EntryOf(m3, u, j) != EntryOf(m1, u, j) ==>
      && IsUnused(EntryOf(m3, u, j))
      && EntryFrame(EntryOf(m1, u, j)).Ok?
      && EntryFrame(EntryOf(m1, u, j)).value in d3.freed[|d1.freed|..]
  {
    var n1, n2 := |d1.freed|, |d2.freed|;
    forall u: TableRef, j: PageTableIndex | EntryOf(m3, u, j) != EntryOf(m1, u, j)
      ensures IsUnused(EntryOf(m3, u, j)) && EntryFrame(EntryOf(m1, u, j)).Ok?
      ensures EntryFrame(EntryOf(m1, u, j)).value in d3.freed[n1..]
    {
      if EntryOf(m2, u, j) != EntryOf(m1, u, j) {
        var f := EntryFrame(EntryOf(m1, u, j)).value;
        var k :| n1 <= k < n2 && d2.freed[k] == f;
        assert d3.freed[k] == d2.freed[k];
      } else {
        var f := EntryFrame(EntryOf(m2, u, j)).value;
        var k :| n2 <= k < |d3.freed| && d3.freed[k] == f;
      }
    }
  }

  /** A frame the first of two clean-ups freed is still accounted for after the second, which
      only clears entries. */
  lemma FreedEarlier(m1: Machine, m2: Machine, m3: Machine, f: PhysFrame)
    requires Cleared(m1, m2, f) && FreedTableEmpty(m2, f) && OnlyClears(m2, m3)
    ensures Cleared(m1, m3, f) && FreedTableEmpty(m3, f)
  {
    var u: TableRef, j: PageTableIndex :| ClearedEntry(m1, m2, u, j, f);
    assert ClearedEntry(m1, m3, u, j, f);
    StaysEmpty(m2, m3, f);
  }

  /** A frame the second of two clean-ups freed was named by the same entry before the first. */
  lemma FreedLater(m1: Machine, m2: Machine, m3: Machine, f: PhysFrame)
    requires Cleared(m2, m3, f) && OnlyClears(m1, m2)
    ensures Cleared(m1, m3, f)
  {
    var u: TableRef, j: PageTableIndex :| ClearedEntry(m2, m3, u, j, f);
    UnusedParts(EntryOf(m2, u, j));
    assert ClearedEntry(m1, m3, u, j, f);
  }

  /** The inner `clean_up` only clears entries that named a 4 KiB frame, and deallocates
      exactly the frames of the entries it cleared. */
  lemma {:induction false} CleanUpTableCleansUp(m: Machine, t: TableRef, level: PageTableLevel,
                                                range: PageRangeInclusive, d: FrameDeallocator)
    requires Is4KiBRange(range) && CleanUpTable(m, t, level, range, d).Done?
    ensures var r := CleanUpTable(m, t, level, range, d);
      CleansUp(m, r.machine, d, r.value.0)
    decreases LevelNumber(level), 1, 0
  {
    if InclusiveIsEmpty(range) || NextLowerLevel(level).None? {
      CleansUpNothing(m, d);
    } else {
      var tableAddr := TableAddr(level, range);
      var first, last := PageTableIndexOf(range.start, level), PageTableIndexOf(range.end, level);
      var next := NextLowerLevel(level).value;
      CleanUpEntriesCleansUp(m, t, level, next, range, tableAddr, first, last, d);
    }
  }

  /** The same for the loop over a table's entries. */
  lemma {:induction false} CleanUpEntriesCleansUp(m: Machine, t: TableRef, level: PageTableLevel,
                                                  next: PageTableLevel, range: PageRangeInclusive,
                                                  tableAddr: u64, i: nat, last: PageTableIndex,
                                                  d: FrameDeallocator)
    requires Is4KiBRange(range) && NextLowerLevel(level) == Some(next)
    requires CleanUpEntries(m, t, level, next, range, tableAddr, i, last, d).Done?
    ensures var r := CleanUpEntries(m, t, level, next, range, tableAddr, i, last, d);
      CleansUp(m, r.machine, d, r.value)
    decreases LevelNumber(level), 0, last + 1 - i
  {
    if i > last {
      CleansUpNothing(m, d);
    } else {
      var step := CleanUpEntry(m, t, level, next, range, tableAddr, i, d);
      CleanUpEntryCleansUp(m, t, level, next, range, tableAddr, i, d);
      var rest := CleanUpEntries(step.machine, t, level, next, range, tableAddr, i + 1, last, step.value);
      CleanUpEntriesCleansUp(step.machine, t, level, next, range, tableAddr, i + 1, last, step.value);
      CleansUpChains(m, step.machine, rest.machine, d, step.value, rest.value);
    }
  }

  /** The same for one round of that loop. */
  lemma {:induction false} CleanUpEntryCleansUp(m: Machine, t: TableRef, level: PageTableLevel,
                                                next: PageTableLevel, range: PageRangeInclusive,
                                                tableAddr: u64, i: PageTableIndex,
                                                d: FrameDeallocator)
    requires Is4KiBRange(range) && NextLowerLevel(level) == Some(next)
    requires CleanUpEntry(m, t, level, next, range, tableAddr, i, d).Done?
    ensures var r := CleanUpEntry(m, t, level, next, range, tableAddr, i, d);
      CleansUp(m, r.machine, d, r.value)
    decreases LevelNumber(level), 0, 0
  {
    match NextTable(m, t, i)
    case Err(_) =>
      CleansUpNothing(m, d);
    case Ok(sub) =>
      var subRange := EntryRange(tableAddr, level, i, range).value;
      var inner := CleanUpTable(m, sub, next, subRange, d);
      CleanUpTableCleansUp(m, sub, next, subRange, d);
      var m1, d1 := inner.machine, inner.value.0;
      if inner.value.1 {
        UnusedParts(EntryOf(m1, t, i));
        assert EntryOf(m1, t, i) == EntryOf(m, t, i);
        CleansUpOne(m1, t, i, d1);
        var f := EntryFrame(EntryOf(m1, t, i)).value;
        CleansUpChains(m, m1, SetEntry(m1, t, i, SetUnused(EntryOf(m1, t, i))),
                       d, d1, DeallocateFrame(d1, f));
      }
  }

  /** `clean_up_addr_range` only clears entries that named a 4 KiB frame, and hands the
      deallocator exactly the frames of the entries it cleared. */
  lemma CleanUpAddrRangeCleansUp(m: Machine, range: PageRangeInclusive, d: FrameDeallocator)
    requires Is4KiBRange(range) && CleanUpAddrRange(m, range, d).Done?
    ensures var r := CleanUpAddrRange(m, range, d);
      CleansUp(m, r.machine, d, r.value)
  {
    CleanUpTableCleansUp(m, Root, Four, range, d);
  }
}
