/** What `CleanUp::clean_up_addr_range` leaves behind (`mapper/mod.rs`, `mapper/mapped_page_table.rs`):
    once it returns, no present entry in the range leads to a lower table with no used entry, so a
    second run over the same range frees nothing and changes nothing.

    This rests on the demand the trait's safety section makes of its callers: every page-table frame
    is used once only. Here that is `UsedOnce`: below a table, the tables reached through different
    entries are different, and no table reaches itself. */
module CleanUpSettles {
  import opened Wrappers
  import opened Words
  import opened TableIndex
  import opened Pages
  import opened Tables
  import opened FrameAlloc
  import opened MappedTables
  import opened MappedCleanUp

  /** The tables strictly below table `t` of `level` that the inner `clean_up` over `range`
      descends into. */
  ghost function TablesBelow(m: Machine, t: TableRef, level: PageTableLevel, range: PageRangeInclusive)
    : set<TableRef>
    requires Is4KiBRange(range)
    decreases LevelNumber(level), 1, 0
  {
    if InclusiveIsEmpty(range) then {}
    else
      match NextLowerLevel(level)
      case None => {}
      case Some(next) =>
        TablesBelowFrom(m, t, level, next, range, TableAddr(level, range),
                        PageTableIndexOf(range.start, level), PageTableIndexOf(range.end, level))
  }

  /** The tables below entries `i..=last` of table `t`. */
  ghost function TablesBelowFrom(m: Machine, t: TableRef, level: PageTableLevel, next: PageTableLevel,
                                 range: PageRangeInclusive, tableAddr: u64, i: nat,
                                 last: PageTableIndex)
    : set<TableRef>
    requires Is4KiBRange(range) && NextLowerLevel(level) == Some(next)
    decreases LevelNumber(level), 0, last + 1 - i
  {
    if i > last then {}
    else
      Subtree(m, t, level, next, range, tableAddr, i)
      + TablesBelowFrom(m, t, level, next, range, tableAddr, i + 1, last)
  }

  /** The table entry `i` of `t` leads to, with the tables below it, when the inner `clean_up`
      descends into it. */
  ghost function Subtree(m: Machine, t: TableRef, level: PageTableLevel, next: PageTableLevel,
                         range: PageRangeInclusive, tableAddr: u64, i: PageTableIndex)
    : set<TableRef>
    requires Is4KiBRange(range) && NextLowerLevel(level) == Some(next)
    decreases LevelNumber(level), 0, 0
  {
    match NextTable(m, t, i)
    case Err(_) => {}
    case Ok(sub) =>
      match EntryRange(tableAddr, level, i, range)
      case None => {}
      case Some(subRange) => {sub} + TablesBelow(m, sub, next, subRange)
  }

  /** The tables below `t` form a tree: `t` is not among them, the subtrees of different entries
      share no table, and so on all the way down. */
  ghost predicate UsedOnce(m: Machine, t: TableRef, level: PageTableLevel, range: PageRangeInclusive)
    requires Is4KiBRange(range)
    decreases LevelNumber(level), 1, 0
  {
    if InclusiveIsEmpty(range) then true
    else
      match NextLowerLevel(level)
      case None => true
      case Some(next) =>
        var tableAddr := TableAddr(level, range);
        var first, last := PageTableIndexOf(range.start, level), PageTableIndexOf(range.end, level);
        && t !in TablesBelowFrom(m, t, level, next, range, tableAddr, first, last)
        && UsedOnceFrom(m, t, level, next, range, tableAddr, first, last)
  }

  /** `UsedOnce` for the entries `i..=last`. */
  ghost predicate UsedOnceFrom(m: Machine, t: TableRef, level: PageTableLevel, next: PageTableLevel,
                               range: PageRangeInclusive, tableAddr: u64, i: nat,
                               last: PageTableIndex)
    requires Is4KiBRange(range) && NextLowerLevel(level) == Some(next)
    decreases LevelNumber(level), 0, last + 1 - i
  {
    if i > last then true
    else
      && SubtreeUsedOnce(m, t, level, next, range, tableAddr, i)
      && Subtree(m, t, level, next, range, tableAddr, i)
         !! TablesBelowFrom(m, t, level, next, range, tableAddr, i + 1, last)
      && UsedOnceFrom(m, t, level, next, range, tableAddr, i + 1, last)
  }

  /** `UsedOnce` for the table entry `i` leads to. */
  ghost predicate SubtreeUsedOnce(m: Machine, t: TableRef, level: PageTableLevel,
                                  next: PageTableLevel, range: PageRangeInclusive, tableAddr: u64,
                                  i: PageTableIndex)
    requires Is4KiBRange(range) && NextLowerLevel(level) == Some(next)
    decreases LevelNumber(level), 0, 0
  {
    match NextTable(m, t, i)
    case Err(_) => true
    case Ok(sub) =>
      match EntryRange(tableAddr, level, i, range)
      case None => true
      case Some(subRange) => UsedOnce(m, sub, next, subRange)
  }

  /** Nothing is left to clean below `t`: every entry in the range that leads to a lower table
      leads to one that is itself left clean and, unless its part of the range is empty, still has
      a used entry. */
  ghost predicate NothingToClean(m: Machine, t: TableRef, level: PageTableLevel,
                                 range: PageRangeInclusive)
    requires Is4KiBRange(range)
    decreases LevelNumber(level), 1, 0
  {
    if InclusiveIsEmpty(range) then true
    else
      match NextLowerLevel(level)
      case None => true
      case Some(next) =>
        NothingToCleanFrom(m, t, level, next, range, TableAddr(level, range),
                           PageTableIndexOf(range.start, level), PageTableIndexOf(range.end, level))
  }

  /** `NothingToClean` for the entries `i..=last`. */
  ghost predicate NothingToCleanFrom(m: Machine, t: TableRef, level: PageTableLevel,
                                     next: PageTableLevel, range: PageRangeInclusive,
                                     tableAddr: u64, i: nat, last: PageTableIndex)
    requires Is4KiBRange(range) && NextLowerLevel(level) == Some(next)
    decreases LevelNumber(level), 0, last + 1 - i
  {
    if i > last then true
    else
      && EntryLeftClean(m, t, level, next, range, tableAddr, i)
      && NothingToCleanFrom(m, t, level, next, range, tableAddr, i + 1, last)
  }

  /** Entry `i` of `t` leads to no table, or to one with nothing left to clean that the inner
      `clean_up` would not report empty. */
  ghost predicate EntryLeftClean(m: Machine, t: TableRef, level: PageTableLevel,
                                 next: PageTableLevel, range: PageRangeInclusive, tableAddr: u64,
                                 i: PageTableIndex)
    requires Is4KiBRange(range) && NextLowerLevel(level) == Some(next)
    decreases LevelNumber(level), 0, 0
  {
    match NextTable(m, t, i)
    case Err(_) => true
    case Ok(sub) =>
      match EntryRange(tableAddr, level, i, range)
      case None => false
      case Some(subRange) =>
        && NothingToClean(m, sub, next, subRange)
        && (InclusiveIsEmpty(subRange) || !AllUnused(TableOf(m, sub)))
  }

  /** A table with nothing left to clean is left alone: no entry changes, no frame is freed, and
      the inner `clean_up` reports whether the table has no used entry. */
  lemma {:induction false} LeftAloneWhenClean(m: Machine, t: TableRef, level: PageTableLevel,
                                              range: PageRangeInclusive, d: FrameDeallocator)
    requires Is4KiBRange(range) && NothingToClean(m, t, level, range)
    ensures CleanUpTable(m, t, level, range, d)
      == Done(m, (d, !InclusiveIsEmpty(range) && AllUnused(TableOf(m, t))))
    decreases LevelNumber(level), 1, 0
  {
    if !InclusiveIsEmpty(range) && NextLowerLevel(level).Some? {
      EntriesLeftAlone(m, t, level, NextLowerLevel(level).value, range, TableAddr(level, range),
                       PageTableIndexOf(range.start, level), PageTableIndexOf(range.end, level), d);
    }
  }

  /** The same for the loop over entries `i..=last`. */
  lemma {:induction false} EntriesLeftAlone(m: Machine, t: TableRef, level: PageTableLevel,
                                            next: PageTableLevel, range: PageRangeInclusive,
                                            tableAddr: u64, i: nat, last: PageTableIndex,
                                            d: FrameDeallocator)
    requires Is4KiBRange(range) && NextLowerLevel(level) == Some(next)
    requires NothingToCleanFrom(m, t, level, next, range, tableAddr, i, last)
    ensures CleanUpEntries(m, t, level, next, range, tableAddr, i, last, d) == Done(m, d)
    decreases LevelNumber(level), 0, last + 1 - i
  {
    if i <= last {
      EntriesIs(m, t, level, next, range, tableAddr, i, last, d);
      EntryLeftAlone(m, t, level, next, range, tableAddr, i, d);
      EntriesLeftAlone(m, t, level, next, range, tableAddr, i + 1, last, d);
    }
  }

  /** One round of the entry loop, unfolded. */
  lemma EntriesIs(m: Machine, t: TableRef, level: PageTableLevel, next: PageTableLevel,
                  range: PageRangeInclusive, tableAddr: u64, i: nat, last: PageTableIndex,
                  d: FrameDeallocator)
    requires Is4KiBRange(range) && NextLowerLevel(level) == Some(next) && i <= last
    ensures var r := CleanUpEntry(m, t, level, next, range, tableAddr, i, d);
      CleanUpEntries(m, t, level, next, range, tableAddr, i, last, d)
      == if r.Panic? then Panic
         else CleanUpEntries(r.machine, t, level, next, range, tableAddr, i + 1, last, r.value)
  {
  }

  /** The same for one entry. */
  lemma {:induction false} EntryLeftAlone(m: Machine, t: TableRef, level: PageTableLevel,
                                          next: PageTableLevel, range: PageRangeInclusive,
                                          tableAddr: u64, i: PageTableIndex, d: FrameDeallocator)
    requires Is4KiBRange(range) && NextLowerLevel(level) == Some(next)
    requires EntryLeftClean(m, t, level, next, range, tableAddr, i)
    ensures CleanUpEntry(m, t, level, next, range, tableAddr, i, d) == Done(m, d)
    decreases LevelNumber(level), 0, 0
  {
    match NextTable(m, t, i)
    case Err(_) =>
    case Ok(sub) =>
      LeftAloneWhenClean(m, sub, next, EntryRange(tableAddr, level, i, range).value, d);
  }

  /** Clearing entries only cuts tables off: the tables below `t` are among those that were below
      it before. */
  lemma {:induction false} TablesBelowShrink(m: Machine, m2: Machine, t: TableRef,
                                             level: PageTableLevel, range: PageRangeInclusive)
    requires Is4KiBRange(range) && OnlyClears(m, m2)
    ensures TablesBelow(m2, t, level, range) <= TablesBelow(m, t, level, range)
    decreases LevelNumber(level), 1, 0
  {
    if !InclusiveIsEmpty(range) && NextLowerLevel(level).Some? {
      TablesBelowFromShrink(m, m2, t, level, NextLowerLevel(level).value, range,
                            TableAddr(level, range), PageTableIndexOf(range.start, level),
                            PageTableIndexOf(range.end, level));
    }
  }

  /** The same below entries `i..=last`. */
  lemma {:induction false} TablesBelowFromShrink(m: Machine, m2: Machine, t: TableRef,
                                                 level: PageTableLevel, next: PageTableLevel,
                                                 range: PageRangeInclusive, tableAddr: u64, i: nat,
                                                 last: PageTableIndex)
    requires Is4KiBRange(range) && NextLowerLevel(level) == Some(next) && OnlyClears(m, m2)
    ensures TablesBelowFrom(m2, t, level, next, range, tableAddr, i, last)
      <= TablesBelowFrom(m, t, level, next, range, tableAddr, i, last)
    decreases LevelNumber(level), 0, last + 1 - i
  {
    if i <= last {
      SubtreeShrinks(m, m2, t, level, next, range, tableAddr, i);
      TablesBelowFromShrink(m, m2, t, level, next, range, tableAddr, i + 1, last);
    }
  }

  /** The same below one entry. */
  lemma {:induction false} SubtreeShrinks(m: Machine, m2: Machine, t: TableRef,
                                          level: PageTableLevel, next: PageTableLevel,
                                          range: PageRangeInclusive, tableAddr: u64,
                                          i: PageTableIndex)
    requires Is4KiBRange(range) && NextLowerLevel(level) == Some(next) && OnlyClears(m, m2)
    ensures Subtree(m2, t, level, next, range, tableAddr, i)
      <= Subtree(m, t, level, next, range, tableAddr, i)
    decreases LevelNumber(level), 0, 0
  {
    SubtreeIs(m2, t, level, next, range, tableAddr, i);
    if NextTable(m2, t, i).Ok? && EntryRange(tableAddr, level, i, range).Some? {
      FollowedEntryKept(m, m2, t, i);
      SubtreeIs(m, t, level, next, range, tableAddr, i);
      TablesBelowShrink(m, m2, NextTable(m2, t, i).value, next,
                        EntryRange(tableAddr, level, i, range).value);
    }
  }

  /** `Subtree` unfolded once. */
  lemma SubtreeIs(m: Machine, t: TableRef, level: PageTableLevel, next: PageTableLevel,
                  range: PageRangeInclusive, tableAddr: u64, i: PageTableIndex)
    requires Is4KiBRange(range) && NextLowerLevel(level) == Some(next)
    ensures Subtree(m, t, level, next, range, tableAddr, i)
      == if NextTable(m, t, i).Ok? && EntryRange(tableAddr, level, i, range).Some?
         then {NextTable(m, t, i).value}
              + TablesBelow(m, NextTable(m, t, i).value, next,
                            EntryRange(tableAddr, level, i, range).value)
         else {}
  {
  }

  /** An entry that still leads to a table after entries were only cleared was not cleared. */
  lemma FollowedEntryKept(m: Machine, m2: Machine, t: TableRef, i: PageTableIndex)
    requires OnlyClears(m, m2) && NextTable(m2, t, i).Ok?
    ensures EntryOf(m2, t, i) == EntryOf(m, t, i) && NextTable(m, t, i) == NextTable(m2, t, i)
  {
    UnusedParts(EntryOf(m2, t, i));
  }

  /** The inner `clean_up` on `t` writes only entries of `t` and of the tables below it. */
  lemma {:induction false} CleanUpTableWrites(m: Machine, t: TableRef, level: PageTableLevel,
                                              range: PageRangeInclusive, d: FrameDeallocator)
    requires Is4KiBRange(range) && CleanUpTable(m, t, level, range, d).Done?
    ensures var m2 := CleanUpTable(m, t, level, range, d).machine;
      forall u: TableRef, j: PageTableIndex :: EntryOf(m2, u, j) != EntryOf(m, u, j) ==>
        u == t || u in TablesBelow(m, t, level, range)
    decreases LevelNumber(level), 1, 0
  {
    if !InclusiveIsEmpty(range) && NextLowerLevel(level).Some? {
      CleanUpEntriesWrites(m, t, level, NextLowerLevel(level).value, range, TableAddr(level, range),
                           PageTableIndexOf(range.start, level), PageTableIndexOf(range.end, level),
                           d);
    }
  }

  /** The loop over entries `i..=last` writes only those entries of `t` and the tables below
      them. */
  lemma {:induction false} CleanUpEntriesWrites(m: Machine, t: TableRef, level: PageTableLevel,
                                                next: PageTableLevel, range: PageRangeInclusive,
                                                tableAddr: u64, i: nat, last: PageTableIndex,
                                                d: FrameDeallocator)
    requires Is4KiBRange(range) && NextLowerLevel(level) == Some(next)
    requires CleanUpEntries(m, t, level, next, range, tableAddr, i, last, d).Done?
    ensures var m2 := CleanUpEntries(m, t, level, next, range, tableAddr, i, last, d).machine;
      forall u: TableRef, j: PageTableIndex :: EntryOf(m2, u, j) != EntryOf(m, u, j) ==>
        (u == t && i <= j <= last) || u in TablesBelowFrom(m, t, level, next, range, tableAddr, i, last)
    decreases LevelNumber(level), 0, last + 1 - i
  {
    if i <= last {
      var step := CleanUpEntry(m, t, level, next, range, tableAddr, i, d);
      var rest := CleanUpEntries(step.machine, t, level, next, range, tableAddr, i + 1, last,
                                 step.value);
      var here := Subtree(m, t, level, next, range, tableAddr, i);
      var later := TablesBelowFrom(m, t, level, next, range, tableAddr, i + 1, last);
      assert TablesBelowFrom(m, t, level, next, range, tableAddr, i, last) == here + later;
      CleanUpEntryWrites(m, t, level, next, range, tableAddr, i, d);
      CleanUpEntriesWrites(step.machine, t, level, next, range, tableAddr, i + 1, last, step.value);
      TablesBelowFromShrink(m, step.machine, t, level, next, range, tableAddr, i + 1, last);
      WritesCompose(m, step.machine, rest.machine, t, i, last, here, later,
                    TablesBelowFrom(step.machine, t, level, next, range, tableAddr, i + 1, last));
    }
  }

  /** Writing entry `i` of `t` and tables of `here`, then later entries of `t` and tables of
      `later`, writes entries `i..=last` of `t` and tables of both. */
  lemma WritesCompose(m: Machine, m1: Machine, m2: Machine, t: TableRef, i: nat,
                      last: PageTableIndex, here: set<TableRef>, later: set<TableRef>,
                      later1: set<TableRef>)
    requires forall u: TableRef, j: PageTableIndex :: EntryOf(m1, u, j) != EntryOf(m, u, j) ==>
      (u == t && j == i) || u in here
    requires forall u: TableRef, j: PageTableIndex :: EntryOf(m2, u, j) != EntryOf(m1, u, j) ==>
      (u == t && i + 1 <= j <= last) || u in later1
    requires later1 <= later && i <= last
    ensures forall u: TableRef, j: PageTableIndex :: EntryOf(m2, u, j) != EntryOf(m, u, j) ==>
      (u == t && i <= j <= last) || u in here + later
  {
    forall u: TableRef, j: PageTableIndex | EntryOf(m2, u, j) != EntryOf(m, u, j)
      ensures (u == t && i <= j <= last) || u in here + later
    {
      if EntryOf(m1, u, j) == EntryOf(m, u, j) {
        assert EntryOf(m2, u, j) != EntryOf(m1, u, j);
      }
    }
  }

  /** One round writes only entry `i` of `t` and the tables below it. */
  lemma {:induction false} CleanUpEntryWrites(m: Machine, t: TableRef, level: PageTableLevel,
                                              next: PageTableLevel, range: PageRangeInclusive,
                                              tableAddr: u64, i: PageTableIndex, d: FrameDeallocator)
    requires Is4KiBRange(range) && NextLowerLevel(level) == Some(next)
    requires CleanUpEntry(m, t, level, next, range, tableAddr, i, d).Done?
    ensures var m2 := CleanUpEntry(m, t, level, next, range, tableAddr, i, d).machine;
      forall u: TableRef, j: PageTableIndex :: EntryOf(m2, u, j) != EntryOf(m, u, j) ==>
        (u == t && j == i) || u in Subtree(m, t, level, next, range, tableAddr, i)
    decreases LevelNumber(level), 0, 0
  {
    SubtreeIs(m, t, level, next, range, tableAddr, i);
    if NextTable(m, t, i).Err? {
      EntrySkips(m, t, level, next, range, tableAddr, i, d);
    } else {
      EntryDescends(m, t, level, next, range, tableAddr, i, d);
      CleanUpTableWrites(m, NextTable(m, t, i).value, next,
                         EntryRange(tableAddr, level, i, range).value, d);
    }
  }

  /** `m2` holds the same entries as `m` in every table of `s`. */
  ghost predicate AgreeOn(m: Machine, m2: Machine, s: set<TableRef>)
  {
    forall u: TableRef, j: PageTableIndex :: u in s ==> EntryOf(m2, u, j) == EntryOf(m, u, j)
  }

  /** Agreeing on a set of tables is agreeing on each part of it. */
  lemma AgreeOnPart(m: Machine, m2: Machine, s: set<TableRef>, part: set<TableRef>)
    requires AgreeOn(m, m2, s) && part <= s
    ensures AgreeOn(m, m2, part)
  {
  }

  /** Tables whose entries all agree are the same table. */
  lemma SameEntriesSameTable(m: Machine, m2: Machine, s: set<TableRef>, u: TableRef)
    requires AgreeOn(m, m2, s) && u in s
    ensures TableOf(m2, u) == TableOf(m, u)
  {
    forall j | 0 <= j < ENTRY_COUNT
      ensures TableOf(m2, u)[j] == TableOf(m, u)[j]
    {
      assert EntryOf(m2, u, j) == EntryOf(m, u, j);
    }
  }

  /** What lies below `t`, whether it is used once, and whether anything is left to clean, depend
      only on the entries of `t` and of the tables below it. */
  lemma {:induction false} AgreeingTables(m: Machine, m2: Machine, t: TableRef,
                                          level: PageTableLevel, range: PageRangeInclusive)
    requires Is4KiBRange(range) && AgreeOn(m, m2, {t} + TablesBelow(m, t, level, range))
    ensures TablesBelow(m2, t, level, range) == TablesBelow(m, t, level, range)
    ensures UsedOnce(m2, t, level, range) == UsedOnce(m, t, level, range)
    ensures NothingToClean(m2, t, level, range) == NothingToClean(m, t, level, range)
    decreases LevelNumber(level), 1, 0
  {
    if !InclusiveIsEmpty(range) && NextLowerLevel(level).Some? {
      AgreeingEntries(m, m2, t, level, NextLowerLevel(level).value, range, TableAddr(level, range),
                      PageTableIndexOf(range.start, level), PageTableIndexOf(range.end, level));
    }
  }

  /** The same for entries `i..=last` of `t`. */
  lemma {:induction false} AgreeingEntries(m: Machine, m2: Machine, t: TableRef,
                                           level: PageTableLevel, next: PageTableLevel,
                                           range: PageRangeInclusive, tableAddr: u64, i: nat,
                                           last: PageTableIndex)
    requires Is4KiBRange(range) && NextLowerLevel(level) == Some(next)
    requires forall j: PageTableIndex :: i <= j <= last ==> EntryOf(m2, t, j) == EntryOf(m, t, j)
    requires AgreeOn(m, m2, TablesBelowFrom(m, t, level, next, range, tableAddr, i, last))
    ensures TablesBelowFrom(m2, t, level, next, range, tableAddr, i, last)
      == TablesBelowFrom(m, t, level, next, range, tableAddr, i, last)
    ensures UsedOnceFrom(m2, t, level, next, range, tableAddr, i, last)
      == UsedOnceFrom(m, t, level, next, range, tableAddr, i, last)
    ensures NothingToCleanFrom(m2, t, level, next, range, tableAddr, i, last)
      == NothingToCleanFrom(m, t, level, next, range, tableAddr, i, last)
    decreases LevelNumber(level), 0, last + 1 - i
  {
    if i <= last {
      var here := Subtree(m, t, level, next, range, tableAddr, i);
      var later := TablesBelowFrom(m, t, level, next, range, tableAddr, i + 1, last);
      BelowFromIs(m, t, level, next, range, tableAddr, i, last);
      BelowFromIs(m2, t, level, next, range, tableAddr, i, last);
      UsedOnceFromIs(m, t, level, next, range, tableAddr, i, last);
      UsedOnceFromIs(m2, t, level, next, range, tableAddr, i, last);
      CleanFromIs(m, t, level, next, range, tableAddr, i, last);
      CleanFromIs(m2, t, level, next, range, tableAddr, i, last);
      AgreeOnPart(m, m2, here + later, here);
      AgreeOnPart(m, m2, here + later, later);
      AgreeingSubtree(m, m2, t, level, next, range, tableAddr, i);
      AgreeingEntries(m, m2, t, level, next, range, tableAddr, i + 1, last);
    }
  }

  /** The same for entry `i` of `t`. */
  lemma {:induction false} AgreeingSubtree(m: Machine, m2: Machine, t: TableRef,
                                           level: PageTableLevel, next: PageTableLevel,
                                           range: PageRangeInclusive, tableAddr: u64,
                                           i: PageTableIndex)
    requires Is4KiBRange(range) && NextLowerLevel(level) == Some(next)
    requires EntryOf(m2, t, i) == EntryOf(m, t, i)
    requires AgreeOn(m, m2, Subtree(m, t, level, next, range, tableAddr, i))
    ensures Subtree(m2, t, level, next, range, tableAddr, i)
      == Subtree(m, t, level, next, range, tableAddr, i)
    ensures SubtreeUsedOnce(m2, t, level, next, range, tableAddr, i)
      == SubtreeUsedOnce(m, t, level, next, range, tableAddr, i)
    ensures EntryLeftClean(m2, t, level, next, range, tableAddr, i)
      == EntryLeftClean(m, t, level, next, range, tableAddr, i)
    decreases LevelNumber(level), 0, 0
  {
    assert NextTable(m2, t, i) == NextTable(m, t, i);
    SubtreeIs(m, t, level, next, range, tableAddr, i);
    SubtreeIs(m2, t, level, next, range, tableAddr, i);
    SubtreeUsedOnceIs(m, t, level, next, range, tableAddr, i);
    SubtreeUsedOnceIs(m2, t, level, next, range, tableAddr, i);
    LeftCleanIs(m, t, level, next, range, tableAddr, i);
    LeftCleanIs(m2, t, level, next, range, tableAddr, i);
    if NextTable(m, t, i).Ok? && EntryRange(tableAddr, level, i, range).Some? {
      var sub := NextTable(m, t, i).value;
      AgreeingTables(m, m2, sub, next, EntryRange(tableAddr, level, i, range).value);
      SameEntriesSameTable(m, m2, Subtree(m, t, level, next, range, tableAddr, i), sub);
    }
  }

  /** `TablesBelowFrom` unfolded once. */
  lemma BelowFromIs(m: Machine, t: TableRef, level: PageTableLevel, next: PageTableLevel,
                    range: PageRangeInclusive, tableAddr: u64, i: nat, last: PageTableIndex)
    requires Is4KiBRange(range) && NextLowerLevel(level) == Some(next) && i <= last
    ensures TablesBelowFrom(m, t, level, next, range, tableAddr, i, last)
      == Subtree(m, t, level, next, range, tableAddr, i)
         + TablesBelowFrom(m, t, level, next, range, tableAddr, i + 1, last)
  {
  }

  /** `UsedOnceFrom` unfolded once. */
  lemma UsedOnceFromIs(m: Machine, t: TableRef, level: PageTableLevel, next: PageTableLevel,
                       range: PageRangeInclusive, tableAddr: u64, i: nat, last: PageTableIndex)
    requires Is4KiBRange(range) && NextLowerLevel(level) == Some(next) && i <= last
    ensures UsedOnceFrom(m, t, level, next, range, tableAddr, i, last)
      == (&& SubtreeUsedOnce(m, t, level, next, range, tableAddr, i)
          && Subtree(m, t, level, next, range, tableAddr, i)
             !! TablesBelowFrom(m, t, level, next, range, tableAddr, i + 1, last)
          && UsedOnceFrom(m, t, level, next, range, tableAddr, i + 1, last))
  {
  }

  /** `NothingToCleanFrom` unfolded once. */
  lemma CleanFromIs(m: Machine, t: TableRef, level: PageTableLevel, next: PageTableLevel,
                    range: PageRangeInclusive, tableAddr: u64, i: nat, last: PageTableIndex)
    requires Is4KiBRange(range) && NextLowerLevel(level) == Some(next) && i <= last
    ensures NothingToCleanFrom(m, t, level, next, range, tableAddr, i, last)
      == (&& EntryLeftClean(m, t, level, next, range, tableAddr, i)
          && NothingToCleanFrom(m, t, level, next, range, tableAddr, i + 1, last))
  {
  }

  /** `SubtreeUsedOnce` unfolded. */
  lemma SubtreeUsedOnceIs(m: Machine, t: TableRef, level: PageTableLevel, next: PageTableLevel,
                          range: PageRangeInclusive, tableAddr: u64, i: PageTableIndex)
    requires Is4KiBRange(range) && NextLowerLevel(level) == Some(next)
    ensures SubtreeUsedOnce(m, t, level, next, range, tableAddr, i)
      == if NextTable(m, t, i).Ok? && EntryRange(tableAddr, level, i, range).Some?
         then UsedOnce(m, NextTable(m, t, i).value, next,
                       EntryRange(tableAddr, level, i, range).value)
         else true
  {
  }

  /** On tables used once, the inner `clean_up` leaves nothing to clean below `t`. */
  lemma {:induction false} CleanUpTableSettles(m: Machine, t: TableRef, level: PageTableLevel,
                                               range: PageRangeInclusive, d: FrameDeallocator)
    requires Is4KiBRange(range) && UsedOnce(m, t, level, range)
    requires CleanUpTable(m, t, level, range, d).Done?
    ensures NothingToClean(CleanUpTable(m, t, level, range, d).machine, t, level, range)
    decreases LevelNumber(level), 1, 0
  {
    if !InclusiveIsEmpty(range) && NextLowerLevel(level).Some? {
      CleanUpEntriesSettle(m, t, level, NextLowerLevel(level).value, range, TableAddr(level, range),
                           PageTableIndexOf(range.start, level), PageTableIndexOf(range.end, level),
                           d);
    }
  }

  /** The same for the loop over entries `i..=last`: each round settles its own entry, and the
      later rounds, which touch neither that entry nor the tables below it, keep it settled. */
  lemma {:induction false} CleanUpEntriesSettle(m: Machine, t: TableRef, level: PageTableLevel,
                                                next: PageTableLevel, range: PageRangeInclusive,
                                                tableAddr: u64, i: nat, last: PageTableIndex,
                                                d: FrameDeallocator)
    requires Is4KiBRange(range) && NextLowerLevel(level) == Some(next)
    requires t !in TablesBelowFrom(m, t, level, next, range, tableAddr, i, last)
    requires UsedOnceFrom(m, t, level, next, range, tableAddr, i, last)
    requires CleanUpEntries(m, t, level, next, range, tableAddr, i, last, d).Done?
    ensures NothingToCleanFrom(CleanUpEntries(m, t, level, next, range, tableAddr, i, last, d).machine,
                               t, level, next, range, tableAddr, i, last)
    decreases LevelNumber(level), 0, last + 1 - i
  {
    if i <= last {
      var step := CleanUpEntry(m, t, level, next, range, tableAddr, i, d);
      EntriesIs(m, t, level, next, range, tableAddr, i, last, d);
      CleanFromIs(CleanUpEntries(m, t, level, next, range, tableAddr, i, last, d).machine, t, level,
                  next, range, tableAddr, i, last);
      BelowFromIs(m, t, level, next, range, tableAddr, i, last);
      UsedOnceFromIs(m, t, level, next, range, tableAddr, i, last);
      StepKeepsLater(m, t, level, next, range, tableAddr, i, last, d);
      CleanUpEntriesSettle(step.machine, t, level, next, range, tableAddr, i + 1, last, step.value);
      CleanUpEntrySettles(m, t, level, next, range, tableAddr, i, d);
      RestKeepsEntry(m, t, level, next, range, tableAddr, i, last, d);
    }
  }

  /** One round leaves the later entries of `t` and the tables below them as they were. */
  lemma StepKeepsLater(m: Machine, t: TableRef, level: PageTableLevel, next: PageTableLevel,
                       range: PageRangeInclusive, tableAddr: u64, i: PageTableIndex,
                       last: PageTableIndex, d: FrameDeallocator)
    requires Is4KiBRange(range) && NextLowerLevel(level) == Some(next) && i <= last
    requires t !in TablesBelowFrom(m, t, level, next, range, tableAddr, i, last)
    requires UsedOnceFrom(m, t, level, next, range, tableAddr, i, last)
    requires CleanUpEntry(m, t, level, next, range, tableAddr, i, d).Done?
    ensures var m1 := CleanUpEntry(m, t, level, next, range, tableAddr, i, d).machine;
      && TablesBelowFrom(m1, t, level, next, range, tableAddr, i + 1, last)
         == TablesBelowFrom(m, t, level, next, range, tableAddr, i + 1, last)
      && UsedOnceFrom(m1, t, level, next, range, tableAddr, i + 1, last)
  {
    var m1 := CleanUpEntry(m, t, level, next, range, tableAddr, i, d).machine;
    var here := Subtree(m, t, level, next, range, tableAddr, i);
    var later := TablesBelowFrom(m, t, level, next, range, tableAddr, i + 1, last);
    BelowFromIs(m, t, level, next, range, tableAddr, i, last);
    UsedOnceFromIs(m, t, level, next, range, tableAddr, i, last);
    CleanUpEntryWrites(m, t, level, next, range, tableAddr, i, d);
    LaterUntouched(m, m1, t, i, last, here, later);
    AgreeingEntries(m, m1, t, level, next, range, tableAddr, i + 1, last);
  }

  /** The rounds after the one for entry `i` keep that entry settled. */
  lemma RestKeepsEntry(m: Machine, t: TableRef, level: PageTableLevel, next: PageTableLevel,
                       range: PageRangeInclusive, tableAddr: u64, i: PageTableIndex,
                       last: PageTableIndex, d: FrameDeallocator)
    requires Is4KiBRange(range) && NextLowerLevel(level) == Some(next) && i <= last
    requires t !in TablesBelowFrom(m, t, level, next, range, tableAddr, i, last)
    requires UsedOnceFrom(m, t, level, next, range, tableAddr, i, last)
    requires CleanUpEntries(m, t, level, next, range, tableAddr, i, last, d).Done?
    requires var m1 := CleanUpEntry(m, t, level, next, range, tableAddr, i, d).machine;
      && EntryLeftClean(m1, t, level, next, range, tableAddr, i)
      && TablesBelowFrom(m1, t, level, next, range, tableAddr, i + 1, last)
         == TablesBelowFrom(m, t, level, next, range, tableAddr, i + 1, last)
    ensures EntryLeftClean(CleanUpEntries(m, t, level, next, range, tableAddr, i, last, d).machine,
                           t, level, next, range, tableAddr, i)
  {
    var step := CleanUpEntry(m, t, level, next, range, tableAddr, i, d);
    var m1 := step.machine;
    var rest := CleanUpEntries(m1, t, level, next, range, tableAddr, i + 1, last, step.value);
    var here := Subtree(m, t, level, next, range, tableAddr, i);
    var later := TablesBelowFrom(m, t, level, next, range, tableAddr, i + 1, last);
    BelowFromIs(m, t, level, next, range, tableAddr, i, last);
    UsedOnceFromIs(m, t, level, next, range, tableAddr, i, last);
    EntriesIs(m, t, level, next, range, tableAddr, i, last, d);
    CleanUpEntriesWrites(m1, t, level, next, range, tableAddr, i + 1, last, step.value);
    SubtreeShrinks(m, m1, t, level, next, range, tableAddr, i);
    EarlierUntouched(m1, rest.machine, t, i, Subtree(m1, t, level, next, range, tableAddr, i),
                     here, later);
    AgreeingSubtree(m1, rest.machine, t, level, next, range, tableAddr, i);
  }

  /** A round that writes only entry `i` of `t` and the tables of `here` leaves the later entries
      of `t` and the tables of `later` as they were, when `t` lies in neither set and the sets are
      disjoint. */
  lemma LaterUntouched(m: Machine, m1: Machine, t: TableRef, i: nat, last: PageTableIndex,
                       here: set<TableRef>, later: set<TableRef>)
    requires forall u: TableRef, j: PageTableIndex :: EntryOf(m1, u, j) != EntryOf(m, u, j) ==>
      (u == t && j == i) || u in here
    requires t !in here + later && here !! later
    ensures forall j: PageTableIndex :: i + 1 <= j <= last ==> EntryOf(m1, t, j) == EntryOf(m, t, j)
    ensures AgreeOn(m, m1, later)
  {
  }

  /** Later rounds, which write only later entries of `t` and tables of `later`, leave entry `i`
      of `t` and the tables of `here1` as they were. */
  lemma EarlierUntouched(m1: Machine, m2: Machine, t: TableRef, i: PageTableIndex,
                         here1: set<TableRef>, here: set<TableRef>, later: set<TableRef>)
    requires forall u: TableRef, j: PageTableIndex :: EntryOf(m2, u, j) != EntryOf(m1, u, j) ==>
      (u == t && i + 1 <= j) || u in later
    requires here1 <= here && t !in here + later && here !! later
    ensures EntryOf(m2, t, i) == EntryOf(m1, t, i)
    ensures AgreeOn(m1, m2, here1)
  {
  }

  /** One round settles its entry: either the entry is cleared, or the table it leads to has
      nothing left to clean and still has a used entry. */
  lemma {:induction false} CleanUpEntrySettles(m: Machine, t: TableRef, level: PageTableLevel,
                                               next: PageTableLevel, range: PageRangeInclusive,
                                               tableAddr: u64, i: PageTableIndex,
                                               d: FrameDeallocator)
    requires Is4KiBRange(range) && NextLowerLevel(level) == Some(next)
    requires t !in Subtree(m, t, level, next, range, tableAddr, i)
    requires SubtreeUsedOnce(m, t, level, next, range, tableAddr, i)
    requires CleanUpEntry(m, t, level, next, range, tableAddr, i, d).Done?
    ensures EntryLeftClean(CleanUpEntry(m, t, level, next, range, tableAddr, i, d).machine,
                           t, level, next, range, tableAddr, i)
    decreases LevelNumber(level), 0, 0
  {
    if NextTable(m, t, i).Ok? {
      EntryDescends(m, t, level, next, range, tableAddr, i, d);
      var sub := NextTable(m, t, i).value;
      var subRange := EntryRange(tableAddr, level, i, range).value;
      var inner := CleanUpTable(m, sub, next, subRange, d);
      CleanUpTableSettles(m, sub, next, subRange, d);
      CleanUpTableWrites(m, sub, next, subRange, d);
      assert EntryOf(inner.machine, t, i) == EntryOf(m, t, i);
      var m2 := CleanUpEntry(m, t, level, next, range, tableAddr, i, d).machine;
      LeftCleanIs(m2, t, level, next, range, tableAddr, i);
      if inner.value.1 {
        UnusedParts(EntryOf(m2, t, i));
      }
    } else {
      EntrySkips(m, t, level, next, range, tableAddr, i, d);
      LeftCleanIs(m, t, level, next, range, tableAddr, i);
    }
  }

  /** `clean_up_addr_range` on tables used once leaves nothing to clean in the range, so running
      it again frees nothing and changes nothing. */
  lemma CleanUpAddrRangeSettles(m: Machine, range: PageRangeInclusive, d: FrameDeallocator,
                                d2: FrameDeallocator)
    requires Is4KiBRange(range) && UsedOnce(m, Root, Four, range)
    requires CleanUpAddrRange(m, range, d).Done?
    ensures var m2 := CleanUpAddrRange(m, range, d).machine;
      && NothingToClean(m2, Root, Four, range)
      && CleanUpAddrRange(m2, range, d2) == Done(m2, d2)
  {
    CleanUpTableSettles(m, Root, Four, range, d);
    LeftAloneWhenClean(CleanUpAddrRange(m, range, d).machine, Root, Four, range, d2);
  }

  /** A clean-up that frees no frame changes no entry. */
  lemma FreeingNothingChangesNothing(m: Machine, m2: Machine, d: FrameDeallocator,
                                     d2: FrameDeallocator)
    requires CleansUp(m, m2, d, d2) && |d2.freed| == |d.freed|
    ensures forall u: TableRef, j: PageTableIndex :: EntryOf(m2, u, j) == EntryOf(m, u, j)
  {
    assert d2.freed[|d.freed|..] == [];
  }

  /** A run of the inner `clean_up` that frees no frame found nothing to clean. */
  lemma {:induction false} FreesNothingOnlyWhenClean(m: Machine, t: TableRef,
                                                     level: PageTableLevel,
                                                     range: PageRangeInclusive,
                                                     d: FrameDeallocator)
    requires Is4KiBRange(range) && CleanUpTable(m, t, level, range, d).Done?
    requires |CleanUpTable(m, t, level, range, d).value.0.freed| == |d.freed|
    ensures NothingToClean(m, t, level, range)
    decreases LevelNumber(level), 1, 0
  {
    if !InclusiveIsEmpty(range) && NextLowerLevel(level).Some? {
      EntriesFreeNothingOnlyWhenClean(m, t, level, NextLowerLevel(level).value, range,
                                      TableAddr(level, range), PageTableIndexOf(range.start, level),
                                      PageTableIndexOf(range.end, level), d);
    }
  }

  /** The same for the loop over entries `i..=last`. */
  lemma {:induction false} EntriesFreeNothingOnlyWhenClean(m: Machine, t: TableRef,
                                                           level: PageTableLevel,
                                                           next: PageTableLevel,
                                                           range: PageRangeInclusive,
                                                           tableAddr: u64, i: nat,
                                                           last: PageTableIndex,
                                                           d: FrameDeallocator)
    requires Is4KiBRange(range) && NextLowerLevel(level) == Some(next)
    requires CleanUpEntries(m, t, level, next, range, tableAddr, i, last, d).Done?
    requires |CleanUpEntries(m, t, level, next, range, tableAddr, i, last, d).value.freed|
      == |d.freed|
    ensures NothingToCleanFrom(m, t, level, next, range, tableAddr, i, last)
    decreases LevelNumber(level), 0, last + 1 - i
  {
    if i <= last {
      EntriesIs(m, t, level, next, range, tableAddr, i, last, d);
      var step := CleanUpEntry(m, t, level, next, range, tableAddr, i, d);
      CleanUpEntryCleansUp(m, t, level, next, range, tableAddr, i, d);
      CleanUpEntriesCleansUp(step.machine, t, level, next, range, tableAddr, i + 1, last,
                             step.value);
      FreeingNothingChangesNothing(m, step.machine, d, step.value);
      EntryFreesNothingOnlyWhenClean(m, t, level, next, range, tableAddr, i, d);
      EntriesFreeNothingOnlyWhenClean(step.machine, t, level, next, range, tableAddr, i + 1, last,
                                      step.value);
      AgreeingEntries(m, step.machine, t, level, next, range, tableAddr, i + 1, last);
    }
  }

  /** The same for one entry. */
  lemma {:induction false} EntryFreesNothingOnlyWhenClean(m: Machine, t: TableRef,
                                                          level: PageTableLevel,
                                                          next: PageTableLevel,
                                                          range: PageRangeInclusive,
                                                          tableAddr: u64, i: PageTableIndex,
                                                          d: FrameDeallocator)
    requires Is4KiBRange(range) && NextLowerLevel(level) == Some(next)
    requires CleanUpEntry(m, t, level, next, range, tableAddr, i, d).Done?
    requires |CleanUpEntry(m, t, level, next, range, tableAddr, i, d).value.freed| == |d.freed|
    ensures EntryLeftClean(m, t, level, next, range, tableAddr, i)
    decreases LevelNumber(level), 0, 0
  {
    LeftCleanIs(m, t, level, next, range, tableAddr, i);
    if NextTable(m, t, i).Ok? {
      EntryDescends(m, t, level, next, range, tableAddr, i, d);
      var sub := NextTable(m, t, i).value;
      var subRange := EntryRange(tableAddr, level, i, range).value;
      var inner := CleanUpTable(m, sub, next, subRange, d);
      CleanUpTableCleansUp(m, sub, next, subRange, d);
      FreesNothingOnlyWhenClean(m, sub, next, subRange, d);
      FreeingNothingChangesNothing(m, inner.machine, d, inner.value.0);
      SameEntriesSameTable(m, inner.machine, {sub}, sub);
    }
  }

  /** A round on an entry that leads to no table changes nothing. */
  lemma EntrySkips(m: Machine, t: TableRef, level: PageTableLevel, next: PageTableLevel,
                   range: PageRangeInclusive, tableAddr: u64, i: PageTableIndex,
                   d: FrameDeallocator)
    requires Is4KiBRange(range) && NextLowerLevel(level) == Some(next) && NextTable(m, t, i).Err?
    ensures CleanUpEntry(m, t, level, next, range, tableAddr, i, d) == Done(m, d)
  {
  }

  /** A round that completes on an entry leading to a table: the inner `clean_up` on that table
      completes, and the entry is then cleared and one frame freed exactly when it reported the
      table empty. */
  lemma EntryDescends(m: Machine, t: TableRef, level: PageTableLevel, next: PageTableLevel,
                      range: PageRangeInclusive, tableAddr: u64, i: PageTableIndex,
                      d: FrameDeallocator)
    requires Is4KiBRange(range) && NextLowerLevel(level) == Some(next) && NextTable(m, t, i).Ok?
    requires CleanUpEntry(m, t, level, next, range, tableAddr, i, d).Done?
    ensures EntryRange(tableAddr, level, i, range).Some?
    ensures var r := CleanUpEntry(m, t, level, next, range, tableAddr, i, d);
      var inner := CleanUpTable(m, NextTable(m, t, i).value, next,
                                EntryRange(tableAddr, level, i, range).value, d);
      && inner.Done?
      && r.machine == (if inner.value.1
                       then SetEntry(inner.machine, t, i, SetUnused(EntryOf(inner.machine, t, i)))
                       else inner.machine)
      && |r.value.freed| == |inner.value.0.freed| + (if inner.value.1 then 1 else 0)
  {
  }

  /** `EntryLeftClean` unfolded. */
  lemma LeftCleanIs(m: Machine, t: TableRef, level: PageTableLevel, next: PageTableLevel,
                    range: PageRangeInclusive, tableAddr: u64, i: PageTableIndex)
    requires Is4KiBRange(range) && NextLowerLevel(level) == Some(next)
    ensures EntryLeftClean(m, t, level, next, range, tableAddr, i)
      == if NextTable(m, t, i).Err? then true
         else if EntryRange(tableAddr, level, i, range).None? then false
         else
           var sub, subRange := NextTable(m, t, i).value, EntryRange(tableAddr, level, i, range).value;
           && NothingToClean(m, sub, next, subRange)
           && (InclusiveIsEmpty(subRange) || !AllUnused(TableOf(m, sub)))
  {
  }

  /** `clean_up_addr_range` frees no frame exactly when nothing is left to clean in the range;
      it then changes nothing either. */
  lemma CleanUpAddrRangeFreesNothing(m: Machine, range: PageRangeInclusive, d: FrameDeallocator)
    requires Is4KiBRange(range)
    ensures NothingToClean(m, Root, Four, range) <==>
      CleanUpAddrRange(m, range, d).Done? && |CleanUpAddrRange(m, range, d).value.freed| == |d.freed|
    ensures NothingToClean(m, Root, Four, range) ==> CleanUpAddrRange(m, range, d) == Done(m, d)
  {
    if NothingToClean(m, Root, Four, range) {
      LeftAloneWhenClean(m, Root, Four, range, d);
    } else if CleanUpAddrRange(m, range, d).Done? {
      var r := CleanUpTable(m, Root, Four, range, d);
      if |r.value.0.freed| == |d.freed| {
        FreesNothingOnlyWhenClean(m, Root, Four, range, d);
      }
    }
  }
}
