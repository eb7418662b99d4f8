/** Page-table indices, page offsets and paging levels (src/structures/paging/page_table.rs). */
module TableIndex {
  import opened Wrappers
  import opened Words

  /** Number of entries in one page table. */
  const ENTRY_COUNT: nat := 512

  /** A 9-bit index into a page table: the constructors keep it below 512. */
  type PageTableIndex = i: int | 0 <= i < 512

  /** A 12-bit offset into a 4 KiB page: the constructors keep it below 4096. */
  type PageOffset = o: int | 0 <= o < 0x1000

  /** `PageTableIndex::new`: its assertion panics for an index of 512 or more; otherwise the
      value is kept, so it agrees with `new_truncate`. */
  function IndexNew(index: u16): (r: PageTableIndex)
    requires index < ENTRY_COUNT
    ensures IndexNewTruncate(index) == r
  {
    index
  }

  /** `PageTableIndex::new_truncate`: the low nine bits, i.e. the value minus a multiple of 512. */
  function IndexNewTruncate(index: u16): (r: PageTableIndex)
    ensures exists q :: 0 <= q < 128 && index == q * 512 + r
  {
    assert index == (index / 512) * 512 + index % 512;
    index % 512
  }

  /** `Step::forward_checked`: `None` when `usize` addition overflows or the index leaves the
      table, otherwise the index `count` entries further on. */
  function IndexForwardChecked(start: PageTableIndex, count: usize): (r: Option<PageTableIndex>)
    ensures r.Some? <==> start + count < ENTRY_COUNT
    ensures r.Some? ==> r.value == start + count
  {
    var idx := start + count;
    if idx >= U64_LIMIT then None        // `checked_add` overflowed
    else if idx < ENTRY_COUNT then Some(IndexNew(idx))
    else None
  }

  /** `Step::backward_checked`: `None` exactly when `checked_sub` underflows. */
  function IndexBackwardChecked(start: PageTableIndex, count: usize): (r: Option<PageTableIndex>)
    ensures r.Some? <==> count <= start
    ensures r.Some? ==> r.value == start - count
  {
    if count > start then None else Some(IndexNew(start - count))
  }

  /** Stepping forward and then back by the same count returns to the start, and the other way
      round. */
  lemma IndexStepsRoundTrip(start: PageTableIndex, count: usize)
    ensures IndexForwardChecked(start, count).Some? ==>
      IndexBackwardChecked(IndexForwardChecked(start, count).value, count) == Some(start)
    ensures IndexBackwardChecked(start, count).Some? ==>
      IndexForwardChecked(IndexBackwardChecked(start, count).value, count) == Some(start)
  {
  }

  /** `PageOffset::new`: its assertion panics for an offset of 4096 or more; otherwise the
      value is kept, so it agrees with `new_truncate`. */
  function OffsetNew(offset: u16): (r: PageOffset)
    requires offset < 0x1000
    ensures OffsetNewTruncate(offset) == r
  {
    offset
  }

  /** `PageOffset::new_truncate`: the low twelve bits, i.e. the value minus a multiple of 4096. */
  function OffsetNewTruncate(offset: u16): (r: PageOffset)
    ensures exists q :: 0 <= q < 16 && offset == q * 0x1000 + r
  {
    assert offset == (offset / 0x1000) * 0x1000 + offset % 0x1000;
    offset % 0x1000
  }

  /** The four levels of the x86-64 paging hierarchy; `One` holds the 4 KiB leaves. */
  datatype PageTableLevel = One | Two | Three | Four

  /** The discriminant of a level: `One = 1` up to `Four = 4`. */
  function LevelNumber(level: PageTableLevel): nat
  {
    match level
    case One => 1
    case Two => 2
    case Three => 3
    case Four => 4
  }

  /** `next_lower_level`: `None` only below level one, otherwise the level numbered one less. */
  function NextLowerLevel(level: PageTableLevel): (r: Option<PageTableLevel>)
    ensures r.None? <==> level == One
    ensures r.Some? ==> LevelNumber(r.value) == LevelNumber(level) - 1
  {
    match level
    case Four => Some(Three)
    case Three => Some(Two)
    case Two => Some(One)
    case One => None
  }

  /** `next_higher_level`: `None` only above level four, otherwise the level numbered one more. */
  function NextHigherLevel(level: PageTableLevel): (r: Option<PageTableLevel>)
    ensures r.None? <==> level == Four
    ensures r.Some? ==> LevelNumber(r.value) == LevelNumber(level) + 1
  {
    match level
    case Four => None
    case Three => Some(Four)
    case Two => Some(Three)
    case One => Some(Two)
  }

  /** The two level steps are inverse to each other, in both directions. */
  lemma LevelStepsInverse(level: PageTableLevel, other: PageTableLevel)
    ensures NextLowerLevel(level) == Some(other) <==> NextHigherLevel(other) == Some(level)
  {
  }

  /** `table_address_space_alignment`: `1 << (level * 9 + 12)`, the span of virtual memory one
      table of this level maps. */
  function TableAlignment(level: PageTableLevel): (r: nat)
    ensures r == 512 * EntryAlignment(level)
  {
    Pow2Values();
    Pow2(LevelNumber(level) * 9 + 12)
  }

  /** `entry_address_space_alignment`: `1 << ((level - 1) * 9 + 12)`, the span one entry maps:
      4 KiB at level one, 2 MiB at level two, 1 GiB at level three, 512 GiB at level four. */
  function EntryAlignment(level: PageTableLevel): (r: nat)
    ensures level == One ==> r == 0x1000
    ensures level == Two ==> r == 0x20_0000
    ensures level == Three ==> r == 0x4000_0000
    ensures level == Four ==> r == 0x80_0000_0000
  {
    Pow2Values();
    Pow2((LevelNumber(level) - 1) * 9 + 12)
  }

  /** An entry of a level spans exactly one table of the level below. */
  lemma AlignmentsNest(level: PageTableLevel)
    ensures NextLowerLevel(level).Some? ==>
      EntryAlignment(level) == TableAlignment(NextLowerLevel(level).value)
  {
  }
}
