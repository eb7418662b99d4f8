/** The iterator over the pages a mapped page table maps (`mapper/mapped_page_table/iter.rs`).

    The iterator keeps four index counters, one per level, and searches depth-first for the next
    present leaf entry: a huge level-3 entry is a 1 GiB page, a huge level-2 entry a 2 MiB page,
    and a present level-1 entry a 4 KiB page. A huge level-4 entry is skipped.

    The counters are read as the digits, base 512, of a position in `[0, 512^4)`; every position
    names one level-1 slot of the whole address space. The model's reference for what the
    iterator should yield is `ItemAt`: the leaf, if any, whose walk by the mapper's own
    `next_table` steps ends at that position. The tables are only read, so the iterator runs
    over the engine's `Machine` and never touches its allocator. */
module MappedIter {
  import opened Wrappers
  import opened Words
  import opened Addr
  import opened TableIndex
  import opened Pages
  import opened Frames
  import opened Tables
  import opened MappedTables

  /** `MappedPage<S>`: a page, the frame it maps to, and the flags of the entry that maps it. */
  datatype MappedPage = MappedPage(page: Page, frame: PhysFrame, flags: PageTableFlags)

  /** `MappedPageItem`: a `MappedPage` of any size; page and frame have the same size, and that
      size says which variant it is. */
  type MappedPageItem = mp: MappedPage | mp.page.size == mp.frame.size
    witness MappedPage(RawPage(Size4KiB, 0), RawFrame(Size4KiB, 0), {})

  /** How far `MappedPageItem + n` moves page and frame: `n` times the page size. */
  function Shift(mp: MappedPageItem, n: u64): int
  {
    n * Size(mp.page.size)
  }

  /** `MappedPageItem + u64` does not panic: the page's `VirtAddr` addition neither overflows nor
      yields an address `VirtAddr::new` refuses, and the frame stays in physical memory. */
  predicate AddDefined(mp: MappedPageItem, n: u64)
  {
    0 <= mp.page.start + Shift(mp, n) < U64_LIMIT
    && VirtAccepts(mp.page.start + Shift(mp, n))
    && mp.frame.start + Shift(mp, n) < TWO_52
  }

  /** `MappedPageItem + u64`: page and frame both move `n` pages on; the flags stay. */
  function MappedPageAdd(mp: MappedPageItem, n: u64): (r: MappedPageItem)
    requires AddDefined(mp, n)
    ensures r.page.size == mp.page.size && r.flags == mp.flags
    ensures r.frame.start == mp.frame.start + Shift(mp, n)
    ensures IsCanonical(mp.page.start + Shift(mp, n)) ==>
      r.page.start == mp.page.start + Shift(mp, n)
    ensures !IsCanonical(mp.page.start + Shift(mp, n)) ==>
      r.page.start == mp.page.start + Shift(mp, n) + (U64_LIMIT - TWO_48)
  {
    assert Size(mp.frame.size) == Size(mp.page.size);
    var page := PageAdd(mp.page, n);
    var sum: u64 := mp.page.start + Shift(mp, n);
    assert page.start % TWO_48 == sum % TWO_48;
    PastLowerHalf(page.start, sum);
    MappedPage(page, FrameAdd(mp.frame, n), mp.flags)
  }

  /** The only address that agrees in bits 0..47 with an accepted sum outside both canonical
      halves is that sum sign-extended into the upper half. */
  lemma PastLowerHalf(x: VirtAddr, sum: u64)
    requires VirtAccepts(sum)
    ensures x % TWO_48 == sum % TWO_48 && !IsCanonical(sum) ==> x == sum + (U64_LIMIT - TWO_48)
  {
    if x % TWO_48 == sum % TWO_48 && !IsCanonical(sum) {
      assert TWO_47 <= sum < TWO_48;
      assert sum % TWO_48 == sum;
      CanonicalFromLow48(x);
    }
  }

  /** Moving on `a` pages and then `b` more is moving on `a + b` at once, while the page stays
      in one canonical half. */
  lemma MappedPageAddCompose(mp: MappedPageItem, a: u64, b: u64)
    requires a + b < U64_LIMIT && AddDefined(mp, a + b)
    requires IsCanonical(mp.page.start + Shift(mp, a + b))
    requires var x := mp.page.start + Shift(mp, a); x < TWO_47 || x >= UPPER_HALF
    ensures AddDefined(mp, a) && AddDefined(MappedPageAdd(mp, a), b)
    ensures MappedPageAdd(MappedPageAdd(mp, a), b) == MappedPageAdd(mp, a + b)
  {
    var s := Size(mp.page.size);
    assert s > 0;
    MulDistributes(a, b, s);
    assert Shift(mp, a + b) == Shift(mp, a) + Shift(mp, b) && 0 <= Shift(mp, a);
    assert AddDefined(mp, a);
    var r := MappedPageAdd(mp, a);
    assert Shift(r, b) == Shift(mp, b);
    assert AddDefined(r, b);
    var lhs, rhs := MappedPageAdd(r, b), MappedPageAdd(mp, a + b);
    assert lhs.page.start == rhs.page.start && lhs.frame.start == rhs.frame.start;
  }

  // ----- The index counters ----------------------------------------------------------------

  /** The four `u16` index counters of a `MappedPageTableIter`, level 4 first. */
  datatype Counters = Counters(p4: nat, p3: nat, p2: nat, p1: nat)

  /** The counters the iterator can hold between calls: the lower three below 512, the level-4
      counter at most 512, and all lower counters zero once it reaches 512, the end. */
  predicate Valid(c: Counters)
  {
    c.p4 <= 512 && c.p3 < 512 && c.p2 < 512 && c.p1 < 512
    && (c.p4 == 512 ==> c.p3 == 0 && c.p2 == 0 && c.p1 == 0)
  }

  /** The position the counters name, reading them as base-512 digits. */
  function Pos(c: Counters): int
  {
    c.p4 * 0x800_0000 + c.p3 * 0x4_0000 + c.p2 * 0x200 + c.p1
  }

  /** One past the last position: 512^4. */
  const END: int := 0x10_0000_0000

  /** The counters at a position: its base-512 digits. */
  function CountersAt(q: int): (c: Counters)
    requires 0 <= q <= END
    ensures Valid(c) && Pos(c) == q
    ensures q < END ==> c.p4 < 512
  {
    ModSplit(q, 0x4_0000, 512);
    ModSplit(q, 0x200, 512);
    assert q == 0x800_0000 * (q / 0x800_0000) + q % 0x800_0000;
    Counters(q / 0x800_0000, q / 0x4_0000 % 512, q / 0x200 % 512, q % 512)
  }

  /** The digits of a position are unique: valid counters are the digits of their position, and
      their position lies in `[0, END]`. */
  lemma CountersAtPos(c: Counters)
    requires Valid(c)
    ensures 0 <= Pos(c) <= END && CountersAt(Pos(c)) == c
  {
    var q := Pos(c);
    DivModUnique(0x200, c.p4 * 0x4_0000 + c.p3 * 0x200 + c.p2, c.p1, q);
    DivModUnique(0x4_0000, c.p4 * 0x200 + c.p3, c.p2 * 0x200 + c.p1, q);
    DivModUnique(0x800_0000, c.p4, c.p3 * 0x4_0000 + c.p2 * 0x200 + c.p1, q);
    DivModUnique(512, c.p4 * 0x200 + c.p3, c.p2, q / 0x200);
    DivModUnique(512, c.p4, c.p3, q / 0x4_0000);
  }

  /** `p4_index` and its siblings: the counter as a table index, or `None` at 512. A counter
      above 512 would make `PageTableIndex::new` panic; the iterator never holds one. */
  function IndexOf(k: nat): (r: Option<PageTableIndex>)
    requires k <= 512
    ensures r.None? <==> k == 512
    ensures r.Some? ==> r.value == k
  {
    if k == 512 then None else Some(IndexNew(k))
  }

  /** `increment_p4_index`: the next 512 GiB block begins; `None` when there is none. */
  function IncP4(c: Counters): (r: (Counters, Option<()>))
    requires c.p4 < 512
    ensures Valid(r.0) && Pos(r.0) == (c.p4 + 1) * 0x800_0000
    ensures r.1.None? <==> c.p4 == 511
    ensures r.0.p3 == 0 && r.0.p2 == 0 && r.0.p1 == 0
  {
    var c1 := Counters(c.p4 + 1, 0, 0, 0);
    if c1.p4 == 512 then (c1, None) else (c1, Some(()))
  }

  /** `increment_p3_index`: the next 1 GiB block begins, carrying into the level-4 counter; the
      answer is `None` exactly when the counter wrapped. */
  function IncP3(c: Counters): (r: (Counters, Option<()>))
    requires c.p4 < 512 && c.p3 < 512
    ensures Valid(r.0) && Pos(r.0) == c.p4 * 0x800_0000 + (c.p3 + 1) * 0x4_0000
    ensures r.1.None? <==> c.p3 == 511
    ensures r.1.Some? ==> r.0.p4 == c.p4 && r.0.p3 == c.p3 + 1
    ensures r.0.p2 == 0 && r.0.p1 == 0
  {
    var c1 := Counters(c.p4, c.p3 + 1, 0, 0);
    if c1.p3 == 512 then (IncP4(c1).0, None) else (c1, Some(()))
  }

  /** `increment_p2_index`: the next 2 MiB block begins, carrying upwards; `None` exactly when
      the counter wrapped. */
  function IncP2(c: Counters): (r: (Counters, Option<()>))
    requires c.p4 < 512 && c.p3 < 512 && c.p2 < 512
    ensures Valid(r.0)
    ensures Pos(r.0) == c.p4 * 0x800_0000 + c.p3 * 0x4_0000 + (c.p2 + 1) * 0x200
    ensures r.1.None? <==> c.p2 == 511
    ensures r.1.Some? ==> r.0.p4 == c.p4 && r.0.p3 == c.p3 && r.0.p2 == c.p2 + 1
    ensures r.0.p1 == 0 && (r.1.None? ==> r.0.p2 == 0)
  {
    var c1 := Counters(c.p4, c.p3, c.p2 + 1, 0);
    if c1.p2 == 512 then (IncP3(c1).0, None) else (c1, Some(()))
  }

  /** `increment_p1_index`: the next slot, carrying upwards; `None` exactly when the counter
      wrapped. */
  function IncP1(c: Counters): (r: (Counters, Option<()>))
    requires Valid(c) && c.p4 < 512
    ensures Valid(r.0) && Pos(r.0) == Pos(c) + 1
    ensures r.1.None? <==> c.p1 == 511
    ensures r.1.Some? ==> r.0 == c.(p1 := c.p1 + 1)
    ensures r.1.None? ==> r.0.p1 == 0
    ensures r.1.None? ==> r.0.p2 == 0 || (r.0.p4 == c.p4 && r.0.p3 == c.p3 && r.0.p2 == c.p2 + 1)
  {
    var c1 := c.(p1 := c.p1 + 1);
    if c1.p1 == 512 then (IncP2(c1).0, None) else (c1, Some(()))
  }

  // ----- What the iterator should find ------------------------------------------------------

  /** The item for a leaf entry of `page`: the frame of the page's size containing the entry's
      address, and the entry's flags. */
  function ItemOf(page: Page, e: PageTableEntry): (r: MappedPageItem)
    ensures r.page == page && r.flags == EntryFlags(e)
    ensures r.frame.start <= EntryAddr(e) < r.frame.start + Size(page.size)
  {
    MappedPage(page, FrameContainingAddress(page.size, EntryAddr(e)), EntryFlags(e))
  }

  /** The page's own entry maps it: the mapper's walk for the page reaches a table of its leaf
      level and the page's entry there is present, with HUGE_PAGE set for a huge page. The item
      it yields, if so. */
  function LeafItem(m: Machine, page: Page): Option<MappedPageItem>
  {
    match Walk(m, page, Depth(page.size))
    case Err(_) => None
    case Ok(t) =>
      var e := EntryOf(m, t, LeafIndex(page));
      if PRESENT in EntryFlags(e) && (page.size != Size4KiB ==> HUGE_PAGE in EntryFlags(e))
      then Some(ItemOf(page, e))
      else None
  }

  /** The pages of each size whose indices are the digits of `c`. */
  function Page1GiB(c: Counters): Page
    requires c.p4 < 512 && c.p3 < 512
  {
    FromPageTableIndices1GiB(c.p4, c.p3)
  }

  function Page2MiB(c: Counters): Page
    requires c.p4 < 512 && c.p3 < 512 && c.p2 < 512
  {
    FromPageTableIndices2MiB(c.p4, c.p3, c.p2)
  }

  function Page4KiB(c: Counters): Page
    requires Valid(c) && c.p4 < 512
  {
    FromPageTableIndices(c.p4, c.p3, c.p2, c.p1)
  }

  /** The reference: the item whose leaf sits at position `c`. A 1 GiB page sits at the first
      position of its block, a 2 MiB page likewise, a 4 KiB page at its own slot. */
  function ItemAt(m: Machine, c: Counters): Option<MappedPageItem>
    requires Valid(c) && c.p4 < 512
  {
    if c.p2 == 0 && c.p1 == 0 && LeafItem(m, Page1GiB(c)).Some? then LeafItem(m, Page1GiB(c))
    else if c.p1 == 0 && LeafItem(m, Page2MiB(c)).Some? then LeafItem(m, Page2MiB(c))
    else LeafItem(m, Page4KiB(c))
  }

  /** The item at a position, for every integer: none outside `[0, END)`. */
  function ItemAtPos(m: Machine, q: int): Option<MappedPageItem>
  {
    if 0 <= q < END then ItemAt(m, CountersAt(q)) else None
  }

  /** `ItemAtPos` for the tables of `m`, as a function of the position. */
  function ItemsByPos(m: Machine): int -> Option<MappedPageItem>
  {
    q => ItemAtPos(m, q)
  }

  /** `f` gives nothing at any position in `[lo, hi)`. */
  ghost predicate NoneIn<T>(f: int -> Option<T>, lo: int, hi: int)
  {
    forall q :: lo <= q < hi ==> f(q).None?
  }

  /** No position in `[lo, hi)` holds an item. */
  ghost predicate NoItemIn(m: Machine, lo: int, hi: int)
  {
    NoneIn(ItemsByPos(m), lo, hi)
  }

  /** The counter digit step `n` of a walk uses. */
  function Digit(c: Counters, n: nat): nat
    requires n < 4
  {
    if n == 0 then c.p4 else if n == 1 then c.p3 else if n == 2 then c.p2 else c.p1
  }

  /** `n` steps of `next_table` from the level-4 table along the digits of `c`. */
  function DigitWalk(m: Machine, c: Counters, n: nat): Result<TableRef, PageTableWalkError>
    requires Valid(c) && c.p4 < 512 && n <= 3
  {
    if n == 0 then Ok(Root)
    else
      match DigitWalk(m, c, n - 1)
      case Err(e) => Err(e)
      case Ok(t) => NextTable(m, t, Digit(c, n - 1))
  }

  /** A page whose indices are the digits of `c` is walked along those digits. */
  lemma {:induction false} WalkByDigits(m: Machine, c: Counters, page: Page, n: nat)
    requires Valid(c) && c.p4 < 512 && n <= 3
    requires forall k :: 0 <= k < n ==> StepIndex(page, k) == Digit(c, k)
    ensures Walk(m, page, n) == DigitWalk(m, c, n)
  {
    if n > 0 {
      WalkByDigits(m, c, page, n - 1);
    }
  }

  /** The reference read table by table, the way the iterator descends: a level-4 entry that is
      not a table holds nothing; a huge level-3 entry holds its 1 GiB page at the block's first
      position; a huge level-2 entry its 2 MiB page likewise; a level-1 entry its 4 KiB page when
      present. */
  function ItemByTables(m: Machine, c: Counters): Option<MappedPageItem>
    requires Valid(c) && c.p4 < 512
  {
    match NextTable(m, Root, c.p4)
    case Err(_) => None
    case Ok(t3) =>
      match NextTable(m, t3, c.p3)
      case Err(NotMapped) => None
      case Err(MappedToHugePage) =>
        if c.p2 == 0 && c.p1 == 0 then Some(ItemOf(Page1GiB(c), EntryOf(m, t3, c.p3))) else None
      case Ok(t2) =>
        match NextTable(m, t2, c.p2)
        case Err(NotMapped) => None
        case Err(MappedToHugePage) =>
          if c.p1 == 0 then Some(ItemOf(Page2MiB(c), EntryOf(m, t2, c.p2))) else None
        case Ok(t1) =>
          var e := EntryOf(m, t1, c.p1);
          if PRESENT in EntryFlags(e) then Some(ItemOf(Page4KiB(c), e)) else None
  }

  /** The pages at `c` are walked along its digits, and their own entries are at its digits. */
  lemma DigitPages(m: Machine, c: Counters)
    requires Valid(c) && c.p4 < 512
    ensures Walk(m, Page1GiB(c), 1) == DigitWalk(m, c, 1) && LeafIndex(Page1GiB(c)) == c.p3
    ensures Walk(m, Page2MiB(c), 2) == DigitWalk(m, c, 2) && LeafIndex(Page2MiB(c)) == c.p2
    ensures Walk(m, Page4KiB(c), 3) == DigitWalk(m, c, 3) && LeafIndex(Page4KiB(c)) == c.p1
  {
    var g, h, k := Page1GiB(c), Page2MiB(c), Page4KiB(c);
    assert StepIndex(g, 0) == c.p4 && StepIndex(g, 1) == c.p3;
    assert StepIndex(h, 0) == c.p4 && StepIndex(h, 1) == c.p3 && StepIndex(h, 2) == c.p2;
    assert StepIndex(k, 0) == c.p4 && StepIndex(k, 1) == c.p3 && StepIndex(k, 2) == c.p2;
    assert StepIndex(k, 3) == c.p1;
    WalkByDigits(m, c, g, 1);
    WalkByDigits(m, c, h, 2);
    WalkByDigits(m, c, k, 3);
  }

  /** The reference by walks and the reference by tables agree at every position. */
  lemma ItemAtByTables(m: Machine, c: Counters)
    requires Valid(c) && c.p4 < 512
    ensures ItemAt(m, c) == ItemByTables(m, c)
  {
    var g, h, k := Page1GiB(c), Page2MiB(c), Page4KiB(c);
    DigitPages(m, c);
    match NextTable(m, Root, c.p4) {
    case Err(_) =>
      assert LeafItem(m, g) == None && LeafItem(m, h) == None && LeafItem(m, k) == None;
    case Ok(t3) =>
      assert Walk(m, g, 1) == Ok(t3);
      match NextTable(m, t3, c.p3) {
      case Err(NotMapped) =>
        assert LeafItem(m, g) == None && LeafItem(m, h) == None && LeafItem(m, k) == None;
      case Err(MappedToHugePage) =>
        assert LeafItem(m, g) == Some(ItemOf(g, EntryOf(m, t3, c.p3)));
        assert LeafItem(m, h) == None && LeafItem(m, k) == None;
      case Ok(t2) =>
        assert LeafItem(m, g) == None;
        assert Walk(m, h, 2) == Ok(t2);
        match NextTable(m, t2, c.p2) {
        case Err(NotMapped) =>
          assert LeafItem(m, h) == None && LeafItem(m, k) == None;
        case Err(MappedToHugePage) =>
          assert LeafItem(m, h) == Some(ItemOf(h, EntryOf(m, t2, c.p2)));
          assert LeafItem(m, k) == None;
        case Ok(t1) =>
          assert LeafItem(m, h) == None;
          assert Walk(m, k, 3) == Ok(t1);
        }
      }
    }
  }

  // ----- The search ---------------------------------------------------------------------------

  /** `MappedPageTable::iter`: all counters at zero. */
  function Start(): (c: Counters)
    ensures Valid(c) && Pos(c) == 0
  {
    Counters(0, 0, 0, 0)
  }

  /** The loop of `next_forward` over the level-1 table `t1` and the 4 KiB item after it: skip
      entries without PRESENT; yield the first present one and step past it. When the counter
      wraps first, the search ends at a dead end (`None`). */
  function Scan1(m: Machine, c: Counters, t1: TableRef): (r: (Counters, Option<MappedPageItem>))
    requires Valid(c) && c.p4 < 512
    ensures Valid(r.0) && Pos(c) < Pos(r.0)
    decreases END - Pos(c)
  {
    var e := EntryOf(m, t1, IndexOf(c.p1).value);
    if PRESENT in EntryFlags(e) then (IncP1(c).0, Some(ItemOf(Page4KiB(c), e)))
    else
      var (c1, more) := IncP1(c);
      if more.None? then (c1, None) else Scan1(m, c1, t1)
  }

  /** The loop of `next_forward` over the level-2 table `t2`: descend into a table; skip an entry
      that is not present; yield a huge entry as a 2 MiB item and step past it. */
  function Scan2(m: Machine, c: Counters, t2: TableRef): (r: (Counters, Option<MappedPageItem>))
    requires Valid(c) && c.p4 < 512
    ensures Valid(r.0) && Pos(c) < Pos(r.0)
    decreases END - Pos(c)
  {
    match NextTable(m, t2, IndexOf(c.p2).value)
    case Ok(t1) => Scan1(m, c, t1)
    case Err(NotMapped) =>
      var (c1, more) := IncP2(c);
      if more.None? then (c1, None) else Scan2(m, c1, t2)
    case Err(MappedToHugePage) =>
      (IncP2(c).0, Some(ItemOf(Page2MiB(c), EntryOf(m, t2, c.p2))))
  }

  /** The loop of `next_forward` over the level-3 table `t3`: descend into a table; skip an entry
      that is not present; yield a huge entry as a 1 GiB item and step past it. */
  function Scan3(m: Machine, c: Counters, t3: TableRef): (r: (Counters, Option<MappedPageItem>))
    requires Valid(c) && c.p4 < 512
    ensures Valid(r.0) && Pos(c) < Pos(r.0)
    decreases END - Pos(c)
  {
    match NextTable(m, t3, IndexOf(c.p3).value)
    case Ok(t2) => Scan2(m, c, t2)
    case Err(NotMapped) =>
      var (c1, more) := IncP3(c);
      if more.None? then (c1, None) else Scan3(m, c1, t3)
    case Err(MappedToHugePage) =>
      (IncP3(c).0, Some(ItemOf(Page1GiB(c), EntryOf(m, t3, c.p3))))
  }

  /** `next_forward`: the loop over the level-4 table, which skips every entry that is not a
      table (a huge level-4 entry included), then the lower loops. At the end it yields `None`
      and leaves the counters alone. */
  function NextForward(m: Machine, c: Counters): (r: (Counters, Option<MappedPageItem>))
    requires Valid(c)
    ensures Valid(r.0)
    ensures c.p4 < 512 ==> Pos(c) < Pos(r.0)
    ensures c.p4 == 512 ==> r == (c, None)
    decreases END - Pos(c)
  {
    match IndexOf(c.p4)
    case None => (c, None)
    case Some(i) =>
      match NextTable(m, Root, i)
      case Ok(t3) => Scan3(m, c, t3)
      case Err(_) =>
        var (c1, more) := IncP4(c);
        if more.None? then (c1, None) else NextForward(m, c1)
  }

  /** `Iterator::next`: `next_forward` again after every dead end, until an item turns up or the
      level-4 counter reaches its end. */
  function Next(m: Machine, c: Counters): (r: (Counters, Option<MappedPageItem>))
    requires Valid(c)
    ensures Valid(r.0) && Pos(c) <= Pos(r.0)
    ensures r.1.Some? ==> Pos(c) < Pos(r.0)
    ensures r.1.None? ==> r.0.p4 == 512
    decreases END - Pos(c)
  {
    if IndexOf(c.p4).None? then (c, None)
    else
      var (c1, item) := NextForward(m, c);
      if item.Some? then (c1, item) else Next(m, c1)
  }

  // ----- What the search finds ----------------------------------------------------------------

  /** How many positions a page of each size covers. */
  function Span(s: PageSize): int
  {
    match s
    case Size4KiB => 1
    case Size2MiB => 0x200
    case Size1GiB => 0x4_0000
  }

  /** The level-3 entry at `c` is a huge page. */
  predicate HugeAt3(m: Machine, c: Counters)
    requires Valid(c) && c.p4 < 512
  {
    DigitWalk(m, c, 1).Ok?
    && NextTable(m, DigitWalk(m, c, 1).value, c.p3) == Err(PageTableWalkError.MappedToHugePage)
  }

  /** The level-2 entry at `c` is a huge page. */
  predicate HugeAt2(m: Machine, c: Counters)
    requires Valid(c) && c.p4 < 512
  {
    DigitWalk(m, c, 2).Ok?
    && NextTable(m, DigitWalk(m, c, 2).value, c.p2) == Err(PageTableWalkError.MappedToHugePage)
  }

  /** The counters never rest strictly inside a huge page: lower counters that are not all zero
      lie under tables, not under huge entries. This holds at the start and after every step. */
  predicate Consistent(m: Machine, c: Counters)
  {
    Valid(c)
    && (c.p4 < 512 && (c.p2 != 0 || c.p1 != 0) ==> !HugeAt3(m, c))
    && (c.p4 < 512 && c.p1 != 0 ==> !HugeAt2(m, c))
  }

  /** A search from `c` that stopped at `c2` with `item` passed over no item but the one it
      yields: nothing at all in `[Pos(c), Pos(c2))` when it yields none; otherwise the item sits
      at the first position of the last span it covered, and that span and everything before it
      hold no other item. */
  ghost predicate Finds(m: Machine, c: Counters, c2: Counters, item: Option<MappedPageItem>)
    requires Valid(c) && Valid(c2)
  {
    FindsIn(ItemsByPos(m), Pos(c), Pos(c2), item)
  }

  /** `Finds` for the positions `lo` to `hi` and the items `f` gives. */
  ghost predicate FindsIn(f: int -> Option<MappedPageItem>, lo: int, hi: int,
                          item: Option<MappedPageItem>)
  {
    lo <= hi
    && match item
       case None => NoneIn(f, lo, hi)
       case Some(x) =>
         var q := hi - Span(x.page.size);
         lo <= q && NoneIn(f, lo, q) && f(q) == item && NoneIn(f, q + 1, hi)
  }

  /** The digits above a level stay those of `c` until the counter at that level moves on. */
  lemma BlockDigits(c: Counters, q: int)
    requires Valid(c) && c.p4 < 512 && Pos(c) <= q < END
    ensures q < (c.p4 + 1) * 0x800_0000 ==> CountersAt(q).p4 == c.p4
    ensures q < c.p4 * 0x800_0000 + (c.p3 + 1) * 0x4_0000 ==>
      CountersAt(q).p4 == c.p4 && CountersAt(q).p3 == c.p3
    ensures q < c.p4 * 0x800_0000 + c.p3 * 0x4_0000 + (c.p2 + 1) * 0x200 ==>
      CountersAt(q).p4 == c.p4 && CountersAt(q).p3 == c.p3 && CountersAt(q).p2 == c.p2
  {
    if q < (c.p4 + 1) * 0x800_0000 {
      DivModUnique(0x800_0000, c.p4, q - c.p4 * 0x800_0000, q);
    }
    if q < c.p4 * 0x800_0000 + (c.p3 + 1) * 0x4_0000 {
      DivModUnique(0x4_0000, c.p4 * 512 + c.p3, q - c.p4 * 0x800_0000 - c.p3 * 0x4_0000, q);
      DivModUnique(512, c.p4, c.p3, q / 0x4_0000);
    }
    if q < c.p4 * 0x800_0000 + c.p3 * 0x4_0000 + (c.p2 + 1) * 0x200 {
      var hi := c.p4 * 0x4_0000 + c.p3 * 512 + c.p2;
      DivModUnique(0x200, hi, q - hi * 0x200, q);
      DivModUnique(512, c.p4 * 512 + c.p3, c.p2, q / 0x200);
    }
  }

  /** A search may begin by passing over positions that hold nothing. */
  lemma FindsAfterGap(m: Machine, c: Counters, c1: Counters, c2: Counters,
                      item: Option<MappedPageItem>)
    requires Valid(c) && Valid(c1) && Valid(c2) && Pos(c) <= Pos(c1)
    requires NoItemIn(m, Pos(c), Pos(c1)) && Finds(m, c1, c2, item)
    ensures Finds(m, c, c2, item)
  {
  }

  /** A search that yields the item at its own position, stepping past the item's span, which
      holds nothing else. */
  lemma FindsHere(m: Machine, c: Counters, c2: Counters, x: MappedPageItem)
    requires Valid(c) && c.p4 < 512 && Valid(c2)
    requires ItemAt(m, c) == Some(x) && Pos(c2) == Pos(c) + Span(x.page.size)
    requires NoItemIn(m, Pos(c) + 1, Pos(c2))
    ensures Finds(m, c, c2, Some(x))
  {
    CountersAtPos(c);
    var q := Pos(c2) - Span(x.page.size);
    assert q == Pos(c) && CountersAt(q) == c;
    assert ItemAtPos(m, q) == Some(x);
    assert NoItemIn(m, Pos(c), q);
  }

  /** No item at the position of `c` when the tables show none there. */
  lemma NothingHere(m: Machine, c: Counters)
    requires Valid(c) && c.p4 < 512 && ItemByTables(m, c).None?
    ensures NoItemIn(m, Pos(c), Pos(c) + 1)
  {
    CountersAtPos(c);
    ItemAtByTables(m, c);
  }

  /** The digit walk of counters under the tables `t3`, `t2`, `t1`. */
  lemma DigitWalkTables(m: Machine, c: Counters, t3: TableRef, t2: TableRef, t1: TableRef)
    requires Valid(c) && c.p4 < 512 && NextTable(m, Root, c.p4) == Ok(t3)
    ensures DigitWalk(m, c, 1) == Ok(t3)
    ensures NextTable(m, t3, c.p3) == Ok(t2) ==> DigitWalk(m, c, 2) == Ok(t2)
    ensures NextTable(m, t3, c.p3) == Ok(t2) && NextTable(m, t2, c.p2) == Ok(t1) ==>
      DigitWalk(m, c, 3) == Ok(t1)
  {
    assert DigitWalk(m, c, 1) == NextTable(m, Root, c.p4);
    assert DigitWalk(m, c, 2) == NextTable(m, t3, c.p3);
    if NextTable(m, t3, c.p3) == Ok(t2) {
      assert DigitWalk(m, c, 3) == NextTable(m, t2, c.p2);
    }
  }

  /** Counters under three tables are consistent, and so are counters under two tables whose
      level-1 counter is zero, and counters whose two lowest counters are zero. */
  lemma ConsistentUnderTables(m: Machine, c: Counters)
    requires Valid(c) && c.p4 < 512
    ensures DigitWalk(m, c, 3).Ok? ==> Consistent(m, c)
    ensures DigitWalk(m, c, 2).Ok? && c.p1 == 0 ==> Consistent(m, c)
    ensures c.p2 == 0 && c.p1 == 0 ==> Consistent(m, c)
  {
    if DigitWalk(m, c, 2).Ok? {
      assert DigitWalk(m, c, 1).Ok?;
      assert DigitWalk(m, c, 2) == NextTable(m, DigitWalk(m, c, 1).value, c.p3);
      assert !HugeAt3(m, c);
      if DigitWalk(m, c, 3).Ok? {
        assert DigitWalk(m, c, 3) == NextTable(m, DigitWalk(m, c, 2).value, c.p2);
        assert !HugeAt2(m, c);
      }
    }
  }

  /** The level-1 loop finds the first present entry at or after `c` in its table, or passes
      over the rest of the table when there is none, and leaves consistent counters. */
  lemma {:induction false} Scan1Finds(m: Machine, c: Counters, t3: TableRef, t2: TableRef,
                                      t1: TableRef)
    requires Valid(c) && c.p4 < 512
    requires NextTable(m, Root, c.p4) == Ok(t3) && NextTable(m, t3, c.p3) == Ok(t2)
    requires NextTable(m, t2, c.p2) == Ok(t1)
    ensures var r := Scan1(m, c, t1); Finds(m, c, r.0, r.1) && Consistent(m, r.0)
    decreases END - Pos(c)
  {
    var r := Scan1(m, c, t1);
    var e := EntryOf(m, t1, c.p1);
    var (c1, more) := IncP1(c);
    if c1.p4 < 512 {
      if c1.p4 == c.p4 && c1.p3 == c.p3 {
        DigitWalkTables(m, c1, t3, t2, t1);
      }
      ConsistentUnderTables(m, c1);
    }
    if PRESENT in EntryFlags(e) {
      assert r == (c1, Some(ItemOf(Page4KiB(c), e)));
      ItemAtByTables(m, c);
      FindsHere(m, c, c1, r.1.value);
    } else {
      NothingHere(m, c);
      if more.None? {
        assert r == (c1, None);
      } else {
        Scan1Finds(m, c1, t3, t2, t1);
        assert r == Scan1(m, c1, t1);
        FindsAfterGap(m, c, c1, r.0, r.1);
      }
    }
  }

  /** A level-2 entry that is not present leaves its 2 MiB block without items. */
  lemma Block2Empty(m: Machine, c: Counters, t3: TableRef, t2: TableRef)
    requires Valid(c) && c.p4 < 512
    requires NextTable(m, Root, c.p4) == Ok(t3) && NextTable(m, t3, c.p3) == Ok(t2)
    requires NextTable(m, t2, c.p2) == Err(PageTableWalkError.NotMapped)
    ensures NoItemIn(m, Pos(c), c.p4 * 0x800_0000 + c.p3 * 0x4_0000 + (c.p2 + 1) * 0x200)
  {
    forall q | Pos(c) <= q < c.p4 * 0x800_0000 + c.p3 * 0x4_0000 + (c.p2 + 1) * 0x200
      ensures ItemsByPos(m)(q).None?
    {
      if q < END {
        BlockDigits(c, q);
        ItemAtByTables(m, CountersAt(q));
      }
    }
  }

  /** A huge level-2 entry holds its item at the block's first position and nothing after it. */
  lemma Block2Huge(m: Machine, c: Counters, t3: TableRef, t2: TableRef)
    requires Valid(c) && c.p4 < 512 && c.p1 == 0
    requires NextTable(m, Root, c.p4) == Ok(t3) && NextTable(m, t3, c.p3) == Ok(t2)
    requires NextTable(m, t2, c.p2) == Err(PageTableWalkError.MappedToHugePage)
    ensures ItemAt(m, c) == Some(ItemOf(Page2MiB(c), EntryOf(m, t2, c.p2)))
    ensures NoItemIn(m, Pos(c) + 1, Pos(c) + 0x200)
  {
    ItemAtByTables(m, c);
    forall q | Pos(c) + 1 <= q < Pos(c) + 0x200
      ensures ItemsByPos(m)(q).None?
    {
      if q < END {
        BlockDigits(c, q);
        ItemAtByTables(m, CountersAt(q));
      }
    }
  }

  /** The level-2 loop finds the first item at or after `c` in its table, or passes over the
      rest of the table and reports a dead end, and leaves consistent counters. */
  lemma {:induction false} Scan2Finds(m: Machine, c: Counters, t3: TableRef, t2: TableRef)
    requires Consistent(m, c) && c.p4 < 512
    requires NextTable(m, Root, c.p4) == Ok(t3) && NextTable(m, t3, c.p3) == Ok(t2)
    ensures var r := Scan2(m, c, t2); Finds(m, c, r.0, r.1) && Consistent(m, r.0)
    decreases END - Pos(c)
  {
    var r := Scan2(m, c, t2);
    var (c1, more) := IncP2(c);
    if c1.p4 < 512 {
      if c1.p4 == c.p4 && c1.p3 == c.p3 {
        DigitWalkTables(m, c1, t3, t2, Root);
      }
      ConsistentUnderTables(m, c1);
    }
    match NextTable(m, t2, c.p2) {
    case Ok(t1) =>
      assert r == Scan1(m, c, t1);
      Scan1Finds(m, c, t3, t2, t1);
    case Err(NotMapped) =>
      Block2Empty(m, c, t3, t2);
      if more.Some? {
        assert r == Scan2(m, c1, t2);
        Scan2Finds(m, c1, t3, t2);
        FindsAfterGap(m, c, c1, r.0, r.1);
      }
    case Err(MappedToHugePage) =>
      DigitWalkTables(m, c, t3, t2, Root);
      assert HugeAt2(m, c);
      Block2Huge(m, c, t3, t2);
      FindsHere(m, c, c1, r.1.value);
    }
  }

  /** A level-3 entry that is not present leaves its 1 GiB block without items. */
  lemma Block3Empty(m: Machine, c: Counters, t3: TableRef)
    requires Valid(c) && c.p4 < 512 && NextTable(m, Root, c.p4) == Ok(t3)
    requires NextTable(m, t3, c.p3) == Err(PageTableWalkError.NotMapped)
    ensures NoItemIn(m, Pos(c), c.p4 * 0x800_0000 + (c.p3 + 1) * 0x4_0000)
  {
    forall q | Pos(c) <= q < c.p4 * 0x800_0000 + (c.p3 + 1) * 0x4_0000
      ensures ItemsByPos(m)(q).None?
    {
      if q < END {
        BlockDigits(c, q);
        ItemAtByTables(m, CountersAt(q));
      }
    }
  }

  /** A huge level-3 entry holds its item at the block's first position and nothing after it. */
  lemma Block3Huge(m: Machine, c: Counters, t3: TableRef)
    requires Valid(c) && c.p4 < 512 && c.p2 == 0 && c.p1 == 0
    requires NextTable(m, Root, c.p4) == Ok(t3)
    requires NextTable(m, t3, c.p3) == Err(PageTableWalkError.MappedToHugePage)
    ensures ItemAt(m, c) == Some(ItemOf(Page1GiB(c), EntryOf(m, t3, c.p3)))
    ensures NoItemIn(m, Pos(c) + 1, Pos(c) + 0x4_0000)
  {
    ItemAtByTables(m, c);
    forall q | Pos(c) + 1 <= q < Pos(c) + 0x4_0000
      ensures ItemsByPos(m)(q).None?
    {
      if q < END {
        BlockDigits(c, q);
        ItemAtByTables(m, CountersAt(q));
      }
    }
  }

  /** The level-3 loop finds the first item at or after `c` in its table, or passes over the
      rest of the table and reports a dead end, and leaves consistent counters. */
  lemma {:induction false} Scan3Finds(m: Machine, c: Counters, t3: TableRef)
    requires Consistent(m, c) && c.p4 < 512 && NextTable(m, Root, c.p4) == Ok(t3)
    ensures var r := Scan3(m, c, t3); Finds(m, c, r.0, r.1) && Consistent(m, r.0)
    decreases END - Pos(c)
  {
    var r := Scan3(m, c, t3);
    var (c1, more) := IncP3(c);
    if c1.p4 < 512 {
      ConsistentUnderTables(m, c1);
    }
    match NextTable(m, t3, c.p3) {
    case Ok(t2) =>
      assert r == Scan2(m, c, t2);
      Scan2Finds(m, c, t3, t2);
    case Err(NotMapped) =>
      Block3Empty(m, c, t3);
      if more.Some? {
        assert r == Scan3(m, c1, t3);
        Scan3Finds(m, c1, t3);
        FindsAfterGap(m, c, c1, r.0, r.1);
      }
    case Err(MappedToHugePage) =>
      DigitWalkTables(m, c, t3, Root, Root);
      assert HugeAt3(m, c);
      Block3Huge(m, c, t3);
      FindsHere(m, c, c1, r.1.value);
    }
  }

  /** A level-4 entry that is not a table leaves its 512 GiB block without items. */
  lemma Block4Empty(m: Machine, c: Counters)
    requires Valid(c) && c.p4 < 512 && NextTable(m, Root, c.p4).Err?
    ensures NoItemIn(m, Pos(c), (c.p4 + 1) * 0x800_0000)
  {
    forall q | Pos(c) <= q < (c.p4 + 1) * 0x800_0000
      ensures ItemsByPos(m)(q).None?
    {
      if q < END {
        BlockDigits(c, q);
        ItemAtByTables(m, CountersAt(q));
      }
    }
  }

  /** `next_forward` finds the first item at or after `c` or stops at a dead end having passed
      over no item, and leaves consistent counters. */
  lemma {:induction false} NextForwardFinds(m: Machine, c: Counters)
    requires Consistent(m, c)
    ensures var r := NextForward(m, c); Finds(m, c, r.0, r.1) && Consistent(m, r.0)
    decreases END - Pos(c)
  {
    var r := NextForward(m, c);
    if c.p4 < 512 {
      var (c1, more) := IncP4(c);
      match NextTable(m, Root, c.p4) {
      case Ok(t3) =>
        assert r == Scan3(m, c, t3);
        Scan3Finds(m, c, t3);
      case Err(_) =>
        Block4Empty(m, c);
        if c1.p4 < 512 {
          ConsistentUnderTables(m, c1);
        }
        if more.Some? {
          assert r == NextForward(m, c1);
          NextForwardFinds(m, c1);
          FindsAfterGap(m, c, c1, r.0, r.1);
        }
      }
    }
  }

  /** `next` yields the first item at or after `c` and steps past it, or yields `None` having
      passed over every remaining position without finding one. */
  lemma {:induction false} NextFinds(m: Machine, c: Counters)
    requires Consistent(m, c)
    ensures var r := Next(m, c); Finds(m, c, r.0, r.1) && Consistent(m, r.0)
    ensures Next(m, c).1.None? ==> Pos(Next(m, c).0) == END
    decreases END - Pos(c)
  {
    var r := Next(m, c);
    if c.p4 < 512 {
      var (c1, item) := NextForward(m, c);
      NextForwardFinds(m, c);
      if item.None? {
        assert r == Next(m, c1);
        NextFinds(m, c1);
        FindsAfterGap(m, c, c1, r.0, r.1);
      }
    }
  }

  // ----- The whole iteration ---------------------------------------------------------------------

  /** The items the iterator yields from `c` on, in order, until `next` answers `None`. */
  function Items(m: Machine, c: Counters): seq<MappedPageItem>
    requires Valid(c)
    decreases END - Pos(c)
  {
    var (c1, item) := Next(m, c);
    match item
    case None => []
    case Some(x) => [x] + Items(m, c1)
  }

  /** The values `f` gives at `lo` to `hi - 1` that are present, in order. */
  function Collect<T>(f: int -> Option<T>, lo: int, hi: int): seq<T>
    requires lo <= hi
    decreases hi - lo
  {
    if lo == hi then []
    else (match f(lo) case None => [] case Some(x) => [x]) + Collect(f, lo + 1, hi)
  }

  /** What is collected over a range is what is collected over its first part followed by what
      is collected over the rest. */
  lemma {:induction false} CollectSplit<T>(f: int -> Option<T>, lo: int, mid: int, hi: int)
    requires lo <= mid <= hi
    ensures Collect(f, lo, hi) == Collect(f, lo, mid) + Collect(f, mid, hi)
    decreases mid - lo
  {
    if lo < mid {
      CollectSplit(f, lo + 1, mid, hi);
    }
  }

  /** Nothing is collected over a range where `f` gives nothing. */
  lemma {:induction false} CollectNone<T>(f: int -> Option<T>, lo: int, hi: int)
    requires lo <= hi && forall q :: lo <= q < hi ==> f(q).None?
    ensures Collect(f, lo, hi) == []
    decreases hi - lo
  {
    if lo < hi {
      CollectNone(f, lo + 1, hi);
    }
  }

  /** Exactly one value is collected over a range where `f` gives one value at one place. */
  lemma CollectOne<T>(f: int -> Option<T>, lo: int, q: int, hi: int, x: T)
    requires lo <= q < hi && f(q) == Some(x)
    requires forall p :: lo <= p < hi && p != q ==> f(p).None?
    ensures Collect(f, lo, hi) == [x]
  {
    CollectSplit(f, lo, q, hi);
    CollectSplit(f, q, q + 1, hi);
    CollectNone(f, lo, q);
    CollectNone(f, q + 1, hi);
    assert Collect(f, q, q + 1) == [x] + Collect(f, q + 1, q + 1);
  }

  /** The reference sequence: the items at positions `lo` to `hi - 1`, in order of position. */
  function RefItems(m: Machine, lo: int, hi: int): seq<MappedPageItem>
    requires lo <= hi
  {
    Collect(ItemsByPos(m), lo, hi)
  }

  /** What a search passed over contributes exactly the item it yields. */
  lemma CollectFinds(f: int -> Option<MappedPageItem>, lo: int, hi: int,
                     item: Option<MappedPageItem>)
    requires FindsIn(f, lo, hi, item)
    ensures Collect(f, lo, hi) == match item case None => [] case Some(x) => [x]
  {
    match item {
    case None =>
      CollectNone(f, lo, hi);
    case Some(x) =>
      CollectOne(f, lo, hi - Span(x.page.size), hi, x);
    }
  }

  /** What one call of `next` passes over contributes to the reference sequence exactly the
      item it yields. */
  lemma NextRefItems(m: Machine, c: Counters)
    requires Consistent(m, c)
    ensures var r := Next(m, c);
      0 <= Pos(c) <= Pos(r.0) <= END && Consistent(m, r.0)
      && (r.1.None? ==> Pos(r.0) == END)
      && RefItems(m, Pos(c), Pos(r.0)) == match r.1 case None => [] case Some(x) => [x]
  {
    var (c1, item) := Next(m, c);
    NextFinds(m, c);
    CountersAtPos(c);
    CountersAtPos(c1);
    CollectFinds(ItemsByPos(m), Pos(c), Pos(c1), item);
  }

  /** From consistent counters the iterator yields exactly the reference sequence of the
      positions still ahead: every mapped page once, none twice, in order of position. */
  lemma {:induction false} ItemsEnumerate(m: Machine, c: Counters)
    requires Consistent(m, c)
    ensures 0 <= Pos(c) <= END && Items(m, c) == RefItems(m, Pos(c), END)
    decreases END - Pos(c)
  {
    var (c1, item) := Next(m, c);
    NextRefItems(m, c);
    CollectSplit(ItemsByPos(m), Pos(c), Pos(c1), END);
    match item {
    case None =>
      assert Items(m, c) == [];
    case Some(x) =>
      assert Items(m, c) == [x] + Items(m, c1);
      ItemsEnumerate(m, c1);
    }
  }

  /** A whole iteration, from `iter()` on, yields exactly the reference sequence of every
      position. */
  lemma IterYieldsEveryMappedPage(m: Machine)
    ensures Items(m, Start()) == RefItems(m, 0, END)
  {
    ItemsEnumerate(m, Start());
  }
}
