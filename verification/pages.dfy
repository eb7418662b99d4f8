/** Size-typed virtual pages and their ranges (src/structures/paging/page.rs).

    A `Page<S>` is a `VirtAddr` aligned to `S::SIZE`; the size, a type parameter in the crate,
    is a field here, and operations that combine two pages (differences, ranges) require the two
    sizes to agree, which the crate's type checker enforces. Canonical addresses leave a hole of
    2^64 - 2^48 bytes between the two halves; `Rank` numbers canonical addresses without that
    hole, so that stepping from the last lower-half page to the first upper-half page is one step,
    which is how `Page + 1` behaves. */
module Pages {
  import opened Wrappers
  import opened Words
  import opened TableIndex
  import opened Addr

  /** The three page sizes of x86-64 paging. */
  datatype PageSize = Size4KiB | Size2MiB | Size1GiB

  /** The level whose entries map one page of the given size. */
  function LeafLevel(s: PageSize): PageTableLevel
  {
    match s
    case Size4KiB => One
    case Size2MiB => Two
    case Size1GiB => Three
  }

  /** `PageSize::SIZE`: 4096, and 512 times the next smaller size above that, which is the span
      one entry of the page's leaf level maps. */
  function Size(s: PageSize): (r: u64)
    ensures r == EntryAlignment(LeafLevel(s))
  {
    match s
    case Size4KiB => 4096
    case Size2MiB => 4096 * 512
    case Size1GiB => 4096 * 512 * 512
  }

  /** Every page size is a power of two between 4 KiB and 1 GiB, so it divides the size of each
      canonical half and of the whole 64-bit space. */
  lemma SizeFacts(s: PageSize)
    ensures IsPowerOfTwo(Size(s))
    ensures 0x1000 <= Size(s) <= 0x4000_0000
    ensures TWO_47 % Size(s) == 0 && TWO_48 % Size(s) == 0 && U64_LIMIT % Size(s) == 0
    ensures (U64_LIMIT - TWO_48) % Size(s) == 0
  {
    Pow2Values();
    match s
    case Size4KiB => assert Size(s) == Pow2(12);
    case Size2MiB => assert Size(s) == Pow2(21);
    case Size1GiB => assert Size(s) == Pow2(30);
  }

  /** The fields of a `Page<S>`: its size and its start address. */
  datatype RawPage = RawPage(size: PageSize, start: VirtAddr)

  /** `Page<S>`: the start address is a multiple of the page size. */
  type Page = p: RawPage | p.start % Size(p.size) == 0 witness RawPage(Size4KiB, 0)

  /** The error of `from_start_address`. */
  datatype AddressNotAligned = AddressNotAligned

  /** `Page::containing_address`: the page whose span holds `addr`. Its start is `addr` aligned
      down to the page size, which for page sizes is the value `VirtAddr::align_down` computes. */
  function ContainingAddress(s: PageSize, addr: VirtAddr): (r: Page)
    ensures r.size == s
    ensures r.start <= addr < r.start + Size(s)
  {
    SizeFacts(s);
    RawPage(s, VirtAlignDown(addr, Size(s)))
  }

  /** No page start of this size lies between the containing page's start and `addr`. */
  lemma ContainingAddressIsGreatest(s: PageSize, addr: VirtAddr, m: u64)
    requires m <= addr && m % Size(s) == 0
    ensures m <= ContainingAddress(s, addr).start
  {
    SizeFacts(s);
    AlignDownIsGreatest(addr, Size(s), m);
  }

  /** An aligned address is the start of its own containing page. */
  lemma ContainingAligned(s: PageSize, addr: VirtAddr)
    requires addr % Size(s) == 0
    ensures ContainingAddress(s, addr) == RawPage(s, addr)
  {
    ContainingAddressIsGreatest(s, addr, addr);
  }

  /** `Page::from_start_address`: `AddressNotAligned` exactly when the address is not a multiple
      of the page size; otherwise the page that starts there. */
  function FromStartAddress(s: PageSize, addr: VirtAddr): (r: Result<Page, AddressNotAligned>)
    ensures r.Ok? <==> addr % Size(s) == 0
    ensures r.Ok? ==> r.value.size == s && r.value.start == addr
  {
    SizeFacts(s);
    if !VirtIsAligned(addr, Size(s)) then Err(AddressNotAligned)
    else
      ContainingAligned(s, addr);
      Ok(ContainingAddress(s, addr))
  }

  /** A page is recovered from its start address, both by `from_start_address` and by
      `containing_address`, and `containing_address` is idempotent. */
  lemma PageRoundTrip(p: Page, addr: VirtAddr)
    ensures FromStartAddress(p.size, p.start) == Ok(p)
    ensures ContainingAddress(p.size, p.start) == p
    ensures ContainingAddress(p.size, ContainingAddress(p.size, addr).start)
      == ContainingAddress(p.size, addr)
  {
    ContainingAligned(p.size, p.start);
    ContainingAligned(p.size, ContainingAddress(p.size, addr).start);
  }

  /** `Page::page_table_index` (and `p4_index` .. `p1_index`): the index of the page's start in
      the table of the given level, nine bits above that level's entry span. */
  function PageTableIndexOf(p: Page, level: PageTableLevel): (r: PageTableIndex)
    ensures r == p.start / EntryAlignment(level) % 512
  {
    match level
    case One => P1Index(p.start)
    case Two => P2Index(p.start)
    case Three => P3Index(p.start)
    case Four => P4Index(p.start)
  }

  /** A huge page starts on a boundary of its own size, so every index below its leaf level is
      zero; this is why the crate offers `p2_index` only below 1 GiB and `p1_index` only for
      4 KiB pages. */
  lemma IndicesBelowLeafAreZero(p: Page, level: PageTableLevel)
    requires LevelNumber(level) < LevelNumber(LeafLevel(p.size))
    ensures PageTableIndexOf(p, level) == 0
  {
    var a: int := p.start;
    if p.size == Size2MiB {
      DivModUnique(0x1000, 512 * (a / 0x20_0000), 0, a);
      MultipleModIsZero(512, a / 0x20_0000);
    } else {
      assert p.size == Size1GiB;
      if level == One {
        DivModUnique(0x1000, 0x4_0000 * (a / 0x4000_0000), 0, a);
        MultipleModIsZero(512, 512 * (a / 0x4000_0000));
      } else {
        DivModUnique(0x20_0000, 512 * (a / 0x4000_0000), 0, a);
        MultipleModIsZero(512, a / 0x4000_0000);
      }
    }
  }

  /** The sum the crate builds by or-ing the shifted indices; the fields do not overlap, so the
      bitwise or is this sum. */
  function IndexSum(p4: PageTableIndex, p3: PageTableIndex, p2: PageTableIndex,
                    p1: PageTableIndex): (r: u64)
    ensures r < TWO_48
  {
    p4 * 0x80_0000_0000 + p3 * 0x4000_0000 + p2 * 0x20_0000 + p1 * 0x1000
  }

  /** Each index can be read back from the sum. */
  lemma IndexSumFields(p4: PageTableIndex, p3: PageTableIndex, p2: PageTableIndex,
                       p1: PageTableIndex)
    ensures IndexSum(p4, p3, p2, p1) / 0x80_0000_0000 == p4
    ensures IndexSum(p4, p3, p2, p1) / 0x4000_0000 % 512 == p3
    ensures IndexSum(p4, p3, p2, p1) / 0x20_0000 % 512 == p2
    ensures IndexSum(p4, p3, p2, p1) / 0x1000 % 512 == p1
    ensures IndexSum(p4, p3, p2, p1) % 0x1000 == 0
  {
    var x := IndexSum(p4, p3, p2, p1);
    DivModUnique(0x80_0000_0000, p4, p3 * 0x4000_0000 + p2 * 0x20_0000 + p1 * 0x1000, x);
    DivModUnique(0x4000_0000, p4 * 512 + p3, p2 * 0x20_0000 + p1 * 0x1000, x);
    DivModUnique(512, p4, p3, p4 * 512 + p3);
    DivModUnique(0x20_0000, p4 * 0x4_0000 + p3 * 512 + p2, p1 * 0x1000, x);
    DivModUnique(512, p4 * 512 + p3, p2, p4 * 0x4_0000 + p3 * 512 + p2);
    DivModUnique(0x1000, p4 * 0x800_0000 + p3 * 0x4_0000 + p2 * 512 + p1, 0, x);
    DivModUnique(512, p4 * 0x4_0000 + p3 * 512 + p2, p1,
      p4 * 0x800_0000 + p3 * 0x4_0000 + p2 * 512 + p1);
  }

  /** Sign extension of a value below 2^48 keeps every index field and the offset. */
  lemma TruncatedFields(x: u64)
    requires x < TWO_48
    ensures P4Index(VirtNewTruncate(x)) == x / 0x80_0000_0000
    ensures P3Index(VirtNewTruncate(x)) == x / 0x4000_0000 % 512
    ensures P2Index(VirtNewTruncate(x)) == x / 0x20_0000 % 512
    ensures P1Index(VirtNewTruncate(x)) == x / 0x1000 % 512
    ensures PageOffsetOf(VirtNewTruncate(x)) == x % 0x1000
  {
    var t := VirtNewTruncate(x);
    assert t % TWO_48 == x;
    FieldsIgnoreHighBits(t);
  }

  /** Sign extension of the sum keeps every index field. */
  lemma TruncatedIndexSum(p4: PageTableIndex, p3: PageTableIndex, p2: PageTableIndex,
                          p1: PageTableIndex)
    ensures P4Index(VirtNewTruncate(IndexSum(p4, p3, p2, p1))) == p4
    ensures P3Index(VirtNewTruncate(IndexSum(p4, p3, p2, p1))) == p3
    ensures P2Index(VirtNewTruncate(IndexSum(p4, p3, p2, p1))) == p2
    ensures P1Index(VirtNewTruncate(IndexSum(p4, p3, p2, p1))) == p1
    ensures PageOffsetOf(VirtNewTruncate(IndexSum(p4, p3, p2, p1))) == 0
  {
    TruncatedFields(IndexSum(p4, p3, p2, p1));
    IndexSumFields(p4, p3, p2, p1);
  }

  /** `Page::<Size1GiB>::from_page_table_indices_1gib`: the 1 GiB page whose level-4 and level-3
      indices are the given ones. */
  function FromPageTableIndices1GiB(p4: PageTableIndex, p3: PageTableIndex): (r: Page)
    ensures r.size == Size1GiB
    ensures PageTableIndexOf(r, Four) == p4 && PageTableIndexOf(r, Three) == p3
  {
    var t := VirtNewTruncate(IndexSum(p4, p3, 0, 0));
    TruncatedIndexSum(p4, p3, 0, 0);
    AlignedSumStaysAligned(p4, p3, 0, 0, Size1GiB);
    ContainingAligned(Size1GiB, t);
    ContainingAddress(Size1GiB, t)
  }

  /** `Page::<Size2MiB>::from_page_table_indices_2mib`: the 2 MiB page with the given level-4,
      level-3 and level-2 indices. */
  function FromPageTableIndices2MiB(p4: PageTableIndex, p3: PageTableIndex, p2: PageTableIndex)
    : (r: Page)
    ensures r.size == Size2MiB
    ensures PageTableIndexOf(r, Four) == p4 && PageTableIndexOf(r, Three) == p3
    ensures PageTableIndexOf(r, Two) == p2
  {
    var t := VirtNewTruncate(IndexSum(p4, p3, p2, 0));
    TruncatedIndexSum(p4, p3, p2, 0);
    AlignedSumStaysAligned(p4, p3, p2, 0, Size2MiB);
    ContainingAligned(Size2MiB, t);
    ContainingAddress(Size2MiB, t)
  }

  /** `Page::<Size4KiB>::from_page_table_indices`: the 4 KiB page with the given four indices. */
  function FromPageTableIndices(p4: PageTableIndex, p3: PageTableIndex, p2: PageTableIndex,
                                p1: PageTableIndex): (r: Page)
    ensures r.size == Size4KiB
    ensures PageTableIndexOf(r, Four) == p4 && PageTableIndexOf(r, Three) == p3
    ensures PageTableIndexOf(r, Two) == p2 && PageTableIndexOf(r, One) == p1
  {
    var t := VirtNewTruncate(IndexSum(p4, p3, p2, p1));
    TruncatedIndexSum(p4, p3, p2, p1);
    AlignedSumStaysAligned(p4, p3, p2, p1, Size4KiB);
    ContainingAligned(Size4KiB, t);
    ContainingAddress(Size4KiB, t)
  }

  /** The index sum is aligned to the page size when the indices below the leaf level are zero. */
  lemma IndexSumAligned(p4: PageTableIndex, p3: PageTableIndex, p2: PageTableIndex,
                        p1: PageTableIndex, s: PageSize)
    requires s != Size4KiB ==> p1 == 0
    requires s == Size1GiB ==> p2 == 0
    ensures IndexSum(p4, p3, p2, p1) % Size(s) == 0
  {
    var x: int := IndexSum(p4, p3, p2, p1);
    match s
    case Size4KiB =>
      assert x == 0x1000 * (p4 * 0x800_0000 + p3 * 0x4_0000 + p2 * 512 + p1);
      MultipleModIsZero(0x1000, p4 * 0x800_0000 + p3 * 0x4_0000 + p2 * 512 + p1);
    case Size2MiB =>
      assert x == 0x20_0000 * (p4 * 0x4_0000 + p3 * 512 + p2);
      MultipleModIsZero(0x20_0000, p4 * 0x4_0000 + p3 * 512 + p2);
    case Size1GiB =>
      assert x == 0x4000_0000 * (p4 * 512 + p3);
      MultipleModIsZero(0x4000_0000, p4 * 512 + p3);
  }

  /** Sign extension keeps that alignment. */
  lemma AlignedSumStaysAligned(p4: PageTableIndex, p3: PageTableIndex, p2: PageTableIndex,
                               p1: PageTableIndex, s: PageSize)
    requires s != Size4KiB ==> p1 == 0
    requires s == Size1GiB ==> p2 == 0
    ensures VirtNewTruncate(IndexSum(p4, p3, p2, p1)) % Size(s) == 0
  {
    SizeFacts(s);
    IndexSumAligned(p4, p3, p2, p1, s);
    AlignedTruncateStaysAligned(IndexSum(p4, p3, p2, p1), Size(s));
  }

  /** Every page start is 4 KiB aligned, so its page offset is zero. */
  lemma PageOffsetIsZero(p: Page)
    ensures PageOffsetOf(p.start) == 0
  {
    var a: int := p.start;
    match p.size
    case Size4KiB =>
    case Size2MiB =>
      DivModUnique(0x1000, 512 * (a / 0x20_0000), 0, a);
    case Size1GiB =>
      DivModUnique(0x1000, 0x4_0000 * (a / 0x4000_0000), 0, a);
  }

  /** Every page is rebuilt from its own indices: with the round trips in the functions' contracts
      this makes `from_page_table_indices*` and the index accessors inverse to each other. */
  lemma PageFromOwnIndices(p: Page)
    ensures p.size == Size1GiB ==>
      FromPageTableIndices1GiB(PageTableIndexOf(p, Four), PageTableIndexOf(p, Three)) == p
    ensures p.size == Size2MiB ==>
      FromPageTableIndices2MiB(PageTableIndexOf(p, Four), PageTableIndexOf(p, Three),
                               PageTableIndexOf(p, Two)) == p
    ensures p.size == Size4KiB ==>
      FromPageTableIndices(PageTableIndexOf(p, Four), PageTableIndexOf(p, Three),
                           PageTableIndexOf(p, Two), PageTableIndexOf(p, One)) == p
  {
    var q: Page;
    SizeFacts(p.size);
    match p.size
    case Size1GiB =>
      IndicesBelowLeafAreZero(p, Two);
      IndicesBelowLeafAreZero(p, One);
      q := FromPageTableIndices1GiB(PageTableIndexOf(p, Four), PageTableIndexOf(p, Three));
      IndicesBelowLeafAreZero(q, Two);
      IndicesBelowLeafAreZero(q, One);
      SameFieldsSamePage(p, q);
    case Size2MiB =>
      IndicesBelowLeafAreZero(p, One);
      q := FromPageTableIndices2MiB(PageTableIndexOf(p, Four), PageTableIndexOf(p, Three),
        PageTableIndexOf(p, Two));
      IndicesBelowLeafAreZero(q, One);
      SameFieldsSamePage(p, q);
    case Size4KiB =>
      q := FromPageTableIndices(PageTableIndexOf(p, Four), PageTableIndexOf(p, Three),
        PageTableIndexOf(p, Two), PageTableIndexOf(p, One));
      SameFieldsSamePage(p, q);
  }

  /** Two pages of one size with the same four indices are the same page. */
  lemma SameFieldsSamePage(p: Page, q: Page)
    requires p.size == q.size
    requires PageTableIndexOf(p, Four) == PageTableIndexOf(q, Four)
    requires PageTableIndexOf(p, Three) == PageTableIndexOf(q, Three)
    requires PageTableIndexOf(p, Two) == PageTableIndexOf(q, Two)
    requires PageTableIndexOf(p, One) == PageTableIndexOf(q, One)
    ensures p == q
  {
    PageOffsetIsZero(p);
    PageOffsetIsZero(q);
    VirtAddrFromParts(p.start, q.start);
  }

  /** Sign-extending a page start moved by a whole number of pages gives a page start. */
  lemma MovedStartAligned(p: Page, x: u64, n: int)
    requires x == p.start + n * Size(p.size)
    ensures VirtNewTruncate(x) % Size(p.size) == 0
  {
    var sz := Size(p.size);
    SizeFacts(p.size);
    ModAddMultiple(p.start, sz, n);
    AlignedTruncateStaysAligned(x, sz);
  }

  /** The same for a start moved back by a whole number of pages. */
  lemma MovedBackAligned(p: Page, x: u64, n: nat)
    requires x == p.start - n * Size(p.size)
    ensures VirtNewTruncate(x) % Size(p.size) == 0
  {
    var m: int := n;
    assert x == p.start + (-m) * Size(p.size);
    MovedStartAligned(p, x, -m);
  }

  /** `VirtAddr::new` never lowers a value it accepts: it either keeps it or sets bits 48..63. */
  lemma AcceptedNotLowered(x: u64)
    requires VirtAccepts(x)
    ensures x <= VirtNewTruncate(x)
  {
    if x < TWO_48 {
      assert x % TWO_48 == x;
    }
  }

  /** `Page + u64`: the page containing `start + n * SIZE`. The `VirtAddr` addition panics when
      the sum overflows (debug build) or is not accepted by `VirtAddr::new`. The result keeps bits 0..47 of the
      sum, and is the sum itself when that is canonical. */
  function PageAdd(p: Page, n: u64): (r: Page)
    requires p.start + n * Size(p.size) < U64_LIMIT
    requires VirtAccepts(p.start + n * Size(p.size))
    ensures r.size == p.size
    ensures r.start % TWO_48 == (p.start + n * Size(p.size)) % TWO_48
    ensures IsCanonical(p.start + n * Size(p.size)) ==> r.start == p.start + n * Size(p.size)
    ensures p.start <= r.start
  {
    MulMonotone(Size(p.size), 0, n);
    AcceptedNotLowered(p.start + n * Size(p.size));
    var sum := VirtAdd(p.start, n * Size(p.size));
    MovedStartAligned(p, p.start + n * Size(p.size), n);
    ContainingAligned(p.size, sum);
    ContainingAddress(p.size, sum)
  }

  /** `Page - u64`: the page containing `start - n * SIZE`; the subtraction panics below zero and
      `VirtAddr::new` panics on a value it does not accept. */
  function PageSub(p: Page, n: u64): (r: Page)
    requires n * Size(p.size) <= p.start
    requires VirtAccepts(p.start - n * Size(p.size))
    ensures r.size == p.size
    ensures r.start % TWO_48 == (p.start - n * Size(p.size)) % TWO_48
    ensures IsCanonical(p.start - n * Size(p.size)) ==> r.start == p.start - n * Size(p.size)
  {
    var x := p.start - n * Size(p.size);
    MovedBackAligned(p, x, n);
    var diff := VirtSub(p.start, n * Size(p.size));
    ContainingAligned(p.size, diff);
    assert diff % TWO_48 == x % TWO_48;
    ContainingAddress(p.size, diff)
  }

  /** `Page - Page`: the number of pages between the two start addresses; the `VirtAddr`
      subtraction panics when the right page is the higher one. */
  function PageDiff(p: Page, q: Page): (r: u64)
    requires p.size == q.size && q.start <= p.start
    ensures q.start + r * Size(p.size) == p.start
  {
    var sz := Size(p.size);
    var d := VirtDiff(p.start, q.start);
    ExactQuotient(q.start, d, sz);
    d / sz
  }

  /** Within one canonical half, adding `n` pages and subtracting them again are inverse, and
      the difference counts the pages added. */
  lemma PageArithmeticRoundTrip(p: Page, n: u64)
    requires p.start + n * Size(p.size) < U64_LIMIT && IsCanonical(p.start + n * Size(p.size))
    ensures PageSub(PageAdd(p, n), n) == p
    ensures PageDiff(PageAdd(p, n), p) == n
  {
    var sz := Size(p.size);
    var q := PageAdd(p, n);
    assert q.start == p.start + n * sz;
    assert PageSub(q, n) == p by {
      assert PageSub(q, n).start == p.start;
    }
    var d := PageDiff(q, p);
    assert d == n by {
      assert sz > 0 && d * sz == n * sz;
      MulCancel(sz, d, n);
    }
  }

  /** The position of a canonical address once the hole between the two halves is squeezed out:
      its bits 0..47. The lower half keeps its numbers and the upper half follows it. */
  function Rank(a: VirtAddr): (r: int)
    ensures 0 <= r < TWO_48
    ensures a < TWO_47 ==> r == a
    ensures a >= UPPER_HALF ==> r == a - (U64_LIMIT - TWO_48)
  {
    CanonicalFromLow48(a);
    a % TWO_48
  }

  /** `Rank` keeps the order of addresses, so it is injective. */
  lemma RankOrder(a: VirtAddr, b: VirtAddr)
    ensures a < b <==> Rank(a) < Rank(b)
    ensures a == b <==> Rank(a) == Rank(b)
  {
  }

  /** A page start keeps its alignment when the hole is squeezed out. */
  lemma RankAligned(p: Page)
    ensures Rank(p.start) % Size(p.size) == 0
  {
    SizeFacts(p.size);
    if p.start >= UPPER_HALF {
      var c := (U64_LIMIT - TWO_48) / Size(p.size);
      assert U64_LIMIT - TWO_48 == Size(p.size) * c;
      ModAddMultiple(p.start, Size(p.size), -c);
    }
  }

  /** The page after a page that lies below another page of its size exists, is accepted by
      `VirtAddr::new`, and is one page further on once the hole is squeezed out. */
  lemma NextPageFits(p: Page, q: Page)
    requires p.size == q.size && p.start < q.start
    ensures p.start + Size(p.size) <= q.start
    ensures VirtAccepts(p.start + 1 * Size(p.size))
    ensures Rank(PageAdd(p, 1).start) == Rank(p.start) + Size(p.size)
    ensures Rank(p.start) + Size(p.size) <= Rank(q.start)
  {
    var n := Size(p.size);
    SizeFacts(p.size);
    AlignedGap(p.start, q.start, n);
    if p.start < TWO_47 {
      AlignedGap(p.start, TWO_47, n);
    }
    RankOrder(p.start, q.start);
    RankAligned(p);
    RankAligned(q);
    AlignedGap(Rank(p.start), Rank(q.start), n);
    var a: int := p.start;
    DivModUnique(TWO_48, a / TWO_48, Rank(p.start) + n, a + n);
  }

  /** `PageRange<S>`: pages from `start` up to but excluding `end`. */
  datatype PageRange = PageRange(start: Page, end: Page)

  /** `PageRange::is_empty`. */
  predicate RangeIsEmpty(r: PageRange)
  {
    r.start.start >= r.end.start
  }

  /** `PageRange::next`: the first page, and the range that starts one page further on; `None`
      exactly when the range is empty, leaving it unchanged. */
  function RangeNext(r: PageRange): (res: (Option<Page>, PageRange))
    requires r.start.size == r.end.size
    ensures res.0.None? <==> RangeIsEmpty(r)
    ensures res.0.None? ==> res.1 == r
    ensures res.0.Some? ==> res.0.value == r.start && res.1.end == r.end
    ensures res.0.Some? ==> res.1.start.size == r.start.size
    ensures res.0.Some? ==> Rank(res.1.start.start) == Rank(r.start.start) + Size(r.start.size)
  {
    if r.start.start < r.end.start then
      NextPageFits(r.start, r.end);
      (Some(r.start), PageRange(PageAdd(r.start, 1), r.end))
    else (None, r)
  }

  /** The gap between the two ends, measured without the hole. */
  function RangeGap(r: PageRange): nat
  {
    if RangeIsEmpty(r) then 0 else (RankOrder(r.start.start, r.end.start);
      Rank(r.end.start) - Rank(r.start.start))
  }

  /** The pages `next` yields, in order, until it returns `None`. */
  function RangeItems(r: PageRange): seq<Page>
    requires r.start.size == r.end.size
    decreases RangeGap(r)
  {
    match RangeNext(r)
    case (None, _) => []
    case (Some(p), rest) =>
      NextPageFits(r.start, r.end);
      RankOrder(rest.start.start, rest.end.start);
      [p] + RangeItems(rest)
  }

  /** The number of pages the range holds: the gap without the hole, in pages. */
  function RangeCount(r: PageRange): (n: u64)
    requires r.start.size == r.end.size
    ensures RangeIsEmpty(r) ==> n == 0
    ensures !RangeIsEmpty(r) ==> Rank(r.start.start) + n * Size(r.start.size) == Rank(r.end.start)
  {
    if RangeIsEmpty(r) then 0
    else
      var a, b, sz := Rank(r.start.start), Rank(r.end.start), Size(r.start.size);
      RankOrder(r.start.start, r.end.start);
      RankAligned(r.start);
      RankAligned(r.end);
      ExactQuotient(a, b - a, sz);
      (b - a) / sz
  }

  /** `next` yields exactly `RangeCount` pages, the i-th one `i` pages after `start` (with the
      hole squeezed out), all of the range's size. */
  lemma {:induction false} RangeItemsEnumerate(r: PageRange)
    requires r.start.size == r.end.size
    ensures |RangeItems(r)| == RangeCount(r)
    ensures forall i :: 0 <= i < |RangeItems(r)| ==> RangeItems(r)[i].size == r.start.size
    ensures forall i :: 0 <= i < |RangeItems(r)| ==>
      Rank(RangeItems(r)[i].start) == Rank(r.start.start) + i * Size(r.start.size)
    decreases RangeGap(r)
  {
    match RangeNext(r)
    case (None, _) =>
    case (Some(p), rest) =>
      NextPageFits(r.start, r.end);
      RankOrder(rest.start.start, rest.end.start);
      RangeItemsEnumerate(rest);
      assert RangeItems(r) == [p] + RangeItems(rest);
      StepCount(r, rest);
      ItemsStep(RangeItems(r), RangeItems(rest), r.start.size, Rank(r.start.start));
  }

  /** A sequence of pages that starts at rank `a` and continues with pages of consecutive ranks
      from `a + SIZE` has consecutive ranks from `a`. */
  lemma ItemsStep(items: seq<Page>, tail: seq<Page>, s: PageSize, a: int)
    requires |items| == |tail| + 1 && items[1..] == tail
    requires items[0].size == s && Rank(items[0].start) == a
    requires forall j :: 0 <= j < |tail| ==> tail[j].size == s
    requires forall j :: 0 <= j < |tail| ==> Rank(tail[j].start) == a + Size(s) + j * Size(s)
    ensures forall i :: 0 <= i < |items| ==> items[i].size == s
    ensures forall i :: 0 <= i < |items| ==> Rank(items[i].start) == a + i * Size(s)
  {
    var sz := Size(s);
    forall i | 1 <= i < |items|
      ensures Rank(items[i].start) == a + i * sz
    {
      assert items[i] == tail[i - 1];
      assert (i - 1) * sz + sz == i * sz;
    }
  }

  /** A range holds one page more than the range `next` leaves behind. */
  lemma StepCount(r: PageRange, rest: PageRange)
    requires r.start.size == r.end.size && !RangeIsEmpty(r)
    requires RangeNext(r).1 == rest
    ensures RangeCount(r) == RangeCount(rest) + 1
  {
    NextPageFits(r.start, r.end);
    var sz, a, b := Size(r.start.size), Rank(r.start.start), Rank(r.end.start);
    var c, c' := RangeCount(r), RangeCount(rest);
    assert a + c * sz == b;
    if RangeIsEmpty(rest) {
      RankOrder(rest.start.start, rest.end.start);
      assert a + sz + 0 * sz == b;
      CountStep(sz, a, b, c, 0);
    } else {
      assert a + sz + c' * sz == b;
      CountStep(sz, a, b, c, c');
    }
  }

  /** Two pages of one size at the same rank are the same page. */
  lemma SameRankSamePage(p: Page, q: Page)
    requires p.size == q.size && Rank(p.start) == Rank(q.start)
    ensures p == q
  {
    RankOrder(p.start, q.start);
  }

  /** The range from `start` up to its `k`-th page holds exactly the first `k` pages: the pages
      an iteration stopped at `RangeItems(r)[k]` has already visited. */
  lemma RangePrefix(r: PageRange, k: nat)
    requires r.start.size == r.end.size
    requires k < |RangeItems(r)|
    ensures RangeItems(r)[k].size == r.start.size
    ensures RangeItems(PageRange(r.start, RangeItems(r)[k])) == RangeItems(r)[..k]
  {
    PrefixLength(r, k);
    var items := RangeItems(r);
    var head := RangeItems(PageRange(r.start, items[k]));
    forall i | 0 <= i < k
      ensures head[i] == items[i]
    {
      PrefixElement(r, k, i);
    }
  }

  /** The range from `start` up to the `k`-th page yields `k` pages. */
  lemma PrefixLength(r: PageRange, k: nat)
    requires r.start.size == r.end.size
    requires k < |RangeItems(r)|
    ensures RangeItems(r)[k].size == r.start.size
    ensures |RangeItems(PageRange(r.start, RangeItems(r)[k]))| == k
  {
    RangeItemsEnumerate(r);
    var items := RangeItems(r);
    var p := PageRange(r.start, items[k]);
    var sz, a := Size(r.start.size), Rank(r.start.start);
    RangeItemsEnumerate(p);
    assert Rank(items[k].start) == a + k * sz;
    if k == 0 {
      SameRankSamePage(items[0], r.start);
      assert RangeIsEmpty(p);
    } else {
      MulAtLeast(sz, k);
      RankOrder(r.start.start, items[k].start);
      assert !RangeIsEmpty(p);
      var n: int := RangeCount(p);
      assert a + n * sz == a + k * sz;
      MulCancel(sz, n, k);
    }
  }

  /** The `i`-th page of that shorter range is the `i`-th page of `r`. */
  lemma PrefixElement(r: PageRange, k: nat, i: nat)
    requires r.start.size == r.end.size
    requires k < |RangeItems(r)| && i < k
    requires RangeItems(r)[k].size == r.start.size
    requires |RangeItems(PageRange(r.start, RangeItems(r)[k]))| == k
    ensures RangeItems(PageRange(r.start, RangeItems(r)[k]))[i] == RangeItems(r)[i]
  {
    var items := RangeItems(r);
    var p := PageRange(r.start, items[k]);
    RangeItemsEnumerate(r);
    RangeItemsEnumerate(p);
    SameRankSamePage(RangeItems(p)[i], items[i]);
  }

  /** The range an iterator over `r` is left as after `k` calls to `next`: its end and page size
      stay. */
  function RangeAdvance(r: PageRange, k: nat): (a: PageRange)
    requires r.start.size == r.end.size
    ensures a.start.size == r.start.size && a.end == r.end
  {
    if k == 0 then r else RangeNext(RangeAdvance(r, k - 1)).1
  }

  /** The range left after `k` calls to `next` yields the pages not yet yielded. */
  lemma {:induction false} RangeAdvanceItems(r: PageRange, k: nat)
    requires r.start.size == r.end.size && k <= |RangeItems(r)|
    ensures RangeItems(RangeAdvance(r, k)) == RangeItems(r)[k..]
  {
    if k > 0 {
      var before := RangeAdvance(r, k - 1);
      RangeAdvanceItems(r, k - 1);
      ItemsUnfold(before);
      assert RangeAdvance(r, k) == RangeNext(before).1;
      assert RangeItems(r)[k..] == RangeItems(r)[k - 1..][1..];
    }
  }

  /** A range that yields a page yields its start, then what `next` leaves behind yields. */
  lemma ItemsUnfold(r: PageRange)
    requires r.start.size == r.end.size && |RangeItems(r)| > 0
    ensures !RangeIsEmpty(r) && RangeNext(r).1.start.size == RangeNext(r).1.end.size
    ensures RangeItems(r) == [r.start] + RangeItems(RangeNext(r).1)
  {
  }

  /** A range that yields no page is empty. */
  lemma NoItemsEmpty(r: PageRange)
    requires r.start.size == r.end.size && RangeItems(r) == []
    ensures RangeIsEmpty(r)
  {
  }

  /** `PageRange::len` as written: `end - start` in pages, which counts the addresses of the hole
      when the range spans it. */
  function RangeLen(r: PageRange): (n: u64)
    requires r.start.size == r.end.size
    ensures RangeIsEmpty(r) ==> n == 0
    ensures !RangeIsEmpty(r) ==> r.start.start + n * Size(r.start.size) == r.end.start
  {
    if !RangeIsEmpty(r) then PageDiff(r.end, r.start) else 0
  }

  /** `PageRange::size`: `SIZE * len()`, the bytes from `start` to `end`. */
  function RangeSize(r: PageRange): (n: u64)
    requires r.start.size == r.end.size
    ensures n == if RangeIsEmpty(r) then 0 else r.end.start - r.start.start
  {
    Size(r.start.size) * RangeLen(r)
  }

  /** Within one canonical half `len` is the number of pages `next` yields. */
  lemma RangeLenWithinHalf(r: PageRange)
    requires r.start.size == r.end.size
    requires r.end.start < TWO_47 || r.start.start >= UPPER_HALF
    ensures RangeLen(r) == RangeCount(r) == |RangeItems(r)|
  {
    RangeItemsEnumerate(r);
    if !RangeIsEmpty(r) {
      var sz := Size(r.start.size);
      var l, c := RangeLen(r), RangeCount(r);
      assert l * sz == c * sz;
      MulCancel(sz, l, c);
    }
  }

  /** Across the hole it is not: the range from the last lower-half page to the first upper-half
      page yields one page, but `len` reports 2^52 - 2^36 + 1. */
  lemma RangeLenCountsHole()
    ensures var r := PageRange(RawPage(Size4KiB, 0x7fff_ffff_f000),
                               RawPage(Size4KiB, 0xffff_8000_0000_0000));
      RangeItems(r) == [r.start] && RangeCount(r) == 1 && RangeLen(r) == 0xf_fff0_0000_0001
  {
    var r := PageRange(RawPage(Size4KiB, 0x7fff_ffff_f000),
                       RawPage(Size4KiB, 0xffff_8000_0000_0000));
    RangeItemsEnumerate(r);
    var rest := RangeNext(r).1;
    assert rest.start == r.end;
    assert RangeItems(r) == [r.start] + RangeItems(rest);
  }

  /** `PageRange::<Size2MiB>::as_4kib_page_range`: the same span of memory in 4 KiB pages, 512
      of them for every 2 MiB page. */
  function As4KiBPageRange(r: PageRange): (res: PageRange)
    requires r.start.size == Size2MiB && r.end.size == Size2MiB
    ensures res.start.size == Size4KiB && res.end.size == Size4KiB
    ensures res.start.start == r.start.start && res.end.start == r.end.start
    ensures RangeCount(res) == 512 * RangeCount(r)
  {
    PageOffsetIsZero(r.start);
    PageOffsetIsZero(r.end);
    ContainingAligned(Size4KiB, r.start.start);
    ContainingAligned(Size4KiB, r.end.start);
    var res := PageRange(ContainingAddress(Size4KiB, r.start.start),
                         ContainingAddress(Size4KiB, r.end.start));
    assert RangeCount(res) * 0x1000 == 512 * RangeCount(r) * 0x1000;
    res
  }

  /** `PageRangeInclusive<S>`: pages from `start` up to and including `end`. */
  datatype PageRangeInclusive = PageRangeInclusive(start: Page, end: Page)

  /** `PageRangeInclusive::is_empty`. */
  predicate InclusiveIsEmpty(r: PageRangeInclusive)
  {
    r.start.start > r.end.start
  }

  /** `PageRangeInclusive::len` as written: `end - start + 1` in pages, which, like
      `PageRange::len`, counts the hole. */
  function InclusiveLen(r: PageRangeInclusive): (n: u64)
    requires r.start.size == r.end.size
    ensures InclusiveIsEmpty(r) ==> n == 0
    ensures !InclusiveIsEmpty(r) ==> n >= 1 && r.start.start + (n - 1) * Size(r.start.size) == r.end.start
  {
    if !InclusiveIsEmpty(r) then
      SizeFacts(r.start.size);
      DivIsSmaller(r.end.start - r.start.start, Size(r.start.size));
      PageDiff(r.end, r.start) + 1
    else 0
  }

  /** `PageRangeInclusive::size`: `SIZE * len()`, the bytes from `start` to the end of `end`.
      The product reaches 2^64 exactly for the range of every page of the address space; a
      release build wraps it to 0 there, which is what the model returns. */
  function InclusiveSize(r: PageRangeInclusive): (n: u64)
    requires r.start.size == r.end.size
    ensures Size(r.start.size) * InclusiveLen(r) < U64_LIMIT ==>
      n == if InclusiveIsEmpty(r) then 0 else r.end.start - r.start.start + Size(r.start.size)
    ensures Size(r.start.size) * InclusiveLen(r) >= U64_LIMIT <==>
      r.start.start == 0 && r.end.start == U64_LIMIT - Size(r.start.size)
    ensures Size(r.start.size) * InclusiveLen(r) >= U64_LIMIT ==> n == 0
  {
    var sz, l := Size(r.start.size), InclusiveLen(r);
    InclusiveSizeReach(r);
    (sz * l) % U64_LIMIT
  }

  /** The bytes of an inclusive range are the distance from its start to the end of its last
      page; they reach 2^64 only when the range runs from address 0 to the last page. */
  lemma InclusiveSizeReach(r: PageRangeInclusive)
    requires r.start.size == r.end.size
    ensures var sz := Size(r.start.size);
      && (!InclusiveIsEmpty(r) ==> sz * InclusiveLen(r) == r.end.start - r.start.start + sz)
      && (sz * InclusiveLen(r) <= U64_LIMIT)
      && (sz * InclusiveLen(r) >= U64_LIMIT <==> r.start.start == 0 && r.end.start == U64_LIMIT - sz)
  {
    var sz, l := Size(r.start.size), InclusiveLen(r);
    SizeFacts(r.start.size);
    MulPred(sz, l);
    LastPageStart(r.end);
    if r.start.start > 0 {
      AlignedGap(0, r.start.start, sz);
    }
  }

  /** No page starts above the last page of the address space. */
  lemma LastPageStart(p: Page)
    ensures p.start <= U64_LIMIT - Size(p.size)
  {
    SizeFacts(p.size);
    AlignedGap(p.start, U64_LIMIT, Size(p.size));
  }

  /** The start of the last page of the address space, `VirtAddr::new(u64::MAX) - (SIZE - 1)`. */
  function MaxPageStart(s: PageSize): (r: VirtAddr)
    ensures r == U64_LIMIT - Size(s)
  {
    SizeFacts(s);
    VirtSub(VirtNew(U64_LIMIT - 1), Size(s) - 1)
  }

  /** `PageRangeInclusive::next`: the first page, and what is left. Below the last page of the
      address space it moves `start` one page on; at the last page, where that would overflow, it
      moves `end` one page back instead, which empties the range. */
  function InclusiveNext(r: PageRangeInclusive): (res: (Option<Page>, PageRangeInclusive))
    requires r.start.size == r.end.size
    ensures res.0.None? <==> InclusiveIsEmpty(r)
    ensures res.0.None? ==> res.1 == r
    ensures res.0.Some? ==> res.0.value == r.start
    ensures res.0.Some? ==> res.1.start.size == r.start.size && res.1.end.size == r.start.size
    ensures res.0.Some? && r.start != r.end ==>
      res.1.end == r.end && Rank(res.1.start.start) == Rank(r.start.start) + Size(r.start.size)
    ensures res.0.Some? && r.start == r.end ==> InclusiveIsEmpty(res.1)
  {
    if r.start.start <= r.end.start then
      if r.start.start < MaxPageStart(r.start.size) then (Some(r.start), InclusiveStep(r))
      else
        LastPageStep(r);
        (Some(r.start), PageRangeInclusive(r.start, PageSub(r.end, 1)))
    else (None, r)
  }

  /** Below the last page of the address space, `start` moves one page on; that empties a range
      of one page. */
  function InclusiveStep(r: PageRangeInclusive): (rest: PageRangeInclusive)
    requires r.start.size == r.end.size && r.start.start <= r.end.start
    requires r.start.start < MaxPageStart(r.start.size)
    ensures rest.start.size == r.start.size && rest.end == r.end
    ensures Rank(rest.start.start) == Rank(r.start.start) + Size(r.start.size)
    ensures r.start == r.end ==> InclusiveIsEmpty(rest)
  {
    StepBelowMax(r.start);
    PageRangeInclusive(PageAdd(r.start, 1), r.end)
  }

  /** A page below the last one of the address space has a next page, one page further on. */
  lemma StepBelowMax(p: Page)
    requires p.start < MaxPageStart(p.size)
    ensures p.start + 1 * Size(p.size) < U64_LIMIT && VirtAccepts(p.start + 1 * Size(p.size))
    ensures Rank(PageAdd(p, 1).start) == Rank(p.start) + Size(p.size)
    ensures p.start < PageAdd(p, 1).start
  {
    SizeFacts(p.size);
    var last := MaxPageStart(p.size);
    assert last % Size(p.size) == 0;
    NextPageFits(p, RawPage(p.size, last));
    RankOrder(p.start, PageAdd(p, 1).start);
  }

  /** A non-empty inclusive range whose start is the last page holds only that page, and moving
      its end one page back is defined and empties it. */
  lemma LastPageStep(r: PageRangeInclusive)
    requires r.start.size == r.end.size
    requires MaxPageStart(r.start.size) <= r.start.start <= r.end.start
    ensures r.start == r.end
    ensures 1 * Size(r.end.size) <= r.end.start && VirtAccepts(r.end.start - 1 * Size(r.end.size))
    ensures InclusiveIsEmpty(PageRangeInclusive(r.start, PageSub(r.end, 1)))
  {
    SizeFacts(r.start.size);
    if r.end.start + Size(r.start.size) != U64_LIMIT {
      AlignedGap(r.end.start, U64_LIMIT, Size(r.start.size));
    }
  }

  /** The gap between the two ends plus one page, measured without the hole. */
  function InclusiveGap(r: PageRangeInclusive): nat
    requires r.start.size == r.end.size
  {
    if InclusiveIsEmpty(r) then 0 else (RankOrder(r.start.start, r.end.start);
      Rank(r.end.start) - Rank(r.start.start) + Size(r.start.size))
  }

  /** The pages `next` yields, in order, until it returns `None`. */
  function InclusiveItems(r: PageRangeInclusive): seq<Page>
    requires r.start.size == r.end.size
    decreases InclusiveGap(r)
  {
    match InclusiveNext(r)
    case (None, _) => []
    case (Some(p), rest) =>
      if r.start != r.end then
        RankOrder(r.start.start, r.end.start);
        RankOrder(rest.start.start, rest.end.start);
        [p] + InclusiveItems(rest)
      else [p] + InclusiveItems(rest)
  }

  /** The number of pages the inclusive range holds, counted without the hole. */
  function InclusiveCount(r: PageRangeInclusive): (n: u64)
    requires r.start.size == r.end.size
    ensures InclusiveIsEmpty(r) ==> n == 0
    ensures !InclusiveIsEmpty(r) ==>
      n >= 1 && Rank(r.start.start) + (n - 1) * Size(r.start.size) == Rank(r.end.start)
  {
    if InclusiveIsEmpty(r) then 0
    else RangeCount(PageRange(r.start, r.end)) + 1
  }

  /** An inclusive range holds one page more than the range `next` leaves behind. */
  lemma InclusiveStepCount(r: PageRangeInclusive, rest: PageRangeInclusive)
    requires r.start.size == r.end.size && !InclusiveIsEmpty(r)
    requires InclusiveNext(r).1 == rest
    ensures InclusiveCount(r) == InclusiveCount(rest) + 1
  {
    if r.start != r.end {
      RankOrder(r.start.start, r.end.start);
      ShiftedInclusiveCount(r, rest);
    }
  }

  /** Two inclusive ranges with the same end, the second starting one page later, differ by one
      page in their count. */
  lemma ShiftedInclusiveCount(r: PageRangeInclusive, rest: PageRangeInclusive)
    requires r.start.size == r.end.size && rest.start.size == r.start.size && rest.end == r.end
    requires r.start.start < r.end.start
    requires Rank(rest.start.start) == Rank(r.start.start) + Size(r.start.size)
    ensures InclusiveCount(r) == InclusiveCount(rest) + 1
  {
    var sz: int, a: int, b: int := Size(r.start.size), Rank(r.start.start), Rank(r.end.start);
    assert a + sz <= b by {
      RankOrder(r.start.start, r.end.start);
      RankAligned(r.start);
      RankAligned(r.end);
      AlignedGap(a, b, sz);
    }
    assert !InclusiveIsEmpty(rest) by {
      RankOrder(rest.start.start, rest.end.start);
    }
    var c: int, c': int := InclusiveCount(r) - 1, InclusiveCount(rest) - 1;
    assert a + c * sz == b;
    assert a + sz + c' * sz == b;
    CountStep(sz, a, b, c, c');
  }

  /** `next` on an inclusive range yields exactly `InclusiveCount` pages, the i-th one `i` pages
      after `start` (with the hole squeezed out), including the last page of the address space
      when the range ends there. */
  lemma {:induction false} InclusiveItemsEnumerate(r: PageRangeInclusive)
    requires r.start.size == r.end.size
    ensures |InclusiveItems(r)| == InclusiveCount(r)
    ensures forall i :: 0 <= i < |InclusiveItems(r)| ==> InclusiveItems(r)[i].size == r.start.size
    ensures forall i :: 0 <= i < |InclusiveItems(r)| ==>
      Rank(InclusiveItems(r)[i].start) == Rank(r.start.start) + i * Size(r.start.size)
    decreases InclusiveGap(r)
  {
    match InclusiveNext(r)
    case (None, _) =>
    case (Some(p), rest) =>
      if r.start != r.end {
        RankOrder(r.start.start, r.end.start);
        RankOrder(rest.start.start, rest.end.start);
      }
      InclusiveItemsEnumerate(rest);
      assert InclusiveItems(r) == [p] + InclusiveItems(rest);
      InclusiveStepCount(r, rest);
      ItemsStep(InclusiveItems(r), InclusiveItems(rest), r.start.size, Rank(r.start.start));
  }

  /** The range holding only the last 4 KiB page of the address space yields that page once and
      then stops, where incrementing `start` would have overflowed. */
  lemma InclusiveLastPage()
    ensures var top := RawPage(Size4KiB, 0xffff_ffff_ffff_f000);
      InclusiveItems(PageRangeInclusive(top, top)) == [top]
  {
    var top := RawPage(Size4KiB, 0xffff_ffff_ffff_f000);
    var r := PageRangeInclusive(top, top);
    InclusiveItemsEnumerate(r);
  }

  /** Within one canonical half the inclusive `len` is the number of pages `next` yields. */
  lemma InclusiveLenWithinHalf(r: PageRangeInclusive)
    requires r.start.size == r.end.size
    requires r.end.start < TWO_47 || r.start.start >= UPPER_HALF
    ensures InclusiveLen(r) == InclusiveCount(r) == |InclusiveItems(r)|
  {
    InclusiveItemsEnumerate(r);
    if !InclusiveIsEmpty(r) {
      var sz := Size(r.start.size);
      var l, c := InclusiveLen(r) - 1, InclusiveCount(r) - 1;
      assert l * sz == c * sz;
      MulCancel(sz, l, c);
    }
  }
}
