/** The mapper interface (`mapper/mod.rs`): the values every mapper returns, the conversions
    between its error types, and the default methods written once for every implementation.

    A default method only sees the implementation through the trait, so here it takes the
    implementation's per-page operation as a function argument and threads the implementation's
    state (the page tables, the allocator, the deallocator) through it unchanged. */
module Mapper {
  import opened Wrappers
  import opened Words
  import opened Addr
  import opened Pages
  import opened Frames
  import opened Tables

  /** `MapperFlush<S>`: the page whose translation has to be flushed. */
  datatype MapperFlush = MapperFlush(page: Page)

  /** `MapperFlushRange<S>`: the pages whose translations have to be flushed. */
  datatype MapperFlushRange = MapperFlushRange(pages: PageRange)

  /** `MapperFlushAll`: the whole translation cache has to be flushed. */
  datatype MapperFlushAll = MapperFlushAll

  /** `MapperFlushRange::empty`: the range from the page at address 0 up to the same page, which
      holds no page. */
  function FlushRangeEmpty(s: PageSize): (r: MapperFlushRange)
    ensures r.pages.start.size == s && r.pages.end.size == s
    ensures r.pages.start.start == 0 && RangeIsEmpty(r.pages)
    ensures RangeItems(r.pages) == []
  {
    var zero := ContainingAddress(s, 0);
    MapperFlushRange(PageRange(zero, zero))
  }

  /** `MapToError<S>`. `PageAlreadyMapped` carries the frame the caller asked to map. */
  datatype MapToError =
    | FrameAllocationFailed
    | ParentEntryHugePage
    | PageAlreadyMapped(frame: PhysFrame)

  /** `UnmapError`. */
  datatype UnmapError =
    | ParentEntryHugePage
    | PageNotMapped
    | InvalidFrameAddress(addr: PhysAddr)

  /** `FlagUpdateError`. */
  datatype FlagUpdateError =
    | PageNotMapped
    | ParentEntryHugePage

  /** `TranslateError`. */
  datatype TranslateError =
    | PageNotMapped
    | ParentEntryHugePage
    | InvalidFrameAddress(addr: PhysAddr)

  /** `From<FrameError> for UnmapError`. */
  function UnmapErrorOf(e: FrameError): UnmapError
  {
    match e
    case FrameNotPresent => UnmapError.PageNotMapped
    case HugeFrame => UnmapError.ParentEntryHugePage
  }

  /** `From<FrameError> for FlagUpdateError`. */
  function FlagUpdateErrorOf(e: FrameError): FlagUpdateError
  {
    match e
    case FrameNotPresent => FlagUpdateError.PageNotMapped
    case HugeFrame => FlagUpdateError.ParentEntryHugePage
  }

  /** Both conversions send a missing PRESENT flag to "not mapped" and a huge frame to "parent
      entry huge page", and neither loses which of the two it was. */
  lemma FrameErrorConversions(e: FrameError)
    ensures UnmapErrorOf(e) == UnmapError.PageNotMapped <==> e == FrameNotPresent
    ensures UnmapErrorOf(e) == UnmapError.ParentEntryHugePage <==> e == HugeFrame
    ensures FlagUpdateErrorOf(e) == FlagUpdateError.PageNotMapped <==> e == FrameNotPresent
    ensures FlagUpdateErrorOf(e) == FlagUpdateError.ParentEntryHugePage <==> e == HugeFrame
  {
  }

  /** `MappedFrame`: the frame a translation found, of one of the three sizes. The variant is the
      frame's size. */
  datatype MappedFrame = MappedFrame(frame: PhysFrame)

  /** `MappedFrame::start_address`. */
  function MappedFrameStart(m: MappedFrame): (r: PhysAddr)
    ensures r % Size(m.frame.size) == 0
  {
    m.frame.start
  }

  /** `MappedFrame::size`: 4 KiB, 2 MiB or 1 GiB by variant. */
  function MappedFrameSize(m: MappedFrame): (r: u64)
    ensures m.frame.size == Size4KiB ==> r == 0x1000
    ensures m.frame.size == Size2MiB ==> r == 0x20_0000
    ensures m.frame.size == Size1GiB ==> r == 0x4000_0000
  {
    Size(m.frame.size)
  }

  /** `TranslateResult`. */
  datatype TranslateResult =
    | Mapped(frame: MappedFrame, offset: u64, flags: PageTableFlags)
    | NotMapped
    | InvalidFrameAddress(addr: PhysAddr)

  /** `Translate::translate_addr`: no address unless the translation found a mapping, else the
      frame's start plus the offset. The addition is `PhysAddr + u64`, which panics past 52 bits;
      an offset inside the frame never gets there. */
  function TranslateAddr(t: TranslateResult): (r: Option<PhysAddr>)
    requires t.Mapped? ==> t.offset < MappedFrameSize(t.frame)
    ensures r.None? <==> !t.Mapped?
    ensures r.Some? ==> r.value == t.frame.frame.start + t.offset
    ensures r.Some? ==> t.frame.frame.start <= r.value < t.frame.frame.start + Size(t.frame.frame.size)
  {
    match t
    case Mapped(frame, offset, _) =>
      FrameEndFits(frame.frame);
      Some(PhysAdd(MappedFrameStart(frame), offset))
    case NotMapped => None
    case InvalidFrameAddress(_) => None
  }

  /** A frame ends at or below 2^52: its start is aligned to its size, which divides 2^52. */
  lemma FrameEndFits(f: PhysFrame)
    ensures f.start + Size(f.size) <= TWO_52
  {
    assert TWO_52 % Size(f.size) == 0 by {
      match f.size
      case Size4KiB =>
      case Size2MiB =>
      case Size1GiB =>
    }
    AlignedGap(f.start, TWO_52, Size(f.size));
  }

  /** The parent-table flags `map_to` passes on: the caller's flags restricted to PRESENT,
      WRITABLE and USER_ACCESSIBLE. */
  function ParentTableFlags(flags: PageTableFlags): (r: PageTableFlags)
    ensures forall k :: k in r <==> k in flags && (k == PRESENT || k == WRITABLE || k == USER_ACCESSIBLE)
  {
    flags * {PRESENT, WRITABLE, USER_ACCESSIBLE}
  }

  /** `Mapper::map_to`: `map_to_with_table_flags` with the parent flags taken from `flags` and
      every other argument passed through. */
  function MapTo<St>(st: St, page: Page, frame: PhysFrame, flags: PageTableFlags,
                     mapToWithTableFlags: (St, Page, PhysFrame, PageTableFlags, PageTableFlags)
                       -> (St, Result<MapperFlush, MapToError>))
    : (St, Result<MapperFlush, MapToError>)
  {
    mapToWithTableFlags(st, page, frame, flags, ParentTableFlags(flags))
  }

  /** The page `identity_map` maps a frame to: the page of the frame's size that contains
      `VirtAddr::new(frame.start)`. `VirtAddr::new` panics unless the frame starts below 2^48. */
  function IdentityPage(frame: PhysFrame): (r: Page)
    requires VirtAccepts(frame.start)
    ensures r.size == frame.size
    ensures r.start == VirtNewTruncate(frame.start)
  {
    SizeFacts(frame.size);
    var addr := VirtNew(frame.start);
    assert addr % Size(frame.size) == 0 by {
      IdentityAddressAligned(frame);
    }
    ContainingAligned(frame.size, addr);
    ContainingAddress(frame.size, addr)
  }

  /** The sign-extended start of a frame keeps the frame's alignment. */
  lemma IdentityAddressAligned(frame: PhysFrame)
    requires VirtAccepts(frame.start)
    ensures VirtNewTruncate(frame.start) % Size(frame.size) == 0
  {
    SizeFacts(frame.size);
    SignExtendedFrameStart(frame);
    AlignedTruncateStaysAligned(frame.start, Size(frame.size));
  }

  /** A frame start that `VirtAddr::new` accepts lies below 2^48 and is sign-extended from
      bit 47. */
  lemma SignExtendedFrameStart(frame: PhysFrame)
    requires VirtAccepts(frame.start)
    ensures frame.start < TWO_48
    ensures VirtNewTruncate(frame.start)
      == if frame.start < TWO_47 then frame.start else frame.start + (U64_LIMIT - TWO_48)
  {
    CanonicalFromLow48(VirtNewTruncate(frame.start));
  }

  /** `VirtAddr::new` accepts a frame start exactly when the frame lies below 2^48 (physical bits
      48 to 51 clear); the page then starts at the frame's own address when bit 47 is clear, and
      at its sign extension when it is set. */
  lemma IdentityPageAddress(frame: PhysFrame)
    ensures VirtAccepts(frame.start) <==> frame.start < TWO_48
    ensures frame.start < TWO_47 ==> IdentityPage(frame).start == frame.start
    ensures TWO_47 <= frame.start < TWO_48 ==>
      IdentityPage(frame).start == frame.start + (U64_LIMIT - TWO_48)
  {
    if VirtAccepts(frame.start) {
      SignExtendedFrameStart(frame);
    }
  }

  /** `Mapper::identity_map`: `map_to` of the frame's identity page. */
  function IdentityMap<St>(st: St, frame: PhysFrame, flags: PageTableFlags,
                           mapToWithTableFlags: (St, Page, PhysFrame, PageTableFlags, PageTableFlags)
                             -> (St, Result<MapperFlush, MapToError>))
    : (St, Result<MapperFlush, MapToError>)
    requires VirtAccepts(frame.start)
  {
    MapTo(st, IdentityPage(frame), frame, flags, mapToWithTableFlags)
  }

  /** `Iterator::try_for_each`: runs `step` over the items in order, threading the state, and
      stops at the first item whose step reports an error, returning that error and the item's
      position. */
  function TryForEach<St, T, E>(st: St, items: seq<T>, step: (St, T) -> (St, Option<E>))
    : (r: (St, Option<(E, nat)>))
    ensures r.1.Some? ==> r.1.value.1 < |items|
    decreases |items|
  {
    if |items| == 0 then (st, None)
    else
      var (st1, err) := step(st, items[0]);
      match err
      case Some(e) => (st1, Some((e, 0)))
      case None =>
        var (st2, rest) := TryForEach(st1, items[1..], step);
        match rest
        case None => (st2, None)
        case Some((e, k)) => (st2, Some((e, k + 1)))
  }

  /** A run that stops at position `k` ran every earlier step without an error, and its result is
      the `k`-th step's, taken from the state the earlier steps left. */
  lemma {:induction false} TryForEachStops<St, T, E>(st: St, items: seq<T>,
                                                     step: (St, T) -> (St, Option<E>))
    ensures var r := TryForEach(st, items, step);
      r.1.Some? ==>
        var k := r.1.value.1;
        var before := TryForEach(st, items[..k], step);
        before.1 == None && step(before.0, items[k]) == (r.0, Some(r.1.value.0))
    decreases |items|
  {
    var r := TryForEach(st, items, step);
    if |items| > 0 && r.1.Some? {
      var (st1, err) := step(st, items[0]);
      if err.None? {
        TryForEachStops(st1, items[1..], step);
        var k := r.1.value.1;
        assert items[..k][1..] == items[1..][..k - 1];
        assert items[k] == items[1..][k - 1];
      }
    }
  }

  /** A run that reports no error ran every step without one: a run over a prefix reports no
      error either. */
  lemma {:induction false} TryForEachPrefix<St, T, E>(st: St, items: seq<T>, n: nat,
                                                      step: (St, T) -> (St, Option<E>))
    requires n <= |items| && TryForEach(st, items, step).1 == None
    ensures TryForEach(st, items[..n], step).1 == None
    decreases |items|
  {
    if n > 0 {
      var (st1, err) := step(st, items[0]);
      TryForEachPrefix(st1, items[1..], n - 1, step);
      assert items[..n][1..] == items[1..][..n - 1];
    }
  }

  /** Pairs of the `i`-th page and the `i`-th frame, as far as both go: `pages.zip(frames)`. */
  function Zip(pages: seq<Page>, frames: seq<PhysFrame>): (r: seq<(Page, PhysFrame)>)
    ensures |r| == if |pages| < |frames| then |pages| else |frames|
    ensures forall i :: 0 <= i < |r| ==> r[i] == (pages[i], frames[i])
  {
    seq(if |pages| < |frames| then |pages| else |frames|, i requires 0 <= i < |pages| && i < |frames| =>
      (pages[i], frames[i]))
  }

  /** The result of a range operation: the flush range for the whole range, or the error and the
      flush range for the pages before the one that failed. */
  type RangeResult<E> = Result<MapperFlushRange, (E, MapperFlushRange)>

  /** The flush value a default range method builds from a run's outcome: the whole range, or the
      range from the first page up to (and excluding) the page that failed. */
  function RangeOutcome<E>(pages: PageRange, items: seq<Page>, outcome: Option<(E, nat)>)
    : RangeResult<E>
    requires outcome.Some? ==> outcome.value.1 < |items|
  {
    match outcome
    case None => Ok(MapperFlushRange(pages))
    case Some((e, k)) => Err((e, MapperFlushRange(PageRange(pages.start, items[k]))))
  }

  /** A default range method run item by item over a page range: on success the flush range is
      the whole range; on an error, the flush range holds exactly the pages already done, its end
      is the page that failed, the steps over the pages done all succeeded, and the failing step
      started from the state they left. */
  lemma RunStops<St, T, E>(st: St, pages: PageRange, items: seq<T>, step: (St, T) -> (St, Option<E>))
    requires pages.start.size == pages.end.size
    requires |items| == |RangeItems(pages)|
    ensures var run := TryForEach(st, items, step);
      var res := RangeOutcome(pages, RangeItems(pages), run.1);
      (res.Ok? <==> run.1.None?) && (res.Ok? ==> res.value.pages == pages)
    ensures var run := TryForEach(st, items, step);
      var res := RangeOutcome(pages, RangeItems(pages), run.1);
      res.Err? ==>
        var done := res.error.1.pages;
        done.start.size == done.end.size
        && |RangeItems(done)| < |items|
        && RangeItems(done) == RangeItems(pages)[..|RangeItems(done)|]
        && done.end == RangeItems(pages)[|RangeItems(done)|]
        && TryForEach(st, items[..|RangeItems(done)|], step).1 == None
        && step(TryForEach(st, items[..|RangeItems(done)|], step).0, items[|RangeItems(done)|])
           == (run.0, Some(res.error.0))
  {
    var run := TryForEach(st, items, step);
    TryForEachStops(st, items, step);
    if run.1.Some? {
      RangePrefix(pages, run.1.value.1);
    }
  }

  /** Default `Mapper::map_to_range_with_table_flags`: panics unless the page and frame ranges
      hold the same number of items, then maps them pairwise in order. */
  function MapToRangeWithTableFlags<St>(
    st: St, pages: PageRange, frames: PhysFrameRange, flags: PageTableFlags,
    parentFlags: PageTableFlags,
    mapToWithTableFlags: (St, Page, PhysFrame, PageTableFlags, PageTableFlags)
      -> (St, Result<MapperFlush, MapToError>))
    : (r: (St, RangeResult<MapToError>))
    requires pages.start.size == pages.end.size && frames.start.size == frames.end.size
    requires RangeCount(pages) == FrameRangeCount(frames)
  {
    var pageItems := RangeItems(pages);
    RangeItemsEnumerate(pages);
    FrameRangeItemsEnumerate(frames);
    var items := Zip(pageItems, FrameRangeItems(frames));
    var (st1, outcome) := TryForEach(st, items, MapPairStep(flags, parentFlags, mapToWithTableFlags));
    (st1, RangeOutcome(pages, pageItems, outcome))
  }

  /** One step of `map_to_range_with_table_flags`: map the pair, keeping only the error. */
  function MapPairStep<St>(flags: PageTableFlags, parentFlags: PageTableFlags,
                           mapToWithTableFlags: (St, Page, PhysFrame, PageTableFlags, PageTableFlags)
                             -> (St, Result<MapperFlush, MapToError>))
    : (St, (Page, PhysFrame)) -> (St, Option<MapToError>)
  {
    (s: St, pf: (Page, PhysFrame)) =>
      var (s1, res) := mapToWithTableFlags(s, pf.0, pf.1, flags, parentFlags);
      (s1, if res.Ok? then None else Some(res.error))
  }

  /** The pairs `map_to_range_with_table_flags` maps: the i-th page with the i-th frame. */
  function RangePairs(pages: PageRange, frames: PhysFrameRange): seq<(Page, PhysFrame)>
    requires pages.start.size == pages.end.size && frames.start.size == frames.end.size
  {
    Zip(RangeItems(pages), FrameRangeItems(frames))
  }

  /** Default `map_to_range_with_table_flags`: success flushes the whole range. An error comes
      from mapping the `k`-th page to the `k`-th frame, where `k` is the number of pages in the
      returned flush range, after each earlier page was mapped to its frame without an error. */
  lemma MapToRangeStops<St>(
    st: St, pages: PageRange, frames: PhysFrameRange, flags: PageTableFlags,
    parentFlags: PageTableFlags,
    mapToWithTableFlags: (St, Page, PhysFrame, PageTableFlags, PageTableFlags)
      -> (St, Result<MapperFlush, MapToError>))
    requires pages.start.size == pages.end.size && frames.start.size == frames.end.size
    requires RangeCount(pages) == FrameRangeCount(frames)
    ensures var r := MapToRangeWithTableFlags(st, pages, frames, flags, parentFlags, mapToWithTableFlags);
      r.1.Ok? ==> r.1.value.pages == pages
    ensures var r := MapToRangeWithTableFlags(st, pages, frames, flags, parentFlags, mapToWithTableFlags);
      r.1.Err? ==>
        var done := r.1.error.1.pages;
        done.start.size == done.end.size
        && var k := |RangeItems(done)|;
        var step := MapPairStep(flags, parentFlags, mapToWithTableFlags);
        k < |RangePairs(pages, frames)|
        && RangeItems(done) == RangeItems(pages)[..k]
        && done.end == RangePairs(pages, frames)[k].0
        && TryForEach(st, RangePairs(pages, frames)[..k], step).1 == None
        && mapToWithTableFlags(TryForEach(st, RangePairs(pages, frames)[..k], step).0,
                               RangePairs(pages, frames)[k].0, RangePairs(pages, frames)[k].1,
                               flags, parentFlags)
           == (r.0, Err(r.1.error.0))
  {
    RangeItemsEnumerate(pages);
    FrameRangeItemsEnumerate(frames);
    var items := RangePairs(pages, frames);
    var step := MapPairStep(flags, parentFlags, mapToWithTableFlags);
    var run := TryForEach(st, items, step);
    var res := RangeOutcome(pages, RangeItems(pages), run.1);
    assert MapToRangeWithTableFlags(st, pages, frames, flags, parentFlags, mapToWithTableFlags) == (run.0, res);
    RunStops(st, pages, items, step);
    if res.Err? {
      var k := |RangeItems(res.error.1.pages)|;
      var before := TryForEach(st, items[..k], step);
      PairStepFails(before.0, items[k], flags, parentFlags, mapToWithTableFlags, run.0, res.error.0);
    }
  }

  /** A pair step that reports an error is a mapping that returned that error. */
  lemma PairStepFails<St>(s: St, pf: (Page, PhysFrame), flags: PageTableFlags, parentFlags: PageTableFlags,
                          mapToWithTableFlags: (St, Page, PhysFrame, PageTableFlags, PageTableFlags)
                            -> (St, Result<MapperFlush, MapToError>),
                          s1: St, e: MapToError)
    requires MapPairStep(flags, parentFlags, mapToWithTableFlags)(s, pf) == (s1, Some(e))
    ensures mapToWithTableFlags(s, pf.0, pf.1, flags, parentFlags) == (s1, Err(e))
  {
  }

  /** Default `Mapper::map_range_with_table_flags`: for each page in order, allocates a frame
      (failing with `FrameAllocationFailed` when the allocator has none) and maps the page to it. */
  function MapRangeWithTableFlags<St>(
    st: St, pages: PageRange, flags: PageTableFlags, parentFlags: PageTableFlags,
    allocate: St -> (St, Option<PhysFrame>),
    mapToWithTableFlags: (St, Page, PhysFrame, PageTableFlags, PageTableFlags)
      -> (St, Result<MapperFlush, MapToError>))
    : (r: (St, RangeResult<MapToError>))
    requires pages.start.size == pages.end.size
  {
    var items := RangeItems(pages);
    var (st1, outcome) := TryForEach(st, items, AllocMapStep(flags, parentFlags, allocate, mapToWithTableFlags));
    (st1, RangeOutcome(pages, items, outcome))
  }

  /** One step of `map_range_with_table_flags`: allocate a frame, then map the page to it. */
  function AllocMapStep<St>(flags: PageTableFlags, parentFlags: PageTableFlags,
                            allocate: St -> (St, Option<PhysFrame>),
                            mapToWithTableFlags: (St, Page, PhysFrame, PageTableFlags, PageTableFlags)
                              -> (St, Result<MapperFlush, MapToError>))
    : (St, Page) -> (St, Option<MapToError>)
  {
    (s: St, p: Page) =>
      var (s1, frame) := allocate(s);
      match frame
      case None => (s1, Some(MapToError.FrameAllocationFailed))
      case Some(f) =>
        var (s2, res) := mapToWithTableFlags(s1, p, f, flags, parentFlags);
        (s2, if res.Ok? then None else Some(res.error))
  }

  /** Default `map_range_with_table_flags`: success flushes the whole range; an error at the page
      ending the returned flush range comes either from the allocator or from mapping that page,
      after every earlier page was given a frame and mapped. */
  lemma MapRangeStops<St>(
    st: St, pages: PageRange, flags: PageTableFlags, parentFlags: PageTableFlags,
    allocate: St -> (St, Option<PhysFrame>),
    mapToWithTableFlags: (St, Page, PhysFrame, PageTableFlags, PageTableFlags)
      -> (St, Result<MapperFlush, MapToError>))
    requires pages.start.size == pages.end.size
    ensures var r := MapRangeWithTableFlags(st, pages, flags, parentFlags, allocate, mapToWithTableFlags);
      r.1.Ok? ==> r.1.value.pages == pages
    ensures var r := MapRangeWithTableFlags(st, pages, flags, parentFlags, allocate, mapToWithTableFlags);
      r.1.Err? ==>
        var done := r.1.error.1.pages;
        var step := AllocMapStep(flags, parentFlags, allocate, mapToWithTableFlags);
        done.start.size == done.end.size
        && TryForEach(st, RangeItems(done), step).1 == None
        && var (s1, frame) := allocate(TryForEach(st, RangeItems(done), step).0);
           (frame.None? ==> r == (s1, Err((MapToError.FrameAllocationFailed, r.1.error.1))))
           && (frame.Some? ==>
                 mapToWithTableFlags(s1, done.end, frame.value, flags, parentFlags).1 == Err(r.1.error.0))
  {
    var items := RangeItems(pages);
    var step := AllocMapStep(flags, parentFlags, allocate, mapToWithTableFlags);
    RunStops(st, pages, items, step);
  }

  /** `map_range_with_table_flags` as written: `try_for_each` runs on `pages` itself, and each
      call to `next` moves its start on, so the flush ranges are built from what the loop left.
      On success that is the range after the final `next` returned `None`; on an error at the
      `k`-th page it is the range after the `k + 1` calls that reached that page. */
  function MapRangeWithTableFlagsAsWritten<St>(
    st: St, pages: PageRange, flags: PageTableFlags, parentFlags: PageTableFlags,
    allocate: St -> (St, Option<PhysFrame>),
    mapToWithTableFlags: (St, Page, PhysFrame, PageTableFlags, PageTableFlags)
      -> (St, Result<MapperFlush, MapToError>))
    : (r: (St, RangeResult<MapToError>))
    requires pages.start.size == pages.end.size
  {
    var items := RangeItems(pages);
    var (st1, outcome) := TryForEach(st, items, AllocMapStep(flags, parentFlags, allocate, mapToWithTableFlags));
    match outcome
    case None => (st1, Ok(MapperFlushRange(RangeAdvance(pages, |items| + 1))))
    case Some((e, k)) =>
      (st1, Err((e, MapperFlushRange(PageRange(RangeAdvance(pages, k + 1).start, items[k])))))
  }

  /** As written, `map_range_with_table_flags` maps the same pages and fails the same way, but
      its flush range is always empty: on success it is the exhausted range, so a non-empty range
      that was mapped is not flushed; on an error it runs from the page after the failing one to
      the failing one. */
  lemma MapRangeAsWrittenFlushesNothing<St>(
    st: St, pages: PageRange, flags: PageTableFlags, parentFlags: PageTableFlags,
    allocate: St -> (St, Option<PhysFrame>),
    mapToWithTableFlags: (St, Page, PhysFrame, PageTableFlags, PageTableFlags)
      -> (St, Result<MapperFlush, MapToError>))
    requires pages.start.size == pages.end.size
    ensures var w := MapRangeWithTableFlagsAsWritten(st, pages, flags, parentFlags, allocate, mapToWithTableFlags);
      var c := MapRangeWithTableFlags(st, pages, flags, parentFlags, allocate, mapToWithTableFlags);
      && w.0 == c.0 && w.1.Ok? == c.1.Ok?
      && (w.1.Ok? ==> RangeIsEmpty(w.1.value.pages) && w.1.value.pages.end == pages.end)
      && (w.1.Ok? && !RangeIsEmpty(pages) ==> w.1 != c.1)
      && (w.1.Err? ==>
            && w.1.error.0 == c.1.error.0
            && w.1.error.1.pages.end == c.1.error.1.pages.end
            && RangeIsEmpty(w.1.error.1.pages)
            && Rank(w.1.error.1.pages.start.start)
               == Rank(w.1.error.1.pages.end.start) + Size(pages.start.size))
  {
    var items := RangeItems(pages);
    var step := AllocMapStep(flags, parentFlags, allocate, mapToWithTableFlags);
    var run := TryForEach(st, items, step);
    RunStops(st, pages, items, step);
    RangeItemsEnumerate(pages);
    match run.1
    case None =>
      var adv := RangeAdvance(pages, |items|);
      RangeAdvanceItems(pages, |items|);
      NoItemsEmpty(adv);
      assert RangeAdvance(pages, |items| + 1) == adv;
    case Some((e, k)) =>
      var adv := RangeAdvance(pages, k);
      RangeAdvanceItems(pages, k);
      ItemsUnfold(adv);
      var after := RangeAdvance(pages, k + 1);
      assert after == RangeNext(adv).1;
      RankOrder(items[k].start, after.start.start);
  }

  /** Default `Mapper::unmap_range`: unmaps the pages in order and hands each unmapped frame to
      the deallocator, stopping at the first error. */
  function UnmapRange<St, D>(
    st: St, dealloc: D, pages: PageRange,
    unmap: (St, Page) -> (St, Result<(PhysFrame, MapperFlush), UnmapError>),
    deallocate: (D, PhysFrame) -> D)
    : (r: (St, D, RangeResult<UnmapError>))
    requires pages.start.size == pages.end.size
  {
    var items := RangeItems(pages);
    var (s1, outcome) := TryForEach((st, dealloc), items, UnmapStep(unmap, deallocate));
    (s1.0, s1.1, RangeOutcome(pages, items, outcome))
  }

  /** One step of `unmap_range`: unmap the page, then deallocate its frame. */
  function UnmapStep<St, D>(unmap: (St, Page) -> (St, Result<(PhysFrame, MapperFlush), UnmapError>),
                            deallocate: (D, PhysFrame) -> D)
    : ((St, D), Page) -> ((St, D), Option<UnmapError>)
  {
    (s: (St, D), p: Page) =>
      var (st1, res) := unmap(s.0, p);
      match res
      case Ok((frame, _)) => ((st1, deallocate(s.1, frame)), None)
      case Err(e) => ((st1, s.1), Some(e))
  }

  /** Default `unmap_range`: success flushes the whole range. An error is the range run over the
      pages in the returned flush range, which succeeds, followed by a failing `unmap` of the page
      that ends it; the deallocator then holds exactly what the successful part handed it. */
  lemma UnmapRangeStops<St, D>(
    st: St, dealloc: D, pages: PageRange,
    unmap: (St, Page) -> (St, Result<(PhysFrame, MapperFlush), UnmapError>),
    deallocate: (D, PhysFrame) -> D)
    requires pages.start.size == pages.end.size
    ensures var r := UnmapRange(st, dealloc, pages, unmap, deallocate);
      r.2.Ok? ==> r.2.value.pages == pages
    ensures var r := UnmapRange(st, dealloc, pages, unmap, deallocate);
      r.2.Err? ==>
        var done := r.2.error.1.pages;
        done.start.size == done.end.size
        && var before := UnmapRange(st, dealloc, done, unmap, deallocate);
           before.2 == Ok(MapperFlushRange(done))
           && unmap(before.0, done.end) == (r.0, Err(r.2.error.0))
           && r.1 == before.1
  {
    var items := RangeItems(pages);
    var step := UnmapStep(unmap, deallocate);
    var run := TryForEach((st, dealloc), items, step);
    var res := RangeOutcome(pages, items, run.1);
    assert UnmapRange(st, dealloc, pages, unmap, deallocate) == (run.0.0, run.0.1, res);
    RunStops((st, dealloc), pages, items, step);
    if res.Err? {
      var done := res.error.1.pages;
      var k := |RangeItems(done)|;
      var prev := TryForEach((st, dealloc), items[..k], step);
      assert UnmapRange(st, dealloc, done, unmap, deallocate)
        == (prev.0.0, prev.0.1, Ok(MapperFlushRange(done)));
      UnmapStepFails(prev.0, items[k], unmap, deallocate, run.0, res.error.0);
    }
  }

  /** An unmap step that reports an error is an `unmap` that returned that error, and it leaves
      the deallocator alone. */
  lemma UnmapStepFails<St, D>(s: (St, D), p: Page,
                              unmap: (St, Page) -> (St, Result<(PhysFrame, MapperFlush), UnmapError>),
                              deallocate: (D, PhysFrame) -> D, s1: (St, D), e: UnmapError)
    requires UnmapStep(unmap, deallocate)(s, p) == (s1, Some(e))
    ensures unmap(s.0, p) == (s1.0, Err(e)) && s1.1 == s.1
  {
  }

  /** Default `Mapper::update_flags_range`: updates the pages in order, stopping at the first
      error. */
  function UpdateFlagsRange<St>(
    st: St, pages: PageRange, flags: PageTableFlags,
    updateFlags: (St, Page, PageTableFlags) -> (St, Result<MapperFlush, FlagUpdateError>))
    : (r: (St, RangeResult<FlagUpdateError>))
    requires pages.start.size == pages.end.size
  {
    var items := RangeItems(pages);
    var (st1, outcome) := TryForEach(st, items, UpdateStep(flags, updateFlags));
    (st1, RangeOutcome(pages, items, outcome))
  }

  /** One step of `update_flags_range`. */
  function UpdateStep<St>(flags: PageTableFlags,
                          updateFlags: (St, Page, PageTableFlags) -> (St, Result<MapperFlush, FlagUpdateError>))
    : (St, Page) -> (St, Option<FlagUpdateError>)
  {
    (s: St, p: Page) =>
      var (s1, res) := updateFlags(s, p, flags);
      (s1, if res.Ok? then None else Some(res.error))
  }

  /** Default `update_flags_range`: success flushes the whole range. An error is the range run
      over the pages in the returned flush range, which succeeds, followed by a failing
      `update_flags` of the page that ends it. */
  lemma UpdateFlagsRangeStops<St>(
    st: St, pages: PageRange, flags: PageTableFlags,
    updateFlags: (St, Page, PageTableFlags) -> (St, Result<MapperFlush, FlagUpdateError>))
    requires pages.start.size == pages.end.size
    ensures var r := UpdateFlagsRange(st, pages, flags, updateFlags);
      r.1.Ok? ==> r.1.value.pages == pages
    ensures var r := UpdateFlagsRange(st, pages, flags, updateFlags);
      r.1.Err? ==>
        var done := r.1.error.1.pages;
        done.start.size == done.end.size
        && var before := UpdateFlagsRange(st, done, flags, updateFlags);
           before.1 == Ok(MapperFlushRange(done))
           && updateFlags(before.0, done.end, flags).1 == Err(r.1.error.0)
           && updateFlags(before.0, done.end, flags).0 == r.0
  {
    var items := RangeItems(pages);
    var step := UpdateStep(flags, updateFlags);
    RunStops(st, pages, items, step);
  }
}
