/** The range iterator over a mapped page table (`mapper/mapped_page_table/range_iter.rs`).

    It draws the pages the page-table iterator of `MappedIter` yields and coalesces each maximal
    run of them that are contiguous (each page and frame one page further than the last, same
    size, same flags) into one `MappedPageRangeInclusive`. The underlying iterator is
    deterministic, so the model takes the sequence it yields and consumes it from the front. */
module MappedRangeIter {
  import opened Wrappers
  import opened Words
  import opened Addr
  import opened Pages
  import opened Frames
  import opened Tables
  import opened MappedTables
  import opened MappedIter

  // ----- Mapped page ranges ----------------------------------------------------------------------

  /** `MappedPageRangeInclusive<S>`: the pages of `pageRange`, mapped from `frameStart` on to
      consecutive frames, all with `flags`. */
  datatype MappedPageRangeInclusive =
    MappedPageRangeInclusive(pageRange: PageRangeInclusive, frameStart: PhysFrame, flags: PageTableFlags)

  /** `MappedPageRangeInclusiveItem`: a range of any size. Pages and frames of one range have one
      size, and that size says which variant it is. */
  type MappedRange = r: MappedPageRangeInclusive
    | r.pageRange.start.size == r.pageRange.end.size == r.frameStart.size
    witness MappedPageRangeInclusive(PageRangeInclusive(RawPage(Size4KiB, 0), RawPage(Size4KiB, 0)),
                                     RawFrame(Size4KiB, 0), {})

  /** `MappedPageRangeInclusive::len`: the number of pages in the page range. */
  function Len(r: MappedRange): u64
  {
    InclusiveLen(r.pageRange)
  }

  /** The size of the pages and frames of a range. */
  function RangeSize(r: MappedRange): int
  {
    Size(r.frameStart.size)
  }

  /** `MappedPageRangeInclusive::is_identity_mapped`: the first page starts where the first frame
      does. */
  predicate IsIdentityMapped(r: MappedRange)
  {
    r.pageRange.start.start == r.frameStart.start
  }

  /** `TryFromMappedPageError`. */
  datatype TryFromMappedPageError = TryFromMappedPageError

  /** `MappedPageRangeInclusiveItem::try_from(start..=end)`: the range from `start`'s page to
      `end`'s page, mapped from `start`'s frame with `start`'s flags. It fails when the two ends
      differ in size (the item-level check), when the page range does not count as many pages as
      the frames from `start`'s frame to `end`'s frame count, or when the flags of the two ends
      differ (the checks of `MappedPageRangeInclusive::try_from`). */
  function ItemTryFrom(start: MappedPageItem, end: MappedPageItem)
    : (r: Result<MappedRange, TryFromMappedPageError>)
    ensures r.Ok? <==>
      start.page.size == end.page.size
      && InclusiveLen(PageRangeInclusive(start.page, end.page))
         == FrameInclusiveCount(PhysFrameRangeInclusive(start.frame, end.frame))
      && start.flags == end.flags
    ensures r.Ok? ==> r.value.pageRange.start == start.page && r.value.pageRange.end == end.page
    ensures r.Ok? ==> r.value.frameStart == start.frame && r.value.flags == start.flags
  {
    if start.page.size != end.page.size then Err(TryFromMappedPageError)
    else
      var pageRange := PageRangeInclusive(start.page, end.page);
      var frameRange := PhysFrameRangeInclusive(start.frame, end.frame);
      if InclusiveLen(pageRange) != FrameInclusiveCount(frameRange) then Err(TryFromMappedPageError)
      else if start.flags != end.flags then Err(TryFromMappedPageError)
      else
        var r: MappedRange := MappedPageRangeInclusive(pageRange, start.frame, start.flags);
        Ok(r)
  }

  /** `frame_range` as written does not panic: `frame_start + len()` stays in physical memory
      and the `- 1` after it stays at or above zero. */
  predicate FrameRangeDefined(r: MappedRange)
  {
    r.frameStart.start + Len(r) * RangeSize(r) < TWO_52
    && RangeSize(r) <= r.frameStart.start + Len(r) * RangeSize(r)
  }

  /** `MappedPageRangeInclusive::frame_range` as written: `frame_start + len() - 1` as its end,
      computed left to right, so the intermediate frame one past the end must exist. */
  function FrameRangeAsWritten(r: MappedRange): (f: PhysFrameRangeInclusive)
    requires FrameRangeDefined(r)
    ensures f.start == r.frameStart && f.end.size == r.frameStart.size
    ensures f.end.start + RangeSize(r) == r.frameStart.start + Len(r) * RangeSize(r)
  {
    PhysFrameRangeInclusive(r.frameStart, FrameSub(FrameAdd(r.frameStart, Len(r)), 1))
  }

  /** The corrected `frame_range` exists: the last frame of a non-empty range lies in physical
      memory, and the frame before the first one of an empty range does. */
  predicate FrameRangeFits(r: MappedRange)
  {
    if Len(r) == 0 then RangeSize(r) <= r.frameStart.start
    else r.frameStart.start + (Len(r) - 1) * RangeSize(r) < TWO_52
  }

  /** `frame_range` computed as `frame_start + (len() - 1)` for a non-empty range: from the first
      frame, holding as many frames as the range holds pages. */
  function FrameRange(r: MappedRange): (f: PhysFrameRangeInclusive)
    requires FrameRangeFits(r)
    ensures f.start == r.frameStart && f.end.size == r.frameStart.size
    ensures FrameInclusiveCount(f) == Len(r)
  {
    FramesFrom(r.frameStart, Len(r))
  }

  /** The inclusive range of `n` frames from `start`: for `n == 0`, the empty range that ends one
      frame before `start`. */
  function FramesFrom(start: PhysFrame, n: u64): (f: PhysFrameRangeInclusive)
    requires n == 0 ==> Size(start.size) <= start.start
    requires n > 0 ==> start.start + (n - 1) * Size(start.size) < TWO_52
    ensures f.start == start && f.end.size == start.size
    ensures FrameInclusiveCount(f) == n
  {
    if n == 0 then
      assert 1 * Size(start.size) <= start.start;
      var f := PhysFrameRangeInclusive(start, FrameSub(start, 1));
      assert f.end.start + Size(start.size) == start.start;
      f
    else
      var f := PhysFrameRangeInclusive(start, FrameAdd(start, n - 1));
      CountFrames(f, n - 1);
      f
  }

  /** An inclusive frame range whose end lies `n` frames after its start holds `n + 1` frames. */
  lemma CountFrames(f: PhysFrameRangeInclusive, n: nat)
    requires f.start.size == f.end.size
    requires f.end.start == f.start.start + n * Size(f.start.size)
    ensures FrameInclusiveCount(f) == n + 1
  {
    var s := Size(f.start.size);
    assert s > 0;
    MulMonotone(s, 0, n);
    var c := FrameInclusiveCount(f);
    assert (c - 1) * s == n * s;
    MulCancel(s, c - 1, n);
  }

  /** Wherever `frame_range` as written does not panic, the corrected one gives the same
      range. */
  lemma FrameRangeAgrees(r: MappedRange)
    requires FrameRangeDefined(r)
    ensures FrameRangeFits(r) && FrameRangeAsWritten(r) == FrameRange(r)
  {
    FramesAgree(r.frameStart, Len(r));
  }

  /** `start + n - 1` computed left to right, where it does not panic, is the end of the `n`
      frames from `start`. */
  lemma FramesAgree(start: PhysFrame, n: u64)
    requires start.start + n * Size(start.size) < TWO_52
    requires Size(start.size) <= start.start + n * Size(start.size)
    ensures n == 0 ==> Size(start.size) <= start.start
    ensures n > 0 ==> start.start + (n - 1) * Size(start.size) < TWO_52
    ensures PhysFrameRangeInclusive(start, FrameSub(FrameAdd(start, n), 1)) == FramesFrom(start, n)
  {
    var s := Size(start.size);
    assert s > 0;
    var e1 := FrameSub(FrameAdd(start, n), 1);
    assert e1.start + s == start.start + n * s;
    if n == 0 {
      assert n * s == 0;
      EmptyFramesEnd(start, e1);
    } else {
      MulDistributes(n - 1, 1, s);
      NonEmptyFramesEnd(start, n, e1);
    }
  }

  /** The end of the empty range from `start` is the frame before it. */
  lemma EmptyFramesEnd(start: PhysFrame, e: PhysFrame)
    requires Size(start.size) <= start.start
    requires e.size == start.size && e.start + Size(start.size) == start.start
    ensures FramesFrom(start, 0).end == e
  {
  }

  /** The end of `n` frames from `start` is the frame `n - 1` frames on. */
  lemma NonEmptyFramesEnd(start: PhysFrame, n: u64, e: PhysFrame)
    requires n > 0 && start.start + (n - 1) * Size(start.size) < TWO_52
    requires e.size == start.size && e.start == start.start + (n - 1) * Size(start.size)
    ensures FramesFrom(start, n).end == e
  {
  }

  /** The one-page range mapping page 0 to the last frame of physical memory. */
  function TopFrameRange(): MappedRange
  {
    MappedPageRangeInclusive(PageRangeInclusive(RawPage(Size4KiB, 0), RawPage(Size4KiB, 0)),
                             RawFrame(Size4KiB, TWO_52 - 0x1000), {PRESENT})
  }

  /** `frame_range` as written panics on a range that ends at the last frame of physical memory,
      although the corrected one gives the frame range of its one frame. */
  lemma FrameRangePanicsAtTop()
    ensures Len(TopFrameRange()) == 1
    ensures !FrameRangeDefined(TopFrameRange()) && FrameRangeFits(TopFrameRange())
    ensures FrameRange(TopFrameRange())
      == PhysFrameRangeInclusive(RawFrame(Size4KiB, TWO_52 - 0x1000), RawFrame(Size4KiB, TWO_52 - 0x1000))
  {
    var r := TopFrameRange();
    assert !InclusiveIsEmpty(r.pageRange);
    var n := Len(r);
    assert (n - 1) * 0x1000 == 0;
  }

  // ----- Runs of contiguous pages ----------------------------------------------------------------

  /** `y` continues a run that ends at `x`: same size and flags, and page and frame both start
      exactly one page after those of `x`. */
  predicate Adjacent(x: MappedPageItem, y: MappedPageItem)
  {
    y.page.size == x.page.size && y.flags == x.flags
    && y.page.start == x.page.start + Size(x.page.size)
    && y.frame.start == x.frame.start + Size(x.page.size)
  }

  /** Each item of `b` continues the run of the one before. */
  predicate Chain(b: seq<MappedPageItem>)
  {
    forall i :: 0 <= i < |b| - 1 ==> Adjacent(b[i], b[i + 1])
  }

  function Last(b: seq<MappedPageItem>): MappedPageItem
    requires |b| > 0
  {
    b[|b| - 1]
  }

  /** The `i`-th item of a run lies `i` pages after the first, in pages and in frames, with the
      first item's size and flags. */
  lemma {:induction false} ChainAt(b: seq<MappedPageItem>, i: nat)
    requires Chain(b) && i < |b|
    ensures b[i].page.size == b[0].page.size && b[i].flags == b[0].flags
    ensures b[i].page.start == b[0].page.start + i * Size(b[0].page.size)
    ensures b[i].frame.start == b[0].frame.start + i * Size(b[0].page.size)
  {
    if i > 0 {
      ChainAt(b, i - 1);
      assert Adjacent(b[i - 1], b[i]);
      var s := Size(b[0].page.size);
      assert (i - 1) * s + s == i * s;
    }
  }

  /** The range a non-empty run makes: from its first page to its last, mapped from its first
      frame with its first item's flags. */
  function RangeOfRun(b: seq<MappedPageItem>): MappedRange
    requires Chain(b) && |b| > 0
  {
    ChainAt(b, |b| - 1);
    MappedPageRangeInclusive(PageRangeInclusive(b[0].page, Last(b).page), b[0].frame, b[0].flags)
  }

  /** `try_from` accepts the two ends of every run, and the range it makes holds as many pages as
      the run, maps them to the run's frames, and is an identity mapping exactly when every item
      of the run maps its page to the frame at the same address. */
  lemma RunRange(b: seq<MappedPageItem>)
    requires Chain(b) && |b| > 0
    ensures ItemTryFrom(b[0], Last(b)) == Ok(RangeOfRun(b))
    ensures Len(RangeOfRun(b)) == |b| && FrameRangeFits(RangeOfRun(b))
    ensures FrameRange(RangeOfRun(b)) == PhysFrameRangeInclusive(b[0].frame, Last(b).frame)
    ensures IsIdentityMapped(RangeOfRun(b)) <==>
      forall i :: 0 <= i < |b| ==> b[i].page.start == b[i].frame.start
  {
    RunLen(b);
    RunTryFrom(b);
    RunFrames(b);
    RunIdentity(b);
  }

  /** The range of a run holds as many pages as the run. */
  lemma RunLen(b: seq<MappedPageItem>)
    requires Chain(b) && |b| > 0
    ensures Len(RangeOfRun(b)) == |b|
  {
    var k := |b| - 1;
    ChainAt(b, k);
    var s := Size(b[0].page.size);
    assert s > 0;
    MulMonotone(s, 0, k);
    var pages := PageRangeInclusive(b[0].page, Last(b).page);
    assert !InclusiveIsEmpty(pages);
    var n := InclusiveLen(pages);
    assert (n - 1) * s == k * s;
    MulCancel(s, n - 1, k);
  }

  /** `try_from` accepts the two ends of a run. */
  lemma RunTryFrom(b: seq<MappedPageItem>)
    requires Chain(b) && |b| > 0
    ensures ItemTryFrom(b[0], Last(b)) == Ok(RangeOfRun(b))
  {
    var k := |b| - 1;
    ChainAt(b, k);
    RunLen(b);
    CountFrames(PhysFrameRangeInclusive(b[0].frame, Last(b).frame), k);
  }

  /** The frame range of a run's range runs from its first frame to its last. */
  lemma RunFrames(b: seq<MappedPageItem>)
    requires Chain(b) && |b| > 0
    ensures FrameRangeFits(RangeOfRun(b))
    ensures FrameRange(RangeOfRun(b)) == PhysFrameRangeInclusive(b[0].frame, Last(b).frame)
  {
    var k := |b| - 1;
    ChainAt(b, k);
    RunLen(b);
    var r := RangeOfRun(b);
    assert Len(r) - 1 == k;
    var f := FrameRange(r);
    assert f.end.start == b[0].frame.start + k * Size(b[0].page.size);
  }

  /** A run's range is an identity mapping exactly when every item of the run maps its page to
      the frame at the same address. */
  lemma RunIdentity(b: seq<MappedPageItem>)
    requires Chain(b) && |b| > 0
    ensures IsIdentityMapped(RangeOfRun(b)) <==>
      forall i :: 0 <= i < |b| ==> b[i].page.start == b[i].frame.start
  {
    forall i | 0 <= i < |b|
      ensures b[i].page.start == b[i].frame.start <==> b[0].page.start == b[0].frame.start
    {
      ChainAt(b, i);
    }
  }

  /** Where `end + 1` exists without the sign extension that carries an address past the lower
      half into the upper one, it is exactly the item that continues the run: the test `next`
      makes with `end + 1` and the run test agree. */
  lemma PlusOneIsAdjacent(end: MappedPageItem, x: MappedPageItem)
    requires AddDefined(end, 1) && IsCanonical(end.page.start + Shift(end, 1))
    ensures x == MappedPageAdd(end, 1) <==> Adjacent(end, x)
  {
    assert Shift(end, 1) == Size(end.page.size);
    if Adjacent(end, x) {
      AdjacentFollows(end, x);
    }
  }

  /** Every item that continues the run is `end + 1`, and `end + 1` is then defined without sign
      extension. */
  lemma AdjacentFollows(end: MappedPageItem, x: MappedPageItem)
    requires Adjacent(end, x) && Shift(end, 1) == Size(end.page.size)
    ensures AddDefined(end, 1) && IsCanonical(end.page.start + Shift(end, 1))
    ensures MappedPageAdd(end, 1) == x
  {
    var y := MappedPageAdd(end, 1);
    assert y.page == x.page && y.frame == x.frame;
  }

  /** The reference partition: `xs` cut into its maximal runs, in order. */
  function Runs(xs: seq<MappedPageItem>): (bs: seq<seq<MappedPageItem>>)
    ensures forall i :: 0 <= i < |bs| ==> |bs[i]| > 0
    ensures |xs| > 0 ==> |bs| > 0 && bs[0][0] == xs[0]
    decreases |xs|
  {
    if |xs| == 0 then []
    else
      var bs := Runs(xs[1..]);
      if |xs| > 1 && Adjacent(xs[0], xs[1]) then [[xs[0]] + bs[0]] + bs[1..]
      else [[xs[0]]] + bs
  }

  /** How the runs of a sequence begin with its first item. */
  lemma RunsCons(x: MappedPageItem, xs: seq<MappedPageItem>)
    ensures Runs([x] + xs) == if |xs| > 0 && Adjacent(x, xs[0]) then [[x] + Runs(xs)[0]] + Runs(xs)[1..]
                              else [[x]] + Runs(xs)
  {
    assert ([x] + xs)[1..] == xs;
  }

  /** The sequences of `bs`, one after the other. */
  function Flatten(bs: seq<seq<MappedPageItem>>): seq<MappedPageItem>
  {
    if |bs| == 0 then [] else bs[0] + Flatten(bs[1..])
  }

  /** The runs put back together are the items they were cut from. */
  lemma {:induction false} RunsFlatten(xs: seq<MappedPageItem>)
    ensures Flatten(Runs(xs)) == xs
    decreases |xs|
  {
    if |xs| > 0 {
      assert xs == [xs[0]] + xs[1..];
      RunsFlatten(xs[1..]);
      RunsFlattenStep(xs[0], xs[1..]);
    }
  }

  /** Putting an item in front of a sequence whose runs flatten back to it. */
  lemma RunsFlattenStep(x: MappedPageItem, t: seq<MappedPageItem>)
    requires Flatten(Runs(t)) == t
    ensures Flatten(Runs([x] + t)) == [x] + t
  {
    RunsCons(x, t);
    var bs := Runs(t);
    if |t| > 0 && Adjacent(x, t[0]) {
      JoinedFlatten(x, bs[0], bs[1..]);
      assert [bs[0]] + bs[1..] == bs;
    } else {
      FlattenCons([x], bs);
    }
  }

  /** Flattening after joining an item to the first run puts the item in front. */
  lemma JoinedFlatten(x: MappedPageItem, b: seq<MappedPageItem>, bs: seq<seq<MappedPageItem>>)
    ensures Flatten([[x] + b] + bs) == [x] + Flatten([b] + bs)
  {
    FlattenCons([x] + b, bs);
    FlattenCons(b, bs);
    assert ([x] + b) + Flatten(bs) == [x] + (b + Flatten(bs));
  }

  /** Flattening a sequence that starts with `b` starts with `b`. */
  lemma FlattenCons(b: seq<MappedPageItem>, bs: seq<seq<MappedPageItem>>)
    ensures Flatten([b] + bs) == b + Flatten(bs)
  {
    assert ([b] + bs)[1..] == bs;
  }

  /** Every run is contiguous. */
  lemma {:induction false} RunsAreChains(xs: seq<MappedPageItem>)
    ensures forall i :: 0 <= i < |Runs(xs)| ==> Chain(Runs(xs)[i])
    decreases |xs|
  {
    if |xs| > 0 {
      var bs := Runs(xs[1..]);
      RunsAreChains(xs[1..]);
      if |xs| > 1 && Adjacent(xs[0], xs[1]) {
        var b := [xs[0]] + bs[0];
        assert Chain(bs[0]);
        forall i | 0 <= i < |b| - 1 ensures Adjacent(b[i], b[i + 1]) {
          if i > 0 {
            assert b[i] == bs[0][i - 1] && b[i + 1] == bs[0][i];
          }
        }
        assert Runs(xs) == [b] + bs[1..];
      } else {
        assert Runs(xs) == [[xs[0]]] + bs;
      }
    }
  }

  /** Block `i` of `bs` does not continue into block `i + 1`. */
  predicate BreaksAt(bs: seq<seq<MappedPageItem>>, i: int)
  {
    0 <= i < |bs| - 1 && |bs[i]| > 0 && |bs[i + 1]| > 0 && !Adjacent(Last(bs[i]), bs[i + 1][0])
  }

  /** No block of `bs` continues into the next one. */
  predicate Separated(bs: seq<seq<MappedPageItem>>)
  {
    forall i :: 0 <= i < |bs| - 1 ==> BreaksAt(bs, i)
  }

  /** Runs are maximal: no run continues into the next one. */
  lemma {:induction false} RunsAreMaximal(xs: seq<MappedPageItem>)
    ensures Separated(Runs(xs))
    decreases |xs|
  {
    if |xs| > 0 {
      var bs := Runs(xs[1..]);
      RunsAreMaximal(xs[1..]);
      if |xs| > 1 && Adjacent(xs[0], xs[1]) {
        assert Runs(xs) == [[xs[0]] + bs[0]] + bs[1..];
        SeparatedJoin(xs[0], bs);
      } else {
        assert Runs(xs) == [[xs[0]]] + bs;
        SeparatedCons(xs[0], bs);
      }
    }
  }

  /** Putting an item in front of the first block keeps the blocks separated. */
  lemma SeparatedJoin(x: MappedPageItem, bs: seq<seq<MappedPageItem>>)
    requires Separated(bs) && |bs| > 0 && |bs[0]| > 0
    ensures Separated([[x] + bs[0]] + bs[1..])
  {
    var all := [[x] + bs[0]] + bs[1..];
    forall i | 0 <= i < |all| - 1 ensures BreaksAt(all, i) {
      assert all[i + 1] == bs[i + 1];
      if i == 0 {
        assert Last(all[0]) == Last(bs[0]);
      } else {
        assert all[i] == bs[i] && BreaksAt(bs, i);
      }
    }
  }

  /** A one-item block in front of separated blocks that it does not continue into keeps them
      separated. */
  lemma SeparatedCons(x: MappedPageItem, bs: seq<seq<MappedPageItem>>)
    requires Separated(bs) && (forall i :: 0 <= i < |bs| ==> |bs[i]| > 0)
    requires |bs| > 0 ==> !Adjacent(x, bs[0][0])
    ensures Separated([[x]] + bs)
  {
    var all := [[x]] + bs;
    forall i | 0 <= i < |all| - 1 ensures BreaksAt(all, i) {
      assert all[i + 1] == bs[i];
      if i > 0 {
        assert all[i] == bs[i - 1] && BreaksAt(bs, i - 1);
      }
    }
  }

  // ----- The iterator ----------------------------------------------------------------------------

  /** `MappedPageTableRangeInclusiveIter`: what the page-table iterator has yet to yield, and the
      item a previous call drew but did not use (`next_start`). */
  datatype RangeIter = RangeIter(rest: seq<MappedPageItem>, nextStart: Option<MappedPageItem>)

  /** The items the range iterator has yet to use, in order: the stashed one first. */
  function Pending(it: RangeIter): seq<MappedPageItem>
  {
    (match it.nextStart case None => [] case Some(x) => [x]) + it.rest
  }

  /** Nothing is stashed before the first call. */
  lemma PendingFresh(xs: seq<MappedPageItem>)
    ensures Pending(RangeIter(xs, None)) == xs
  {
    assert [] + xs == xs;
  }

  /** `MappedPageTable::range_iter`: over what `iter()` yields, nothing stashed. */
  function RangeIterOf(m: Machine): RangeIter
  {
    RangeIter(Items(m, Start()), None)
  }

  /** Where the inner loop of `next` stops: the run's last item, the item it drew and stashed
      because it did not continue the run (none when the page-table iterator ran out), and what
      the page-table iterator has left. */
  datatype Stop = Stop(end: MappedPageItem, stash: Option<MappedPageItem>, rest: seq<MappedPageItem>)

  /** The items still to use once the loop stopped. */
  function Left(s: Stop): seq<MappedPageItem>
  {
    Pending(RangeIter(s.rest, s.stash))
  }

  /** The inner loop of `next` with the corrected test: it moves `end` on while the next item
      continues the run. */
  function Extend(end: MappedPageItem, rest: seq<MappedPageItem>): (s: Stop)
    ensures |Left(s)| <= |rest|
    decreases |rest|
  {
    if |rest| == 0 then Stop(end, None, [])
    else if !Adjacent(end, rest[0]) then Stop(end, Some(rest[0]), rest[1..])
    else Extend(rest[0], rest[1..])
  }

  /** The loop stops at the end of the first run of `[start] + rest`, and what it leaves is cut
      into the remaining runs. */
  lemma {:induction false} ExtendRuns(start: MappedPageItem, rest: seq<MappedPageItem>)
    ensures var s := Extend(start, rest); var bs := Runs([start] + rest);
      Last(bs[0]) == s.end && bs[1..] == Runs(Left(s))
    decreases |rest|
  {
    if |rest| == 0 {
      RunsCons(start, rest);
      assert Left(Extend(start, rest)) == [];
    } else {
      if !Adjacent(start, rest[0]) {
        ExtendRunsStop(start, rest);
      } else {
        ExtendRuns(rest[0], rest[1..]);
        assert [rest[0]] + rest[1..] == rest;
        ExtendRunsJoin(start, rest);
      }
    }
  }

  /** The step of `ExtendRuns` where the first item does not continue the run. */
  lemma ExtendRunsStop(start: MappedPageItem, rest: seq<MappedPageItem>)
    requires |rest| > 0 && !Adjacent(start, rest[0])
    ensures var s := Extend(start, rest); var bs := Runs([start] + rest);
      Last(bs[0]) == s.end && bs[1..] == Runs(Left(s))
  {
    assert Extend(start, rest) == Stop(start, Some(rest[0]), rest[1..]);
    assert Left(Extend(start, rest)) == [rest[0]] + rest[1..] == rest;
    RunsCons(start, rest);
  }

  /** The step of `ExtendRuns` where the first item continues the run. */
  lemma ExtendRunsJoin(start: MappedPageItem, rest: seq<MappedPageItem>)
    requires |rest| > 0 && Adjacent(start, rest[0])
    requires var s := Extend(rest[0], rest[1..]); var bs := Runs(rest);
      Last(bs[0]) == s.end && bs[1..] == Runs(Left(s))
    ensures var s := Extend(start, rest); var bs := Runs([start] + rest);
      Last(bs[0]) == s.end && bs[1..] == Runs(Left(s))
  {
    assert Extend(start, rest) == Extend(rest[0], rest[1..]);
    RunsCons(start, rest);
    var bs := Runs(rest);
    assert Last([start] + bs[0]) == Last(bs[0]);
  }

  /** The corrected `MappedPageTableRangeInclusiveIter::next`: the range of the run that starts
      with the stashed item, or else with the page-table iterator's next item. It returns `None`
      exactly when no item is left, and otherwise leaves fewer items behind. */
  function Next(it: RangeIter): (r: Option<(MappedRange, RangeIter)>)
    ensures r.None? <==> |Pending(it)| == 0
    ensures r.Some? ==> |Pending(r.value.1)| < |Pending(it)|
  {
    var p := Pending(it);
    if |p| == 0 then None
    else
      var s := Extend(p[0], p[1..]);
      NextRun(p);
      var r: MappedRange :=
        MappedPageRangeInclusive(PageRangeInclusive(p[0].page, s.end.page), p[0].frame, p[0].flags);
      Some((r, RangeIter(s.rest, s.stash)))
  }

  /** One call of `next` makes the range of the first run of what is pending and leaves the rest
      of the runs. */
  lemma NextRun(p: seq<MappedPageItem>)
    requires |p| > 0
    ensures Chain(Runs(p)[0])
    ensures var s := Extend(p[0], p[1..]); var bs := Runs(p);
      bs[0][0] == p[0] && Last(bs[0]) == s.end && bs[1..] == Runs(Left(s))
    ensures var s := Extend(p[0], p[1..]); var bs := Runs(p);
      ItemTryFrom(p[0], s.end) == Ok(RangeOfRun(bs[0]))
  {
    ExtendRuns(p[0], p[1..]);
    assert [p[0]] + p[1..] == p;
    RunsAreChains(p);
    RunTryFrom(Runs(p)[0]);
  }

  /** The ranges `next` yields from `it` on until it returns `None`. */
  function Ranges(it: RangeIter): seq<MappedRange>
    decreases |Pending(it)|
  {
    match Next(it)
    case None => []
    case Some((r, after)) => [r] + Ranges(after)
  }

  /** The ranges of the runs `bs`, in order. */
  function RangesOfRuns(bs: seq<seq<MappedPageItem>>): seq<MappedRange>
    requires forall i :: 0 <= i < |bs| ==> Chain(bs[i]) && |bs[i]| > 0
  {
    if |bs| == 0 then []
    else
      RunRange(bs[0]);
      [RangeOfRun(bs[0])] + RangesOfRuns(bs[1..])
  }

  /** The range iterator yields the range of every maximal run of the pending items, in
      order. */
  lemma {:induction false} RangesAreRuns(it: RangeIter)
    ensures Ranges(it) == RunRanges(Pending(it))
    decreases |Pending(it)|
  {
    var p := Pending(it);
    RunsAreChains(p);
    match Next(it) {
    case None =>
    case Some((r, after)) =>
      NextRun(p);
      RangesAreRuns(after);
      assert Pending(after) == Left(Extend(p[0], p[1..]));
    }
  }

  /** The reference result: the range of every maximal run of `xs`, in order. */
  function RunRanges(xs: seq<MappedPageItem>): seq<MappedRange>
  {
    RunsAreChains(xs);
    RangesOfRuns(Runs(xs))
  }

  /** A whole range iteration over a mapped page table yields the range of every maximal run of
      contiguous mapped pages, in order of position. */
  lemma RangeIterYieldsRuns(m: Machine)
    ensures Ranges(RangeIterOf(m)) == RunRanges(RefItems(m, 0, END))
  {
    var it := RangeIterOf(m);
    PendingFresh(Items(m, Start()));
    IterYieldsEveryMappedPage(m);
    RangesAreRuns(it);
  }

  // ----- `next` as written -----------------------------------------------------------------------

  /** What a call of `next` as written does: yields a range, or finds nothing left, or panics. */
  datatype RangeStep = Yields(range: MappedRange, after: RangeIter) | Exhausted | Panics

  /** The inner loop of `next` as written: `end + 1` panics when it does not exist (`None`), and
      any item equal to it continues the run. */
  function ExtendAsWritten(end: MappedPageItem, rest: seq<MappedPageItem>): Option<Stop>
    decreases |rest|
  {
    if |rest| == 0 then Some(Stop(end, None, []))
    else if !AddDefined(end, 1) then None
    else if rest[0] != MappedPageAdd(end, 1) then Some(Stop(end, Some(rest[0]), rest[1..]))
    else ExtendAsWritten(rest[0], rest[1..])
  }

  /** `MappedPageTableRangeInclusiveIter::next` as written; the `unwrap` of `try_from` panics when
      it fails. */
  function NextAsWritten(it: RangeIter): RangeStep
  {
    var p := Pending(it);
    if |p| == 0 then Exhausted
    else match ExtendAsWritten(p[0], p[1..])
      case None => Panics
      case Some(s) =>
        match ItemTryFrom(p[0], s.end)
        case Err(_) => Panics
        case Ok(r) => Yields(r, RangeIter(s.rest, s.stash))
  }

  /** `end + 1` of each item but the last exists and stays in its canonical half. */
  predicate NoWrap(p: seq<MappedPageItem>)
  {
    forall i :: 0 <= i < |p| - 1 ==> AddDefined(p[i], 1) && IsCanonical(p[i].page.start + Shift(p[i], 1))
  }

  /** No item of a sequence wraps once none of `[end] + rest` does. */
  lemma NoWrapTail(end: MappedPageItem, rest: seq<MappedPageItem>)
    requires NoWrap([end] + rest) && |rest| > 0
    ensures NoWrap([rest[0]] + rest[1..])
  {
    assert [rest[0]] + rest[1..] == rest;
    forall i | 0 <= i < |rest| - 1
      ensures AddDefined(rest[i], 1) && IsCanonical(rest[i].page.start + Shift(rest[i], 1))
    {
      assert rest[i] == ([end] + rest)[i + 1];
    }
  }

  /** The loop as written agrees with the corrected one on items without a wrap. */
  lemma {:induction false} ExtendAgrees(end: MappedPageItem, rest: seq<MappedPageItem>)
    requires NoWrap([end] + rest)
    ensures ExtendAsWritten(end, rest) == Some(Extend(end, rest))
    decreases |rest|
  {
    if |rest| > 0 {
      assert ([end] + rest)[0] == end;
      PlusOneIsAdjacent(end, rest[0]);
      if Adjacent(end, rest[0]) {
        NoWrapTail(end, rest);
        ExtendAgrees(rest[0], rest[1..]);
      }
    }
  }

  /** Where no item of what is pending wraps, `next` as written does what the corrected one
      does: the correction changes only calls that panic. */
  lemma NextAgrees(it: RangeIter)
    requires NoWrap(Pending(it))
    ensures NextAsWritten(it) == match Next(it)
      case None => Exhausted
      case Some((r, after)) => Yields(r, after)
  {
    var p := Pending(it);
    if |p| > 0 {
      assert [p[0]] + p[1..] == p;
      ExtendAgrees(p[0], p[1..]);
      var s := Extend(p[0], p[1..]);
      NextRun(p);
      var r := RangeOfRun(Runs(p)[0]);
      assert ItemTryFrom(p[0], s.end) == Ok(r);
      assert NextAsWritten(it) == Yields(r, RangeIter(s.rest, s.stash));
      assert Next(it) == Some((r, RangeIter(s.rest, s.stash)));
    }
  }

  /** `x` maps the last page of the lower half and `y` the first page of the upper half, with the
      same size and flags, to consecutive frames. */
  predicate AcrossHole(x: MappedPageItem, y: MappedPageItem)
  {
    x.page.start + Size(x.page.size) == TWO_47 && y.page.start == UPPER_HALF
    && y.page.size == x.page.size && y.flags == x.flags
    && y.frame.start == x.frame.start + Size(x.page.size)
  }

  /** `next` as written panics on two mappings on either side of the non-canonical hole whose
      frames are consecutive: `end + 1` of the lower one sign-extends to the upper one, so the
      two become one range, whose page count spans the hole and differs from its frame count of
      two, and `try_from(..).unwrap()` panics. */
  lemma HoleRunPanics(x: MappedPageItem, y: MappedPageItem)
    requires AcrossHole(x, y)
    ensures NextAsWritten(RangeIter([x, y], None)) == Panics
  {
    PendingFresh([x, y]);
    assert [x, y][1..] == [y] && [y][1..] == [];
    HoleSignExtends(x, y);
    assert ExtendAsWritten(y, []) == Some(Stop(y, None, []));
    assert ExtendAsWritten(x, [y]) == Some(Stop(y, None, []));
    HoleCountsDiffer(x, y);
  }

  /** `end + 1` of the last lower-half page is the first upper-half page. */
  lemma HoleSignExtends(x: MappedPageItem, y: MappedPageItem)
    requires AcrossHole(x, y)
    ensures AddDefined(x, 1) && MappedPageAdd(x, 1) == y
  {
    assert Shift(x, 1) == Size(x.page.size);
    assert !IsCanonical(x.page.start + Shift(x, 1));
    var z := MappedPageAdd(x, 1);
    assert z.page == y.page && z.frame == y.frame;
  }

  /** The page range across the hole counts more pages than its two frames. */
  lemma HoleCountsDiffer(x: MappedPageItem, y: MappedPageItem)
    requires AcrossHole(x, y)
    ensures ItemTryFrom(x, y).Err?
  {
    var pages := PageRangeInclusive(x.page, y.page);
    assert !InclusiveIsEmpty(pages);
    var n := InclusiveLen(pages);
    var s := Size(x.page.size);
    assert x.page.start + (n - 1) * s == y.page.start;
    assert n != 2;
    CountFrames(PhysFrameRangeInclusive(x.frame, y.frame), 1);
  }

  /** The corrected `next` yields the two mappings on either side of the hole as two ranges. */
  lemma HoleRunSplits(x: MappedPageItem, y: MappedPageItem)
    requires AcrossHole(x, y)
    ensures Ranges(RangeIter([x, y], None)) == [RangeOfRun([x]), RangeOfRun([y])]
  {
    assert !Adjacent(x, y);
    RangesAreRuns(RangeIter([x, y], None));
    PendingFresh([x, y]);
    assert [x, y][1..] == [y] && [y][1..] == [];
    assert Runs([y]) == [[y]];
    assert Runs([x, y]) == [[x]] + Runs([y]);
    assert RangesOfRuns([[y]]) == [RangeOfRun([y])];
  }

  /** Such a pair of mappings exists: the last 4 KiB page of the lower half mapped to frame 0 and
      the first one of the upper half mapped to the frame after it. */
  lemma HoleExample()
    ensures AcrossHole(MappedPage(RawPage(Size4KiB, TWO_47 - 0x1000), RawFrame(Size4KiB, 0), {PRESENT}),
                       MappedPage(RawPage(Size4KiB, UPPER_HALF), RawFrame(Size4KiB, 0x1000), {PRESENT}))
  {
  }

  /** `next` as written panics when a run ends at the last frame of physical memory and another
      item follows: `end + 1` needs a frame beyond physical memory. The corrected `next` ends
      the run there and stashes the item. */
  lemma TopFrameRunPanics(x: MappedPageItem, y: MappedPageItem)
    requires x.frame.start + Size(x.page.size) == TWO_52
    ensures NextAsWritten(RangeIter([x, y], None)) == Panics
    ensures Next(RangeIter([x, y], None)) == Some((RangeOfRun([x]), RangeIter([], Some(y))))
  {
    assert Shift(x, 1) == Size(x.page.size);
    assert !AddDefined(x, 1);
    assert [x, y][1..] == [y];
    PendingFresh([x, y]);
    NextRun([x, y]);
    assert Runs([y]) == [[y]];
    assert Runs([x, y]) == [[x]] + Runs([y]);
  }
}
