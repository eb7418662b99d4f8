/** Size-typed physical frames and their ranges (src/structures/paging/frame.rs).

    A `PhysFrame<S>` is a `PhysAddr` aligned to `S::SIZE`. Physical addresses have no hole, so a
    frame range is a plain arithmetic progression of start addresses. */
module Frames {
  import opened Wrappers
  import opened Words
  import opened Addr
  import opened Pages

  /** The fields of a `PhysFrame<S>`: its size and its start address. */
  datatype RawFrame = RawFrame(size: PageSize, start: PhysAddr)

  /** `PhysFrame<S>`: the start address is a multiple of the frame size. */
  type PhysFrame = f: RawFrame | f.start % Size(f.size) == 0 witness RawFrame(Size4KiB, 0)

  /** `PhysFrame::containing_address`: the frame whose span holds `addr`, starting at `addr`
      aligned down to the frame size. */
  function FrameContainingAddress(s: PageSize, addr: PhysAddr): (r: PhysFrame)
    ensures r.size == s
    ensures r.start <= addr < r.start + Size(s)
  {
    SizeFacts(s);
    RawFrame(s, PhysAlignDown(addr, Size(s)))
  }

  /** No frame start of this size lies between the containing frame's start and `addr`. */
  lemma FrameContainingIsGreatest(s: PageSize, addr: PhysAddr, m: u64)
    requires m <= addr && m % Size(s) == 0
    ensures m <= FrameContainingAddress(s, addr).start
  {
    SizeFacts(s);
    AlignDownIsGreatest(addr, Size(s), m);
  }

  /** An aligned address is the start of its own containing frame. */
  lemma FrameContainingAligned(s: PageSize, addr: PhysAddr)
    requires addr % Size(s) == 0
    ensures FrameContainingAddress(s, addr) == RawFrame(s, addr)
  {
    FrameContainingIsGreatest(s, addr, addr);
  }

  /** `PhysFrame::from_start_address`: `AddressNotAligned` exactly when the address is not a
      multiple of the frame size; otherwise the frame that starts there. */
  function FrameFromStartAddress(s: PageSize, addr: PhysAddr)
    : (r: Result<PhysFrame, AddressNotAligned>)
    ensures r.Ok? <==> addr % Size(s) == 0
    ensures r.Ok? ==> r.value.size == s && r.value.start == addr
  {
    SizeFacts(s);
    if !PhysIsAligned(addr, Size(s)) then Err(AddressNotAligned)
    else
      FrameContainingAligned(s, addr);
      Ok(FrameContainingAddress(s, addr))
  }

  /** A frame is recovered from its start address by both constructors, and
      `containing_address` is idempotent. */
  lemma FrameRoundTrip(f: PhysFrame, addr: PhysAddr)
    ensures FrameFromStartAddress(f.size, f.start) == Ok(f)
    ensures FrameContainingAddress(f.size, f.start) == f
    ensures FrameContainingAddress(f.size, FrameContainingAddress(f.size, addr).start)
      == FrameContainingAddress(f.size, addr)
  {
    FrameContainingAligned(f.size, f.start);
    FrameContainingAligned(f.size, FrameContainingAddress(f.size, addr).start);
  }

  /** `PhysFrame + u64`: the frame `n` frames further on. `PhysAddr::new` panics when the sum
      has a bit above bit 51 set. */
  function FrameAdd(f: PhysFrame, n: u64): (r: PhysFrame)
    requires f.start + n * Size(f.size) < TWO_52
    ensures r.size == f.size && r.start == f.start + n * Size(f.size)
  {
    SizeFacts(f.size);
    MulMonotone(Size(f.size), 0, n);
    ModAddMultiple(f.start, Size(f.size), n);
    var sum := PhysAdd(f.start, n * Size(f.size));
    FrameContainingAligned(f.size, sum);
    FrameContainingAddress(f.size, sum)
  }

  /** `PhysFrame - u64`: the frame `n` frames back; the subtraction panics below zero. */
  function FrameSub(f: PhysFrame, n: u64): (r: PhysFrame)
    requires n * Size(f.size) <= f.start
    ensures r.size == f.size && r.start + n * Size(f.size) == f.start
  {
    SizeFacts(f.size);
    var m: int := n;
    ModAddMultiple(f.start, Size(f.size), -m);
    var diff := PhysSub(f.start, n * Size(f.size));
    FrameContainingAligned(f.size, diff);
    FrameContainingAddress(f.size, diff)
  }

  /** `PhysFrame - PhysFrame`: the number of frames between the two starts; panics when the right
      frame is the higher one. */
  function FrameDiff(f: PhysFrame, g: PhysFrame): (r: u64)
    requires f.size == g.size && g.start <= f.start
    ensures g.start + r * Size(f.size) == f.start
  {
    SizeFacts(f.size);
    AlignedDiff(g.start, f.start, Size(f.size));
    PhysDiff(f.start, g.start) / Size(f.size)
  }

  /** Adding `n` frames and subtracting them again are inverse, and the difference counts the
      frames added. */
  lemma FrameArithmeticRoundTrip(f: PhysFrame, n: u64)
    requires f.start + n * Size(f.size) < TWO_52
    ensures FrameSub(FrameAdd(f, n), n) == f
    ensures FrameDiff(FrameAdd(f, n), f) == n
  {
    var sz := Size(f.size);
    var g := FrameAdd(f, n);
    var d := FrameDiff(g, f);
    assert d == n by {
      SizeFacts(f.size);
      assert sz > 0 && d * sz == n * sz;
      MulCancel(sz, d, n);
    }
  }

  /** `PhysFrameRange<S>`: frames from `start` up to but excluding `end`. */
  datatype PhysFrameRange = PhysFrameRange(start: PhysFrame, end: PhysFrame)

  /** `PhysFrameRange::is_empty`. */
  predicate FrameRangeIsEmpty(r: PhysFrameRange)
  {
    r.start.start >= r.end.start
  }

  /** The frame after a frame that lies below another frame of its size exists. */
  lemma NextFrameFits(f: PhysFrame, g: PhysFrame)
    requires f.size == g.size && f.start < g.start
    ensures f.start + 1 * Size(f.size) <= g.start
  {
    SizeFacts(f.size);
    AlignedGap(f.start, g.start, Size(f.size));
  }

  /** `PhysFrameRange::next`: the first frame and the range one frame further on; `None`
      exactly when the range is empty, leaving it unchanged. */
  function FrameRangeNext(r: PhysFrameRange): (res: (Option<PhysFrame>, PhysFrameRange))
    requires r.start.size == r.end.size
    ensures res.0.None? <==> FrameRangeIsEmpty(r)
    ensures res.0.None? ==> res.1 == r
    ensures res.0.Some? ==> res.0.value == r.start && res.1.end == r.end
    ensures res.0.Some? ==>
      res.1.start.size == r.start.size && res.1.start.start == r.start.start + Size(r.start.size)
  {
    if r.start.start < r.end.start then
      NextFrameFits(r.start, r.end);
      (Some(r.start), PhysFrameRange(FrameAdd(r.start, 1), r.end))
    else (None, r)
  }

  /** The frames `next` yields, in order, until it returns `None`. */
  function FrameRangeItems(r: PhysFrameRange): seq<PhysFrame>
    requires r.start.size == r.end.size
    decreases if FrameRangeIsEmpty(r) then 0 else r.end.start - r.start.start
  {
    match FrameRangeNext(r)
    case (None, _) => []
    case (Some(f), rest) => [f] + FrameRangeItems(rest)
  }

  /** The number of frames in the range. */
  function FrameRangeCount(r: PhysFrameRange): (n: u64)
    requires r.start.size == r.end.size
    ensures FrameRangeIsEmpty(r) ==> n == 0
    ensures !FrameRangeIsEmpty(r) ==> r.start.start + n * Size(r.start.size) == r.end.start
  {
    if FrameRangeIsEmpty(r) then 0 else FrameDiff(r.end, r.start)
  }

  /** A frame sequence that starts at `a` and continues with frames spaced one size apart from
      `a + SIZE` is spaced one size apart from `a`. */
  lemma FramesStep(items: seq<PhysFrame>, tail: seq<PhysFrame>, s: PageSize, a: int)
    requires |items| == |tail| + 1 && items[1..] == tail
    requires items[0].size == s && items[0].start == a
    requires forall j :: 0 <= j < |tail| ==> tail[j].size == s
    requires forall j :: 0 <= j < |tail| ==> tail[j].start == a + Size(s) + j * Size(s)
    ensures forall i :: 0 <= i < |items| ==> items[i].size == s
    ensures forall i :: 0 <= i < |items| ==> items[i].start == a + i * Size(s)
  {
    var sz := Size(s);
    forall i | 1 <= i < |items|
      ensures items[i].start == a + i * sz
    {
      assert items[i] == tail[i - 1];
      assert (i - 1) * sz + sz == i * sz;
    }
  }

  /** A range holds one frame more than the range `next` leaves behind. */
  lemma FrameStepCount(r: PhysFrameRange, rest: PhysFrameRange)
    requires r.start.size == r.end.size && !FrameRangeIsEmpty(r)
    requires FrameRangeNext(r).1 == rest
    ensures FrameRangeCount(r) == FrameRangeCount(rest) + 1
  {
    NextFrameFits(r.start, r.end);
    var sz: int, a: int, b: int := Size(r.start.size), r.start.start, r.end.start;
    var c: int, c': int := FrameRangeCount(r), FrameRangeCount(rest);
    assert sz > 0 && a + c * sz == b;
    if FrameRangeIsEmpty(rest) {
      assert a + sz + 0 * sz == b;
      CountStep(sz, a, b, c, 0);
    } else {
      assert a + sz + c' * sz == b;
      CountStep(sz, a, b, c, c');
    }
  }

  /** `next` yields exactly `FrameRangeCount` frames, the i-th one starting `i` frames after
      `start`. */
  lemma {:induction false} FrameRangeItemsEnumerate(r: PhysFrameRange)
    requires r.start.size == r.end.size
    ensures |FrameRangeItems(r)| == FrameRangeCount(r)
    ensures forall i :: 0 <= i < |FrameRangeItems(r)| ==> FrameRangeItems(r)[i].size == r.start.size
    ensures forall i :: 0 <= i < |FrameRangeItems(r)| ==>
      FrameRangeItems(r)[i].start == r.start.start + i * Size(r.start.size)
    decreases if FrameRangeIsEmpty(r) then 0 else r.end.start - r.start.start
  {
    match FrameRangeNext(r)
    case (None, _) =>
    case (Some(f), rest) =>
      FrameRangeItemsEnumerate(rest);
      assert FrameRangeItems(r) == [f] + FrameRangeItems(rest);
      FrameStepCount(r, rest);
      FramesStep(FrameRangeItems(r), FrameRangeItems(rest), r.start.size, r.start.start);
  }

  /** `PhysFrameRangeInclusive<S>`: frames from `start` up to and including `end`. */
  datatype PhysFrameRangeInclusive = PhysFrameRangeInclusive(start: PhysFrame, end: PhysFrame)

  /** `PhysFrameRangeInclusive::is_empty`. */
  predicate FrameInclusiveIsEmpty(r: PhysFrameRangeInclusive)
  {
    r.start.start > r.end.start
  }

  /** The inputs on which `PhysFrameRangeInclusive::next` as written does not panic: it always
      moves `start` one frame on, and `PhysAddr::new` panics when that leaves 52 bits. */
  predicate FrameInclusiveNextDefined(r: PhysFrameRangeInclusive)
  {
    !FrameInclusiveIsEmpty(r) ==> r.start.start + Size(r.start.size) < TWO_52
  }

  /** `PhysFrameRangeInclusive::next` as written: the first frame, and the range with `start`
      one frame further on. */
  function FrameInclusiveNextRaw(r: PhysFrameRangeInclusive)
    : (res: (Option<PhysFrame>, PhysFrameRangeInclusive))
    requires r.start.size == r.end.size && FrameInclusiveNextDefined(r)
    ensures res.0.None? <==> FrameInclusiveIsEmpty(r)
    ensures res.0.Some? ==> res.0.value == r.start && res.1.end == r.end
    ensures res.0.Some? ==> res.1.start.start == r.start.start + Size(r.start.size)
  {
    if r.start.start <= r.end.start then
      (Some(r.start), PhysFrameRangeInclusive(FrameAdd(r.start, 1), r.end))
    else (None, r)
  }

  /** The last 4 KiB frame below 2^52, `0x000f_ffff_ffff_f000`. */
  const LAST_FRAME: PhysFrame := RawFrame(Size4KiB, 0x000f_ffff_ffff_f000)

  /** Iterating an inclusive range that ends at the last frame panics after yielding it: the
      range holding only that frame is not in the domain of `next` as written. */
  lemma FrameInclusiveNextPanicsAtTop()
    ensures !FrameInclusiveIsEmpty(PhysFrameRangeInclusive(LAST_FRAME, LAST_FRAME))
    ensures !FrameInclusiveNextDefined(PhysFrameRangeInclusive(LAST_FRAME, LAST_FRAME))
  {
  }

  /** The start of the last frame of this size below 2^52. */
  function MaxFrameStart(s: PageSize): (r: PhysAddr)
    ensures r == TWO_52 - Size(s) && r % Size(s) == 0
  {
    SizeFacts(s);
    assert TWO_52 % Size(s) == 0;
    TWO_52 - Size(s)
  }

  /** `PhysFrameRangeInclusive::next` with the guard `PageRangeInclusive::next` has: at the last
      frame it moves `end` back instead of `start` on, which empties the range. Wherever the
      as-written version is defined it yields the same frame and leaves a range with the same
      frames. */
  function FrameInclusiveNext(r: PhysFrameRangeInclusive)
    : (res: (Option<PhysFrame>, PhysFrameRangeInclusive))
    requires r.start.size == r.end.size
    ensures res.0.None? <==> FrameInclusiveIsEmpty(r)
    ensures res.0.None? ==> res.1 == r
    ensures res.0.Some? ==> res.0.value == r.start
    ensures res.0.Some? ==> res.1.start.size == r.start.size && res.1.end.size == r.start.size
    ensures res.0.Some? && r.start != r.end ==>
      res.1.end == r.end && res.1.start.start == r.start.start + Size(r.start.size)
    ensures res.0.Some? && r.start == r.end ==> FrameInclusiveIsEmpty(res.1)
    ensures FrameInclusiveNextDefined(r) && r.start != r.end ==> res == FrameInclusiveNextRaw(r)
  {
    if r.start.start <= r.end.start then
      SizeFacts(r.start.size);
      if r.start.start < MaxFrameStart(r.start.size) then
        NextFrameFits(r.start, RawFrame(r.start.size, MaxFrameStart(r.start.size)));
        (Some(r.start), PhysFrameRangeInclusive(FrameAdd(r.start, 1), r.end))
      else
        AlignedGap(r.end.start, TWO_52, Size(r.start.size));
        (Some(r.start), PhysFrameRangeInclusive(r.start, FrameSub(r.end, 1)))
    else (None, r)
  }

  /** The gap between the two ends plus one frame. */
  function FrameInclusiveGap(r: PhysFrameRangeInclusive): nat
    requires r.start.size == r.end.size
  {
    if FrameInclusiveIsEmpty(r) then 0 else r.end.start - r.start.start + Size(r.start.size)
  }

  /** The frames the guarded `next` yields, in order, until it returns `None`. */
  function FrameInclusiveItems(r: PhysFrameRangeInclusive): seq<PhysFrame>
    requires r.start.size == r.end.size
    decreases FrameInclusiveGap(r)
  {
    match FrameInclusiveNext(r)
    case (None, _) => []
    case (Some(f), rest) => [f] + FrameInclusiveItems(rest)
  }

  /** The number of frames the inclusive range holds. */
  function FrameInclusiveCount(r: PhysFrameRangeInclusive): (n: u64)
    requires r.start.size == r.end.size
    ensures FrameInclusiveIsEmpty(r) ==> n == 0
    ensures !FrameInclusiveIsEmpty(r) ==>
      n >= 1 && r.start.start + (n - 1) * Size(r.start.size) == r.end.start
  {
    if FrameInclusiveIsEmpty(r) then 0 else FrameDiff(r.end, r.start) + 1
  }

  /** A single-frame inclusive range counts one frame. */
  lemma SingleFrameCount(r: PhysFrameRangeInclusive)
    requires r.start.size == r.end.size && r.start == r.end
    ensures FrameInclusiveCount(r) == 1
  {
    var sz: int, c: int := Size(r.start.size), FrameInclusiveCount(r) - 1;
    assert sz > 0 && c * sz == 0 * sz by { SizeFacts(r.start.size); }
    MulCancel(sz, c, 0);
  }

  /** Two inclusive ranges with the same end, the second starting one frame later, differ by one
      frame in their count. */
  lemma ShiftedFrameCount(r: PhysFrameRangeInclusive, rest: PhysFrameRangeInclusive)
    requires r.start.size == r.end.size && rest.start.size == r.start.size && rest.end == r.end
    requires r.start.start < r.end.start
    requires rest.start.start == r.start.start + Size(r.start.size)
    ensures FrameInclusiveCount(r) == FrameInclusiveCount(rest) + 1
  {
    NextFrameFits(r.start, r.end);
    var sz: int, a: int, b: int := Size(r.start.size), r.start.start, r.end.start;
    var c: int, c': int := FrameInclusiveCount(r) - 1, FrameInclusiveCount(rest) - 1;
    assert sz > 0 && a + c * sz == b;
    assert a + sz + c' * sz == b;
    CountStep(sz, a, b, c, c');
  }

  /** An inclusive range holds one frame more than the range `next` leaves behind. */
  lemma FrameInclusiveStepCount(r: PhysFrameRangeInclusive, rest: PhysFrameRangeInclusive)
    requires r.start.size == r.end.size && !FrameInclusiveIsEmpty(r)
    requires FrameInclusiveNext(r).1 == rest
    ensures FrameInclusiveCount(r) == FrameInclusiveCount(rest) + 1
  {
    if r.start == r.end {
      SingleFrameCount(r);
    } else {
      ShiftedFrameCount(r, rest);
    }
  }

  /** The guarded `next` yields exactly `FrameInclusiveCount` frames, the i-th one starting `i`
      frames after `start`, the last frame below 2^52 included. */
  lemma {:induction false} FrameInclusiveItemsEnumerate(r: PhysFrameRangeInclusive)
    requires r.start.size == r.end.size
    ensures |FrameInclusiveItems(r)| == FrameInclusiveCount(r)
    ensures forall i :: 0 <= i < |FrameInclusiveItems(r)| ==>
      FrameInclusiveItems(r)[i].size == r.start.size
    ensures forall i :: 0 <= i < |FrameInclusiveItems(r)| ==>
      FrameInclusiveItems(r)[i].start == r.start.start + i * Size(r.start.size)
    decreases FrameInclusiveGap(r)
  {
    match FrameInclusiveNext(r)
    case (None, _) =>
    case (Some(f), rest) =>
      FrameInclusiveItemsEnumerate(rest);
      assert FrameInclusiveItems(r) == [f] + FrameInclusiveItems(rest);
      FrameInclusiveStepCount(r, rest);
      FramesStep(FrameInclusiveItems(r), FrameInclusiveItems(rest), r.start.size, r.start.start);
  }

  /** With the guard, the range holding only the last frame yields it once and stops. */
  lemma FrameInclusiveLastFrame()
    ensures FrameInclusiveItems(PhysFrameRangeInclusive(LAST_FRAME, LAST_FRAME)) == [LAST_FRAME]
  {
    FrameInclusiveItemsEnumerate(PhysFrameRangeInclusive(LAST_FRAME, LAST_FRAME));
  }
}
