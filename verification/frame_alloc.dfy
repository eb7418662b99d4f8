/** Frame allocation and deallocation (`frame_alloc.rs`).

    The allocator is the one external object the mapper consults. It is modelled by the answers
    it will give, in order: each call to `allocate_frame` consumes one answer, and once the
    answers run out every further call answers `None`, which is the allocator's only failure
    signal. The implementer's promise that every frame it returns is unique and unused becomes
    the predicate `AnswersUnique` over those answers and a set of frames already in use. */
module FrameAlloc {
  import opened Wrappers
  import opened Pages
  import opened Frames

  /** A 4 KiB physical frame, the kind the mapper allocates for page tables. */
  type Frame4KiB = f: PhysFrame | f.size == Size4KiB witness RawFrame(Size4KiB, 0)

  /** A `FrameAllocator<Size4KiB>`: the answers it will give to successive calls. */
  datatype FrameAllocator = FrameAllocator(answers: seq<Option<Frame4KiB>>)

  /** `FrameAllocator::allocate_frame`: the next answer, and the allocator that remains. */
  function AllocateFrame(a: FrameAllocator): (r: (Option<Frame4KiB>, FrameAllocator))
  {
    if |a.answers| == 0 then (None, a) else (a.answers[0], FrameAllocator(a.answers[1..]))
  }

  /** `b` is what remains of `a` after `k` calls to `allocate_frame`. */
  predicate Consumed(a: FrameAllocator, b: FrameAllocator, k: nat)
  {
    if |a.answers| <= k then b.answers == [] else b.answers == a.answers[k..]
  }

  /** Consuming `k1` answers and then `k2` more consumes `k1 + k2`; consuming none changes
      nothing. */
  lemma ConsumedAdds(a: FrameAllocator, b: FrameAllocator, c: FrameAllocator, k1: nat, k2: nat)
    requires Consumed(a, b, k1) && Consumed(b, c, k2)
    ensures Consumed(a, c, k1 + k2)
    ensures Consumed(a, a, 0)
  {
    if |a.answers| > k1 {
      assert b.answers == a.answers[k1..];
      if |b.answers| > k2 {
        assert c.answers == a.answers[k1 + k2..];
      }
    }
  }

  /** The frames among the answers, in order. */
  function IssuedFrames(answers: seq<Option<Frame4KiB>>): seq<Frame4KiB>
  {
    if |answers| == 0 then []
    else (match answers[0] case Some(f) => [f] case None => []) + IssuedFrames(answers[1..])
  }

  /** The allocator's promise: the frames it will issue are pairwise distinct and none of them
      starts at an address in `used`. */
  predicate AnswersUnique(a: FrameAllocator, used: set<int>)
  {
    var fs := IssuedFrames(a.answers);
    (forall i, j :: 0 <= i < j < |fs| ==> fs[i].start != fs[j].start)
    && (forall i :: 0 <= i < |fs| ==> fs[i].start !in used)
  }

  /** One allocation consumes exactly one answer: the result is the first answer, or `None`
      once the answers are exhausted. */
  lemma AllocateConsumesOne(a: FrameAllocator)
    ensures Consumed(a, AllocateFrame(a).1, 1)
    ensures |a.answers| == 0 ==> AllocateFrame(a).0 == None
    ensures |a.answers| > 0 ==> AllocateFrame(a).0 == a.answers[0]
  {
  }

  /** The uniqueness promise survives an allocation: the issued frame was not in use, and the
      remaining answers stay unique with that frame now counted as used. */
  lemma AllocationKeepsUnique(a: FrameAllocator, used: set<int>)
    requires AnswersUnique(a, used)
    ensures AllocateFrame(a).0.Some? ==> AllocateFrame(a).0.value.start !in used
    ensures AllocateFrame(a).0.Some? ==>
      AnswersUnique(AllocateFrame(a).1, used + {AllocateFrame(a).0.value.start})
    ensures AllocateFrame(a).0.None? ==> AnswersUnique(AllocateFrame(a).1, used)
  {
    if |a.answers| > 0 {
      var fs := IssuedFrames(a.answers);
      var rest := IssuedFrames(a.answers[1..]);
      match a.answers[0]
      case Some(f) =>
        assert fs == [f] + rest;
        assert fs[0] == f;
        assert forall i :: 0 <= i < |rest| ==> rest[i] == fs[i + 1];
      case None =>
        assert fs == rest;
    }
  }

  /** `FrameDeallocator`: the frames handed back to it, in order. */
  datatype FrameDeallocator = FrameDeallocator(freed: seq<PhysFrame>)

  /** `FrameDeallocator::deallocate_frame`: the caller promises the frame is unused; the
      deallocator records it as the last frame handed back. */
  function DeallocateFrame(d: FrameDeallocator, frame: PhysFrame): (r: FrameDeallocator)
    ensures |r.freed| == |d.freed| + 1 && r.freed[|d.freed|] == frame
    ensures r.freed[..|d.freed|] == d.freed
  {
    FrameDeallocator(d.freed + [frame])
  }

  /** `UnusedPhysFrame`, a deprecated wrapper around a frame. */
  datatype UnusedPhysFrame = UnusedPhysFrame(inner: PhysFrame)

  /** `UnusedPhysFrame::new`. */
  function UnusedNew(frame: PhysFrame): UnusedPhysFrame
  {
    UnusedPhysFrame(frame)
  }

  /** `UnusedPhysFrame::frame`. */
  function UnusedFrame(u: UnusedPhysFrame): PhysFrame
  {
    u.inner
  }

  /** Wrapping a frame and unwrapping it gives the frame back, and wrapping loses nothing. */
  lemma UnusedRoundTrip(frame: PhysFrame, u: UnusedPhysFrame)
    ensures UnusedFrame(UnusedNew(frame)) == frame
    ensures UnusedNew(UnusedFrame(u)) == u
  {
  }
}
