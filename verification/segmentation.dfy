/** Segment selectors (`src/registers/segmentation.rs`).

    A selector is a 16-bit word: the requested privilege level in bits 0..1, the table
    indicator in bit 2 (clear for the GDT) and the descriptor index in bits 3..15. The word is a
    `bv16` here: every operation of the crate on it is a shift or a mask. */
module Selectors {
  /** `PrivilegeLevel`: the four protection rings. */
  datatype PrivilegeLevel = Ring0 | Ring1 | Ring2 | Ring3

  /** `rpl as u16`: the ring's number. */
  function RingBits(p: PrivilegeLevel): (r: bv16)
    ensures r < 4
  {
    match p
    case Ring0 => 0
    case Ring1 => 1
    case Ring2 => 2
    case Ring3 => 3
  }

  /** `PrivilegeLevel::from_u16` on the two-bit values the crate passes it: the ring with that
      number. */
  function RingFromBits(x: bv16): (p: PrivilegeLevel)
    requires x < 4
    ensures RingBits(p) == x
  {
    if x == 0 then Ring0 else if x == 1 then Ring1 else if x == 2 then Ring2 else Ring3
  }

  /** Reading a ring back from its number gives the ring. */
  lemma RingRoundTrip(p: PrivilegeLevel)
    ensures RingFromBits(RingBits(p)) == p
  {
  }

  /** `SegmentSelector`: the raw 16-bit selector. */
  datatype SegmentSelector = SegmentSelector(bits: bv16)

  /** `SegmentSelector::index`: bits 3..15. */
  function Index(s: SegmentSelector): (r: bv16)
    ensures r < 0x2000
  {
    s.bits >> 3
  }

  /** `SegmentSelector::rpl`: the ring in bits 0..1. */
  function Rpl(s: SegmentSelector): PrivilegeLevel
  {
    RingFromBits(s.bits & 3)
  }

  /** `SegmentSelector::new`: `index << 3 | rpl`. The shift drops the top three bits of the index,
      so the selector holds the index modulo 2^13 and the ring, with the table indicator clear. */
  function NewSelector(index: bv16, rpl: PrivilegeLevel): (s: SegmentSelector)
    ensures Index(s) == index & 0x1fff
    ensures Rpl(s) == rpl
    ensures s.bits & 4 == 0
  {
    SegmentSelector((index << 3) | RingBits(rpl))
  }

  /** Every index that fits the field comes back unchanged. */
  lemma IndexOfNew(index: bv16, rpl: PrivilegeLevel)
    requires index < 0x2000
    ensures Index(NewSelector(index, rpl)) == index
  {
  }

  /** `SegmentSelector::NULL`: `new(0, Ring0)`, the all-zero selector. */
  function NullSelector(): (s: SegmentSelector)
    ensures s.bits == 0 && Index(s) == 0 && Rpl(s) == Ring0
  {
    NewSelector(0, Ring0)
  }

  /** `SegmentSelector::set_rpl`: `set_bits(0..2, rpl)`. The ring becomes `rpl`, and every bit from
      bit 2 up, the table indicator and the index, is kept. */
  function SetRpl(s: SegmentSelector, rpl: PrivilegeLevel): (r: SegmentSelector)
    ensures Rpl(r) == rpl
    ensures r.bits & 0xfffc == s.bits & 0xfffc
  {
    var r := SegmentSelector((s.bits & 0xfffc) | RingBits(rpl));
    assert r.bits & 3 == RingBits(rpl);
    RingRoundTrip(rpl);
    r
  }

  /** Setting the ring keeps the index. */
  lemma SetRplKeepsIndex(s: SegmentSelector, p: PrivilegeLevel)
    ensures Index(SetRpl(s, p)) == Index(s)
  {
    LowBitsLeaveIndex(s.bits, RingBits(p));
  }

  /** Replacing bits 0..1 leaves bits 3..15. */
  lemma LowBitsLeaveIndex(v: bv16, x: bv16)
    requires x < 4
    ensures ((v & 0xfffc) | x) >> 3 == v >> 3
  {
  }

  /** `new` builds exactly the selectors whose table indicator is clear: rebuilding a selector from
      its index and ring gives it back if and only if bit 2 is clear. */
  lemma SelectorRoundTrip(s: SegmentSelector)
    ensures NewSelector(Index(s), Rpl(s)) == s <==> s.bits & 4 == 0
  {
    var t := NewSelector(Index(s), Rpl(s));
    assert t.bits == s.bits & !4;
  }

  /** Setting the ring a selector already has changes nothing. */
  lemma SetRplSame(s: SegmentSelector)
    ensures SetRpl(s, Rpl(s)) == s
  {
    assert RingBits(Rpl(s)) == s.bits & 3;
    assert SetRpl(s, Rpl(s)).bits == s.bits;
  }

  /** Setting the ring twice keeps only the second. */
  lemma SetRplTwice(s: SegmentSelector, p: PrivilegeLevel, q: PrivilegeLevel)
    ensures SetRpl(SetRpl(s, p), q) == SetRpl(s, q)
  {
    var x := (s.bits & 0xfffc) | RingBits(p);
    assert (x & 0xfffc) | RingBits(q) == (s.bits & 0xfffc) | RingBits(q);
  }
}
