/** The interrupt descriptor table (`src/structures/idt.rs`).

    The table is 256 gate entries, one per interrupt vector. The crate declares it as a struct
    with one named field per CPU exception, typed by the kind of handler the vector takes, and an
    array of 224 user interrupts. The model keeps the 256 entries as one sequence, indexed by
    vector, and keeps the per-field handler kinds as an independent table (`KindOf`) against which
    the routing of `Index`/`IndexMut` is checked.

    An entry splits the handler address into a 16-, a 16- and a 32-bit part around the code
    selector and the options word. The options word is a `bv16`, since every operation on it is a
    mask; the address parts are integers, since they are cut and joined by arithmetic. */
module Idt {
  import opened Wrappers
  import opened Words
  import opened Bits
  import opened Addr
  import opened Selectors

  // ---------------------------------------------------------------------------------------------
  // Entry options
  // ---------------------------------------------------------------------------------------------

  /** `EntryOptions`: bits 0..2 the interrupt stack table index plus one, bit 8 set when
      interrupts stay enabled, bits 9..11 the must-be-one gate type bits, bits 13..14 the
      descriptor privilege level, bit 15 the present bit. */
  datatype EntryOptions = EntryOptions(bits: bv16)

  /** Bit 15: the entry is present. */
  predicate Present(o: EntryOptions)
  {
    o.bits & 0x8000 != 0
  }

  /** Bit 8 clear: the CPU disables interrupts when it enters the handler. */
  predicate InterruptsDisabled(o: EntryOptions)
  {
    o.bits & 0x100 == 0
  }

  /** Bits 13..14: the privilege level a caller needs to raise the vector by software. */
  function GateDpl(o: EntryOptions): PrivilegeLevel
  {
    RingFromBits((o.bits >> 13) & 3)
  }

  /** The two words agree on every bit but the present bit. */
  predicate SameExceptPresent(a: bv16, b: bv16)
  {
    a & 0x7fff == b & 0x7fff
  }

  /** The two words agree on every bit but bit 8. */
  predicate SameExceptInterrupts(a: bv16, b: bv16)
  {
    a & 0xfeff == b & 0xfeff
  }

  /** The two words agree on every bit but the privilege level. */
  predicate SameExceptDpl(a: bv16, b: bv16)
  {
    a & 0x9fff == b & 0x9fff
  }

  /** The two words agree on every bit but the stack field. */
  predicate SameExceptStack(a: bv16, b: bv16)
  {
    a & 0xfff8 == b & 0xfff8
  }

  /** Bits 0..2: zero for no stack switch, otherwise one more than the stack table index. */
  function StackField(o: EntryOptions): (r: bv16)
    ensures r < 8
  {
    o.bits & 7
  }

  /** `EntryOptions::minimal`: only the must-be-one bits. The entry is not present, interrupts
      are disabled, the privilege level is ring 0 and no stack switch is requested. */
  function Minimal(): (o: EntryOptions)
    ensures !Present(o) && InterruptsDisabled(o)
    ensures GateDpl(o) == Ring0 && StackField(o) == 0
    ensures o.bits & 0x0e00 == 0x0e00
  {
    EntryOptions(0x0e00)
  }

  /** `EntryOptions::set_present`: bit 15 becomes `present`, every other bit is kept. */
  function SetPresent(o: EntryOptions, present: bool): (r: EntryOptions)
    ensures Present(r) == present
    ensures SameExceptPresent(r.bits, o.bits)
  {
    if present then SetBit15(o.bits) else ClearBit15(o.bits)
  }

  /** Bit 15 set, bits 0..14 kept. */
  function SetBit15(v: bv16): (r: EntryOptions)
    ensures r.bits & 0x8000 != 0 && SameExceptPresent(r.bits, v)
  {
    EntryOptions(v | 0x8000)
  }

  /** Bit 15 cleared, bits 0..14 kept. */
  function ClearBit15(v: bv16): (r: EntryOptions)
    ensures r.bits & 0x8000 == 0 && SameExceptPresent(r.bits, v)
  {
    EntryOptions(v & 0x7fff)
  }

  /** `EntryOptions::disable_interrupts`: bit 8 becomes `!disable`, every other bit is kept. */
  function DisableInterrupts(o: EntryOptions, disable: bool): (r: EntryOptions)
    ensures InterruptsDisabled(r) == disable
    ensures SameExceptInterrupts(r.bits, o.bits)
  {
    if disable then ClearBit8(o.bits) else SetBit8(o.bits)
  }

  /** Bit 8 set, the other bits kept. */
  function SetBit8(v: bv16): (r: EntryOptions)
    ensures r.bits & 0x100 != 0 && SameExceptInterrupts(r.bits, v)
  {
    EntryOptions(v | 0x100)
  }

  /** Bit 8 cleared, the other bits kept. */
  function ClearBit8(v: bv16): (r: EntryOptions)
    ensures r.bits & 0x100 == 0 && SameExceptInterrupts(r.bits, v)
  {
    EntryOptions(v & 0xfeff)
  }

  /** `EntryOptions::set_privilege_level`: bits 13..14 become the ring, every other bit is
      kept. */
  function SetPrivilegeLevel(o: EntryOptions, dpl: PrivilegeLevel): (r: EntryOptions)
    ensures GateDpl(r) == dpl
    ensures SameExceptDpl(r.bits, o.bits)
  {
    var r := EntryOptions((o.bits & 0x9fff) | (RingBits(dpl) << 13));
    DplFieldReads(o.bits, RingBits(dpl));
    RingRoundTrip(dpl);
    r
  }

  /** Writing `x` into bits 13..14 and reading them back gives `x`. */
  lemma DplFieldReads(v: bv16, x: bv16)
    requires x < 4
    ensures (((v & 0x9fff) | (x << 13)) >> 13) & 3 == x
    ensures SameExceptDpl((v & 0x9fff) | (x << 13), v)
  {
  }

  /** `EntryOptions::set_stack_index`: bits 0..2 become `index + 1`, the hardware numbering of
      the interrupt stack table. The crate panics, as `None` here, when `index + 1` does not fit
      three bits (and, for `index == 0xffff`, on the overflow of the addition first): exactly the
      indices above 6. */
  function SetStackIndex(o: EntryOptions, index: bv16): (r: Option<EntryOptions>)
    ensures r.Some? <==> index <= 6
    ensures r.Some? ==> StackField(r.value) == index + 1
    ensures r.Some? ==> SameExceptStack(r.value.bits, o.bits)
  {
    if index > 6 then None
    else
      StackFieldWrites(o.bits, index + 1);
      Some(EntryOptions((o.bits & 0xfff8) | (index + 1)))
  }

  /** Writing a three-bit value into bits 0..2 reads back and keeps the rest. */
  lemma StackFieldWrites(v: bv16, x: bv16)
    requires x < 8
    ensures ((v & 0xfff8) | x) & 7 == x
    ensures SameExceptStack((v & 0xfff8) | x, v)
  {
  }

  /** Setting the present bit leaves the other fields. */
  lemma SetPresentKeepsFields(o: EntryOptions, b: bool)
    ensures InterruptsDisabled(SetPresent(o, b)) == InterruptsDisabled(o)
    ensures GateDpl(SetPresent(o, b)) == GateDpl(o)
    ensures StackField(SetPresent(o, b)) == StackField(o)
  {
    AgreeBelow15(SetPresent(o, b).bits, o.bits);
  }

  /** Choosing whether interrupts stay enabled leaves the other fields. */
  lemma DisableInterruptsKeepsFields(o: EntryOptions, b: bool)
    ensures Present(DisableInterrupts(o, b)) == Present(o)
    ensures GateDpl(DisableInterrupts(o, b)) == GateDpl(o)
    ensures StackField(DisableInterrupts(o, b)) == StackField(o)
  {
    AgreeOutside8(DisableInterrupts(o, b).bits, o.bits);
  }

  /** Setting the privilege level leaves the other fields. */
  lemma SetPrivilegeLevelKeepsFields(o: EntryOptions, p: PrivilegeLevel)
    ensures Present(SetPrivilegeLevel(o, p)) == Present(o)
    ensures InterruptsDisabled(SetPrivilegeLevel(o, p)) == InterruptsDisabled(o)
    ensures StackField(SetPrivilegeLevel(o, p)) == StackField(o)
  {
    AgreeOutside13(SetPrivilegeLevel(o, p).bits, o.bits);
  }

  /** Setting the stack index leaves the other fields. */
  lemma SetStackIndexKeepsFields(o: EntryOptions, index: bv16)
    requires index <= 6
    ensures Present(SetStackIndex(o, index).value) == Present(o)
    ensures InterruptsDisabled(SetStackIndex(o, index).value) == InterruptsDisabled(o)
    ensures GateDpl(SetStackIndex(o, index).value) == GateDpl(o)
  {
    AgreeAbove2(SetStackIndex(o, index).value.bits, o.bits);
  }

  /** Words that agree on bits 0..14 agree on bit 8, bits 13..14 and bits 0..2. */
  lemma AgreeBelow15(a: bv16, b: bv16)
    requires SameExceptPresent(a, b)
    ensures a & 0x100 == b & 0x100 && (a >> 13) & 3 == (b >> 13) & 3 && a & 7 == b & 7
  {
  }

  /** Words that agree outside bit 8 agree on bit 15, bits 13..14 and bits 0..2. */
  lemma AgreeOutside8(a: bv16, b: bv16)
    requires SameExceptInterrupts(a, b)
    ensures a & 0x8000 == b & 0x8000 && (a >> 13) & 3 == (b >> 13) & 3 && a & 7 == b & 7
  {
  }

  /** Words that agree outside bits 13..14 agree on bit 15, bit 8 and bits 0..2. */
  lemma AgreeOutside13(a: bv16, b: bv16)
    requires SameExceptDpl(a, b)
    ensures a & 0x8000 == b & 0x8000 && a & 0x100 == b & 0x100 && a & 7 == b & 7
  {
  }

  /** Words that agree from bit 3 up agree on bit 15, bit 8 and bits 13..14. */
  lemma AgreeAbove2(a: bv16, b: bv16)
    requires SameExceptStack(a, b)
    ensures a & 0x8000 == b & 0x8000 && a & 0x100 == b & 0x100 && (a >> 13) & 3 == (b >> 13) & 3
  {
  }

  // ---------------------------------------------------------------------------------------------
  // Entries
  // ---------------------------------------------------------------------------------------------

  /** `Entry`: the handler address in three parts, the code segment selector, the options and a
      reserved word. Its fields take 2 + 2 + 2 + 2 + 4 + 4 = 16 bytes. */
  datatype Entry = Entry(
    pointerLow: u16,
    gdtSelector: bv16,
    options: EntryOptions,
    pointerMiddle: u16,
    pointerHigh: u32,
    reserved: u32)

  /** `Entry::missing`: a non-present entry with a null handler. */
  function Missing(): (e: Entry)
    ensures !Present(e.options) && e.options == Minimal()
    ensures HandlerAddr(e) == 0
    ensures e.gdtSelector == 0 && e.reserved == 0
  {
    var e := Entry(0, 0, Minimal(), 0, 0, 0);
    RawAddrIsSum(e);
    e
  }

  /** `pointer_low | pointer_middle << 16 | pointer_high << 32` as a `u64`. */
  function RawAddr(e: Entry): (r: u64)
  {
    Pow2Words();
    Pow2Values();
    JoinBound(e.pointerMiddle, 16, e.pointerHigh, 32);
    JoinBound(e.pointerLow, 16, Join(e.pointerMiddle, 16, e.pointerHigh), 48);
    Join(e.pointerLow, 16, Join(e.pointerMiddle, 16, e.pointerHigh))
  }

  /** The three parts sit side by side: the joined value is their positional sum. */
  lemma RawAddrIsSum(e: Entry)
    ensures RawAddr(e) == e.pointerLow + U16_LIMIT * e.pointerMiddle + U32_LIMIT * e.pointerHigh
  {
    var inner := Join(e.pointerMiddle, 16, e.pointerHigh);
    Join16(e.pointerMiddle, e.pointerHigh);
    Join16(e.pointerLow, inner);
  }

  /** Joining a 16-bit word below `y` is adding `2^16 * y`. */
  lemma Join16(x: u16, y: nat)
    ensures Join(x, 16, y) == x + U16_LIMIT * y
  {
    Pow2Words();
    JoinOfSmall(x, 16, y);
  }

  /** Joining a word that fits `n` bits below `y` is adding `2^n * y`. */
  lemma JoinOfSmall(x: nat, n: nat, y: nat)
    requires x < Pow2(n)
    ensures Join(x, n, y) == x + Pow2(n) * y
  {
    JoinIsSum(x, n, y);
    LowIsMod(x, n);
    DivModUnique(Pow2(n), 0, x, x);
  }

  /** `Entry::handler_addr`: the joined parts made canonical by `VirtAddr::new_truncate`. */
  function HandlerAddr(e: Entry): VirtAddr
  {
    VirtNewTruncate(RawAddr(e))
  }

  /** `Entry::set_handler_addr`: the address is cut into its bits 0..15, 16..31 and 32..63, the
      selector becomes `cs` (`set_handler_addr` reads the CS register; a parameter here) and the
      entry is marked present; the other option bits and the reserved word are kept. */
  function SetHandlerAddr(e: Entry, addr: VirtAddr, cs: SegmentSelector): (r: Entry)
    ensures HandlerAddr(r) == addr
    ensures r.gdtSelector == cs.bits
    ensures Present(r.options) && SameExceptPresent(r.options.bits, e.options.bits)
    ensures r.reserved == e.reserved
  {
    var r := Entry(
      addr % U16_LIMIT,
      cs.bits,
      SetPresent(e.options, true),
      (addr / U16_LIMIT) % U16_LIMIT,
      (addr / U32_LIMIT) % U32_LIMIT,
      e.reserved);
    SplitJoins(addr);
    RawAddrIsSum(r);
    r
  }

  /** Cutting a word into bits 0..15, 16..31 and 32..63 and adding the parts back in place gives
      the word. */
  lemma SplitJoins(a: u64)
    ensures a % U16_LIMIT + U16_LIMIT * ((a / U16_LIMIT) % U16_LIMIT)
              + U32_LIMIT * ((a / U32_LIMIT) % U32_LIMIT) == a
  {
    var m := a / U16_LIMIT;
    DivDiv(a, U16_LIMIT, U16_LIMIT);
    assert a / U32_LIMIT == m / U16_LIMIT;
    assert a / U32_LIMIT < U32_LIMIT;
    assert m == m % U16_LIMIT + U16_LIMIT * (m / U16_LIMIT);
    assert a == a % U16_LIMIT + U16_LIMIT * m;
  }

  /** The entry keeps the address it was given, whatever the address was before. */
  lemma SetHandlerAddrTwice(e: Entry, a: VirtAddr, b: VirtAddr, cs: SegmentSelector)
    ensures HandlerAddr(SetHandlerAddr(SetHandlerAddr(e, a, cs), b, cs)) == b
    ensures SetHandlerAddr(SetHandlerAddr(e, a, cs), b, cs) == SetHandlerAddr(e, b, cs)
  {
    SetPresentTwice(e.options);
  }

  /** Marking an entry present twice is marking it once. */
  lemma SetPresentTwice(o: EntryOptions)
    ensures SetPresent(SetPresent(o, true), true) == SetPresent(o, true)
  {
    PresentIdempotent(o.bits);
  }

  /** Setting bit 15 twice is setting it once. */
  lemma PresentIdempotent(v: bv16)
    ensures SetBit15(SetBit15(v).bits) == SetBit15(v)
  {
    assert (v | 0x8000) | 0x8000 == v | 0x8000;
  }

  // ---------------------------------------------------------------------------------------------
  // The table
  // ---------------------------------------------------------------------------------------------

  const VECTORS: nat := 256
  const FIRST_USER: nat := 32

  /** `InterruptDescriptorTable`: one entry per vector. */
  type InterruptTable = t: seq<Entry> | |t| == VECTORS witness seq(VECTORS, _ => Missing())

  /** `InterruptDescriptorTable::new`: every vector holds a missing entry. `reset` replaces a
      table by this one. */
  function NewTable(): (t: InterruptTable)
    ensures forall v :: 0 <= v < VECTORS ==> t[v] == Missing()
    ensures forall v :: 0 <= v < VECTORS ==> !Present(t[v].options) && HandlerAddr(t[v]) == 0
  {
    seq(VECTORS, _ => Missing())
  }

  /** The handler type of each vector's field in the struct: plain handlers, handlers that take
      an error code, the page fault handler, handlers that must not return (with and without an
      error code), reserved vectors and the user interrupts 32..255. */
  datatype HandlerKind =
    | Plain
    | WithErrorCode
    | PageFaultHandler
    | Diverging
    | DivergingWithErrorCode
    | ReservedVector
    | UserInterrupt

  /** The field types of the struct, vector by vector; `None` past the last vector. */
  function KindOf(v: nat): Option<HandlerKind>
  {
    if v <= 7 then Some(Plain)               // divide_error .. device_not_available
    else if v == 8 then Some(DivergingWithErrorCode) // double_fault
    else if v == 9 then Some(Plain)          // coprocessor_segment_overrun
    else if v <= 13 then Some(WithErrorCode) // invalid_tss .. general_protection_fault
    else if v == 14 then Some(PageFaultHandler)
    else if v == 15 then Some(ReservedVector)
    else if v == 16 then Some(Plain)         // x87_floating_point
    else if v == 17 then Some(WithErrorCode) // alignment_check
    else if v == 18 then Some(Diverging)     // machine_check
    else if v <= 20 then Some(Plain)         // simd_floating_point, virtualization
    else if v == 21 then Some(WithErrorCode) // cp_protection_exception
    else if v <= 27 then Some(ReservedVector)
    else if v == 28 then Some(Plain)         // hv_injection_exception
    else if v <= 30 then Some(WithErrorCode) // vmm_communication, security exceptions
    else if v == 31 then Some(ReservedVector)
    else if v < VECTORS then Some(UserInterrupt)
    else None
  }

  /** The four panics of `Index`/`IndexMut`. */
  datatype IndexPanic = ReservedEntry | ErrorCodeEntry | DivergingEntry | NoEntry

  /** The `match` of `Index::index` and `IndexMut::index_mut`: the position of the entry the
      vector selects, or the panic it raises. */
  function Route(i: nat): Result<nat, IndexPanic>
  {
    if i <= 7 || i == 9 || i == 16 || i == 19 || i == 20 || i == 28 then Ok(i)
    else if 32 <= i <= 255 then Ok(FIRST_USER + (i - 32))
    else if i == 15 || i == 31 || 22 <= i <= 27 then Err(ReservedEntry)
    else if i == 8 || 10 <= i <= 14 || i == 17 || i == 21 || i == 29 || i == 30 then
      Err(ErrorCodeEntry)
    else if i == 18 then Err(DivergingEntry)
    else Err(NoEntry)
  }

  /** The routing agrees with the field types: exactly the plain handlers and the user
      interrupts are reachable by index, each at its own vector, and each panic names the kind of
      field it refuses. */
  lemma RouteFollowsKinds(i: nat)
    ensures Route(i).Ok? <==> KindOf(i) == Some(Plain) || KindOf(i) == Some(UserInterrupt)
    ensures Route(i).Ok? ==> Route(i).value == i
    ensures Route(i) == Err(ReservedEntry) <==> KindOf(i) == Some(ReservedVector)
    ensures Route(i) == Err(ErrorCodeEntry) <==>
              KindOf(i) == Some(WithErrorCode) || KindOf(i) == Some(PageFaultHandler)
              || KindOf(i) == Some(DivergingWithErrorCode)
    ensures Route(i) == Err(DivergingEntry) <==> KindOf(i) == Some(Diverging)
    ensures Route(i) == Err(NoEntry) <==> KindOf(i).None?
  {
  }

  /** `Index::index`: the entry of vector `i`, or the panic. */
  function Get(t: InterruptTable, i: nat): (r: Result<Entry, IndexPanic>)
    ensures r.Ok? <==> KindOf(i) == Some(Plain) || KindOf(i) == Some(UserInterrupt)
    ensures r.Ok? ==> i < VECTORS && r.value == t[i]
    ensures r.Err? ==> Route(i) == Err(r.error)
  {
    RouteFollowsKinds(i);
    match Route(i)
    case Ok(p) => Ok(t[p])
    case Err(e) => Err(e)
  }

  /** `IndexMut::index_mut` followed by a store: the table with vector `i` replaced, or the
      panic. */
  function Set(t: InterruptTable, i: nat, e: Entry): (r: Result<InterruptTable, IndexPanic>)
    ensures r.Ok? <==> Get(t, i).Ok?
    ensures r.Err? ==> Get(t, i) == Err(r.error)
  {
    RouteFollowsKinds(i);
    match Route(i)
    case Ok(p) =>
      var u: InterruptTable := t[p := e];
      Ok(u)
    case Err(x) => Err(x)
  }

  /** A store is read back at its vector and leaves every other vector alone. */
  lemma SetThenGet(t: InterruptTable, i: nat, e: Entry, j: nat)
    requires Set(t, i, e).Ok?
    ensures Get(Set(t, i, e).value, i) == Ok(e)
    ensures j != i ==> Get(Set(t, i, e).value, j) == Get(t, j)
  {
    RouteFollowsKinds(i);
    RouteFollowsKinds(j);
  }

  // ---------------------------------------------------------------------------------------------
  // Slices of the user interrupts
  // ---------------------------------------------------------------------------------------------

  /** A `RangeBounds<usize>` end point. */
  datatype Bound = Included(n: u64) | Excluded(n: u64) | Unbounded

  /** The panics of `slice`/`slice_mut`: the `+ 1` of an end point overflowing `usize`, an end
      past the table, a start inside the exception vectors, and a start after the end (the panic
      of the slice expression itself). */
  datatype SlicePanic = BoundOverflow | OutOfTable | ExceptionVectors | DecreasingRange

  /** The first vector of the range. */
  function Lower(b: Bound): Option<nat>
  {
    match b
    case Included(s) => Some(s)
    case Excluded(s) => if s + 1 < U64_LIMIT then Some(s + 1) else None
    case Unbounded => Some(0)
  }

  /** One past the last vector of the range. */
  function Upper(b: Bound): Option<nat>
  {
    match b
    case Included(e) => if e + 1 < U64_LIMIT then Some(e + 1) else None
    case Excluded(e) => Some(e)
    case Unbounded => Some(VECTORS)
  }

  /** `InterruptDescriptorTable::condition_slice_bounds`: the normalised range, refused when
      either end lies past vector 256 or the start lies below the first user interrupt. */
  function SliceBounds(start: Bound, end: Bound): (r: Result<(nat, nat), SlicePanic>)
    ensures r.Ok? <==> Lower(start).Some? && Upper(end).Some?
                       && FIRST_USER <= Lower(start).value <= VECTORS && Upper(end).value <= VECTORS
    ensures r.Ok? ==> r.value == (Lower(start).value, Upper(end).value)
  {
    if Lower(start).None? || Upper(end).None? then Err(BoundOverflow)
    else
      var lo, hi := Lower(start).value, Upper(end).value;
      if lo > VECTORS || hi > VECTORS then Err(OutOfTable)
      else if lo < FIRST_USER then Err(ExceptionVectors)
      else Ok((lo, hi))
  }

  /** `s` is the run of user interrupt entries of `t` from vector `lo` on, each as `Index`
      returns it. */
  predicate UserEntriesFrom(t: InterruptTable, lo: nat, s: seq<Entry>)
  {
    forall v :: lo <= v < lo + |s| ==> KindOf(v) == Some(UserInterrupt) && Get(t, v) == Ok(s[v - lo])
  }

  /** `InterruptDescriptorTable::slice` (and `slice_mut`, which returns the same entries):
      `interrupts[lo - 32 .. hi - 32]`, the entries of vectors `lo` up to `hi`. Each entry is the
      one `Index` returns for its vector, so the accepted ranges are exactly the runs of user
      interrupts. */
  function Slice(t: InterruptTable, start: Bound, end: Bound): (r: Result<seq<Entry>, SlicePanic>)
    ensures r.Ok? <==> SliceBounds(start, end).Ok?
                       && SliceBounds(start, end).value.0 <= SliceBounds(start, end).value.1
    ensures r.Ok? ==> |r.value| == SliceBounds(start, end).value.1 - SliceBounds(start, end).value.0
    ensures r.Ok? ==> UserEntriesFrom(t, SliceBounds(start, end).value.0, r.value)
  {
    match SliceBounds(start, end)
    case Err(e) => Err(e)
    case Ok((lo, hi)) =>
      if lo > hi then Err(DecreasingRange)
      else
        var s := t[FIRST_USER..][lo - FIRST_USER..hi - FIRST_USER];
        InterruptsAreUserEntries(t, lo, hi);
        Ok(s)
  }

  /** The entries `interrupts[lo - 32 .. hi - 32]` are those of vectors `lo` up to `hi`. */
  lemma InterruptsAreUserEntries(t: InterruptTable, lo: nat, hi: nat)
    requires FIRST_USER <= lo <= hi <= VECTORS
    ensures UserEntriesFrom(t, lo, t[FIRST_USER..][lo - FIRST_USER..hi - FIRST_USER])
  {
    var s := t[FIRST_USER..][lo - FIRST_USER..hi - FIRST_USER];
    forall v | lo <= v < lo + |s|
      ensures KindOf(v) == Some(UserInterrupt) && Get(t, v) == Ok(s[v - lo])
    {
      assert s[v - lo] == t[v];
      RouteFollowsKinds(v);
    }
  }

  /** The whole range `32..` is every user interrupt and nothing below it. */
  lemma FullUserSlice(t: InterruptTable)
    ensures Slice(t, Included(32), Unbounded) == Ok(t[FIRST_USER..])
    ensures Slice(t, Unbounded, Unbounded) == Err(ExceptionVectors)
  {
    assert t[FIRST_USER..][0..VECTORS - FIRST_USER] == t[FIRST_USER..];
  }

  // ---------------------------------------------------------------------------------------------
  // Selector error codes
  // ---------------------------------------------------------------------------------------------

  /** `SelectorErrorCode`: a 16-bit code, held in a `u64`, for an exception caused by a segment
      selector. */
  datatype SelectorErrorCode = SelectorErrorCode(flags: u16)

  /** `DescriptorTable`: the table a selector error refers to. */
  datatype DescriptorTable = Gdt | IdtTable | Ldt

  /** `SelectorErrorCode::new`: refuses any value with a bit set above bit 15. */
  function NewErrorCode(value: u64): (r: Option<SelectorErrorCode>)
    ensures r.Some? <==> value < U16_LIMIT
    ensures r.Some? ==> r.value.flags == value
  {
    if value > U16_LIMIT - 1 then None else Some(SelectorErrorCode(value))
  }

  /** `SelectorErrorCode::new_truncate`: `(value as u16) as u64`, the low 16 bits. */
  function NewTruncateErrorCode(value: u64): (r: SelectorErrorCode)
    ensures value < U16_LIMIT ==> r.flags == value
    ensures r.flags + U16_LIMIT * (value / U16_LIMIT) == value
  {
    SelectorErrorCode(value % U16_LIMIT)
  }

  /** Truncation agrees with `new` wherever `new` accepts, and its result is always accepted. */
  lemma NewTruncateAgrees(value: u64)
    ensures NewErrorCode(value).Some? ==> NewErrorCode(value).value == NewTruncateErrorCode(value)
    ensures NewErrorCode(NewTruncateErrorCode(value).flags) == Some(NewTruncateErrorCode(value))
  {
  }

  /** `external`: bit 0. */
  predicate External(c: SelectorErrorCode)
  {
    c.flags % 2 == 1
  }

  /** Bits 1..2 of the code. */
  function TableBits(c: SelectorErrorCode): nat
  {
    (c.flags / 2) % 4
  }

  /** `descriptor_table`: bits 1..2, where both 01 and 11 mean the IDT. */
  function DescriptorTableOf(c: SelectorErrorCode): DescriptorTable
  {
    match TableBits(c)
    case 0 => Gdt
    case 1 => IdtTable
    case 2 => Ldt
    case _ => IdtTable
  }

  /** `index`: bits 3..15. */
  function ErrorIndex(c: SelectorErrorCode): (r: nat)
    ensures r < 0x2000
  {
    (c.flags / 8) % 0x2000
  }

  /** `is_null`: the code is zero. */
  predicate IsNull(c: SelectorErrorCode)
  {
    c.flags == 0
  }

  /** The code built from its three fields. */
  function EncodeErrorCode(external: bool, table: nat, index: nat): (c: SelectorErrorCode)
    requires table < 4 && index < 0x2000
  {
    SelectorErrorCode((if external then 1 else 0) + 2 * table + 8 * index)
  }

  /** The three fields describe a code completely: reading them from a code and encoding them
      gives the code back, and encoding fields and reading them gives the fields back. */
  lemma ErrorCodeFields(c: SelectorErrorCode, external: bool, table: nat, index: nat)
    requires table < 4 && index < 0x2000
    ensures EncodeErrorCode(External(c), TableBits(c), ErrorIndex(c)) == c
    ensures var d := EncodeErrorCode(external, table, index);
            External(d) == external && TableBits(d) == table && ErrorIndex(d) == index
  {
    FieldsOfCode(c.flags);
    CodeOfFields(if external then 1 else 0, table, index);
  }

  /** A 16-bit word is the sum of its bit 0, bits 1..2 and bits 3..15 in place. */
  lemma FieldsOfCode(f: u16)
    ensures f == f % 2 + 2 * ((f / 2) % 4) + 8 * ((f / 8) % 0x2000)
  {
    var h := f / 2;
    assert f == 2 * h + f % 2;
    assert h == 4 * (h / 4) + h % 4;
    DivDiv(f, 2, 4);
    assert f / 8 == h / 4;
    assert f / 8 < 0x2000;
  }

  /** The fields placed in a word read back. */
  lemma CodeOfFields(e: nat, table: nat, index: nat)
    requires e < 2 && table < 4 && index < 0x2000
    ensures (e + 2 * table + 8 * index) % 2 == e
    ensures ((e + 2 * table + 8 * index) / 2) % 4 == table
    ensures ((e + 2 * table + 8 * index) / 8) % 0x2000 == index
  {
    var g := e + 2 * table + 8 * index;
    DivModUnique(2, table + 4 * index, e, g);
    DivModUnique(4, index, table, table + 4 * index);
    DivDiv(g, 2, 4);
  }

  /** A code is null exactly when it is internal, refers to the GDT and has index zero. */
  lemma IsNullFields(c: SelectorErrorCode)
    ensures IsNull(c) <==> !External(c) && DescriptorTableOf(c) == Gdt && ErrorIndex(c) == 0
  {
    ErrorCodeFields(c, false, 0, 0);
  }
}
