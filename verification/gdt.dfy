/** The global descriptor table (`src/structures/gdt.rs`).

    The table is eight 64-bit slots and a length; slot 0 is the null descriptor, so a new table
    has length 1. A user segment descriptor fills one slot and a system segment descriptor, such
    as the TSS descriptor, fills two. Adding a descriptor that does not fit panics; here that
    outcome is `None`. Descriptor words are `bv64`: the crate only masks, shifts and ors them. */
module Gdt {
  import opened Wrappers
  import opened Selectors

  // ----- Descriptor flags --------------------------------------------------------------------

  const ACCESSED: bv64 := 1 << 40
  const WRITABLE: bv64 := 1 << 41
  const CONFORMING: bv64 := 1 << 42
  const EXECUTABLE: bv64 := 1 << 43
  const USER_SEGMENT: bv64 := 1 << 44
  const DPL_RING_3: bv64 := 3 << 45
  const PRESENT: bv64 := 1 << 47
  const AVAILABLE: bv64 := 1 << 52
  const LONG_MODE: bv64 := 1 << 53
  const DEFAULT_SIZE: bv64 := 1 << 54
  const GRANULARITY: bv64 := 1 << 55
  const LIMIT_0_15: bv64 := 0xFFFF
  const LIMIT_16_19: bv64 := 0xF << 48
  const BASE_0_23: bv64 := 0xFF_FFFF << 16
  const BASE_24_31: bv64 := 0xFF << 56

  /** `DescriptorFlags::all()`: every defined flag. */
  const ALL_FLAGS: bv64 := ACCESSED | WRITABLE | CONFORMING | EXECUTABLE | USER_SEGMENT | DPL_RING_3
    | PRESENT | AVAILABLE | LONG_MODE | DEFAULT_SIZE | GRANULARITY | LIMIT_0_15 | LIMIT_16_19
    | BASE_0_23 | BASE_24_31

  /** `DescriptorFlags::from_bits_truncate`: the defined flags among `bits`. */
  function FromBitsTruncate(bits: bv64): bv64
  {
    bits & ALL_FLAGS
  }

  /** The flags every default segment sets. */
  const COMMON: bv64 := FromBitsTruncate(USER_SEGMENT | PRESENT | WRITABLE | ACCESSED | LIMIT_0_15
    | LIMIT_16_19 | GRANULARITY)
  const KERNEL_DATA: bv64 := FromBitsTruncate(COMMON | DEFAULT_SIZE)
  const KERNEL_CODE32: bv64 := FromBitsTruncate(COMMON | EXECUTABLE | DEFAULT_SIZE)
  const KERNEL_CODE64: bv64 := FromBitsTruncate(COMMON | EXECUTABLE | LONG_MODE)
  const USER_DATA: bv64 := FromBitsTruncate(KERNEL_DATA | DPL_RING_3)
  const USER_CODE32: bv64 := FromBitsTruncate(KERNEL_CODE32 | DPL_RING_3)
  const USER_CODE64: bv64 := FromBitsTruncate(KERNEL_CODE64 | DPL_RING_3)

  /** The presets are the Linux kernel's flat segment descriptors. */
  lemma LinuxKernelDefaults()
    ensures KERNEL_CODE64 == 0x00af9b000000ffff
    ensures KERNEL_CODE32 == 0x00cf9b000000ffff
    ensures KERNEL_DATA == 0x00cf93000000ffff
    ensures USER_CODE64 == 0x00affb000000ffff
    ensures USER_CODE32 == 0x00cffb000000ffff
    ensures USER_DATA == 0x00cff3000000ffff
  {
  }

  // ----- Descriptors -------------------------------------------------------------------------

  /** `Descriptor`: a code or data segment in one word, or a system segment in two. */
  datatype Descriptor = UserSegment(value: bv64) | SystemSegment(low: bv64, high: bv64)

  /** The word that holds the descriptor's flags: the only one, or the low one. */
  function LowWord(d: Descriptor): bv64
  {
    match d
    case UserSegment(v) => v
    case SystemSegment(v, _) => v
  }

  /** The words the descriptor occupies in the table, in order. */
  function Words(d: Descriptor): (ws: seq<bv64>)
    ensures |ws| == (if d.UserSegment? then 1 else 2) && ws[0] == LowWord(d)
  {
    match d
    case UserSegment(v) => [v]
    case SystemSegment(lo, hi) => [lo, hi]
  }

  /** The ring's number as a 64-bit word. */
  function RingWord(p: PrivilegeLevel): (r: bv64)
    ensures r < 4
  {
    match p
    case Ring0 => 0
    case Ring1 => 1
    case Ring2 => 2
    case Ring3 => 3
  }

  /** `Descriptor::dpl`: the ring in bits 45..46 of the low word. */
  function Dpl(d: Descriptor): (p: PrivilegeLevel)
    ensures RingWord(p) == (LowWord(d) & DPL_RING_3) >> 45
  {
    var x := (LowWord(d) & DPL_RING_3) >> 45;
    DplFieldBound(LowWord(d));
    if x == 0 then Ring0 else if x == 1 then Ring1 else if x == 2 then Ring2 else Ring3
  }

  /** The DPL field has two bits. */
  lemma DplFieldBound(v: bv64)
    ensures (v & DPL_RING_3) >> 45 < 4
  {
  }

  /** `kernel_code_segment`, `kernel_data_segment`, `user_data_segment`, `user_code_segment`. */
  function KernelCodeSegment(): Descriptor { UserSegment(KERNEL_CODE64) }
  function KernelDataSegment(): Descriptor { UserSegment(KERNEL_DATA) }
  function UserDataSegment(): Descriptor { UserSegment(USER_DATA) }
  function UserCodeSegment(): Descriptor { UserSegment(USER_CODE64) }

  /** The kernel segments are ring 0 and the user segments ring 3. */
  lemma DescriptorDpl()
    ensures Dpl(KernelCodeSegment()) == Ring0 && Dpl(KernelDataSegment()) == Ring0
    ensures Dpl(UserCodeSegment()) == Ring3 && Dpl(UserDataSegment()) == Ring3
    ensures Dpl(UserSegment(USER_CODE32)) == Ring3
  {
    LinuxKernelDefaults();
  }

  // ----- The TSS descriptor ------------------------------------------------------------------

  /** `size_of::<TaskStateSegment>()`: 0x68 bytes (src/structures/tss.rs:125). */
  const TSS_SIZE: bv64 := 0x68

  /** `Descriptor::tss_segment_unchecked`: a present available 64-bit TSS (type `0b1001` in bits
      40..43) whose limit, in bits 0..15, is the TSS size less one, and whose base is the pointer:
      bits 0..23 of it in bits 16..39, bits 24..31 in bits 56..63, and bits 32..63 in the high
      word. */
  function TssSegmentUnchecked(ptr: bv64): (d: Descriptor)
    ensures d.SystemSegment?
  {
    var low := SetLimit(SetBaseHigh(SetBaseLow(PRESENT, ptr & 0xFF_FFFF), (ptr >> 24) & 0xFF),
                        TSS_SIZE - 1);
    SystemSegment(SetType(low, 9), ptr >> 32)
  }

  /** `set_bits(16..40, x)`. */
  function SetBaseLow(v: bv64, x: bv64): bv64
    requires x <= 0xFF_FFFF
  {
    (v & !BASE_0_23) | (x << 16)
  }

  /** `set_bits(56..64, x)`. */
  function SetBaseHigh(v: bv64, x: bv64): bv64
    requires x <= 0xFF
  {
    (v & !BASE_24_31) | (x << 56)
  }

  /** `set_bits(0..16, x)`. */
  function SetLimit(v: bv64, x: bv64): bv64
    requires x <= 0xFFFF
  {
    (v & !LIMIT_0_15) | x
  }

  /** `set_bits(40..44, x)`. */
  function SetType(v: bv64, x: bv64): bv64
    requires x <= 0xF
  {
    (v & !(0xF << 40)) | (x << 40)
  }

  /** The base address a system segment descriptor holds. */
  function SystemBase(low: bv64, high: bv64): bv64
  {
    ((low >> 16) & 0xFF_FFFF) | (((low >> 56) & 0xFF) << 24) | (high << 32)
  }

  /** The low word of the TSS descriptor, spelled out. */
  lemma TssLowWord(ptr: bv64)
    ensures TssSegmentUnchecked(ptr).low
      == PRESENT | ((ptr & 0xFF_FFFF) << 16) | (((ptr >> 24) & 0xFF) << 56) | 0x67 | (9 << 40)
  {
    TssLowSteps(ptr);
  }

  /** The four `set_bits` calls of `tss_segment_unchecked`, on the word they start from. */
  lemma TssLowSteps(p: bv64)
    ensures SetType(SetLimit(SetBaseHigh(SetBaseLow(PRESENT, p & 0xFF_FFFF), (p >> 24) & 0xFF), 0x67), 9)
      == PRESENT | ((p & 0xFF_FFFF) << 16) | (((p >> 24) & 0xFF) << 56) | 0x67 | (9 << 40)
  {
  }

  /** The TSS descriptor decodes to the pointer as its base, to the TSS size less one as its
      limit, to an available 64-bit TSS as its type, and to a present ring-0 segment. */
  lemma TssSegmentDecodes(ptr: bv64)
    ensures var d := TssSegmentUnchecked(ptr);
      SystemBase(d.low, d.high) == ptr && d.low & LIMIT_0_15 == TSS_SIZE - 1
      && (d.low >> 40) & 0xF == 9 && d.low & PRESENT != 0 && Dpl(d) == Ring0
  {
    TssLowWord(ptr);
    TssFields(ptr);
  }

  /** The fields of the spelled-out TSS low word. */
  lemma TssFields(p: bv64)
    ensures var low := PRESENT | ((p & 0xFF_FFFF) << 16) | (((p >> 24) & 0xFF) << 56) | 0x67 | (9 << 40);
      SystemBase(low, p >> 32) == p && low & LIMIT_0_15 == 0x67 && (low >> 40) & 0xF == 9
      && low & PRESENT != 0 && (low & DPL_RING_3) >> 45 == 0
  {
  }

  // ----- The table ---------------------------------------------------------------------------

  /** The number of slots. */
  const SLOTS: nat := 8

  datatype Table = Table(table: seq<bv64>, len: nat)

  /** `GlobalDescriptorTable`: eight slots, of which the first `len` are in use. */
  type GlobalDescriptorTable = g: Table | |g.table| == SLOTS && g.len <= SLOTS
    witness Table([0, 0, 0, 0, 0, 0, 0, 0], 1)

  /** `GlobalDescriptorTable::new`: eight zero slots, the null descriptor in use. */
  function NewGdt(): (g: GlobalDescriptorTable)
    ensures g.len == 1 && forall i :: 0 <= i < SLOTS ==> g.table[i] == 0
  {
    Table(seq(SLOTS, _ => 0), 1)
  }

  /** `GlobalDescriptorTable::as_raw_slice`: the slots in use. */
  function AsRawSlice(g: GlobalDescriptorTable): (s: seq<bv64>)
    ensures |s| == g.len
    ensures forall i :: 0 <= i < g.len ==> s[i] == g.table[i]
  {
    g.table[..g.len]
  }

  /** `GlobalDescriptorTable::from_raw_slice`: the slice's words in the first slots and zeros after
      them, all of the slice in use; `None` is the panic on a slice longer than eight words. */
  function FromRawSlice(slice: seq<bv64>): (r: Option<GlobalDescriptorTable>)
    ensures r.None? <==> |slice| > SLOTS
    ensures r.Some? ==> r.value.len == |slice|
    ensures r.Some? ==> forall i :: 0 <= i < |slice| ==> r.value.table[i] == slice[i]
    ensures r.Some? ==> forall i :: |slice| <= i < SLOTS ==> r.value.table[i] == 0
  {
    if |slice| > SLOTS then None
    else
      var g: GlobalDescriptorTable := Table(slice + seq(SLOTS - |slice|, _ => 0), |slice|);
      Some(g)
  }

  /** A table made from a slice hands the slice back. */
  lemma RawSliceRoundTrip(slice: seq<bv64>)
    requires |slice| <= SLOTS
    ensures FromRawSlice(slice).Some? && AsRawSlice(FromRawSlice(slice).value) == slice
  {
  }

  /** A table rebuilt from its raw slice is the table with its unused slots cleared. */
  lemma FromAsRawSlice(g: GlobalDescriptorTable)
    ensures FromRawSlice(AsRawSlice(g)).Some?
    ensures var h := FromRawSlice(AsRawSlice(g)).value;
      h.len == g.len && forall i :: 0 <= i < SLOTS ==> h.table[i] == if i < g.len then g.table[i] else 0
  {
  }

  /** `GlobalDescriptorTable::push`: `value` in slot `len`, one more slot in use, and the old
      length as the slot's index. */
  function Push(g: GlobalDescriptorTable, value: bv64): (r: (GlobalDescriptorTable, nat))
    requires g.len < SLOTS
    ensures r.1 == g.len && r.0.len == g.len + 1
    ensures AsRawSlice(r.0) == AsRawSlice(g) + [value]
    ensures forall i :: g.len < i < SLOTS ==> r.0.table[i] == g.table[i]
  {
    var t: GlobalDescriptorTable := Table(g.table[g.len := value], g.len + 1);
    assert AsRawSlice(t) == AsRawSlice(g) + [value];
    (t, g.len)
  }

  /** `index as u16` for a slot index. */
  function SlotBits(i: nat): (r: bv16)
    requires i < SLOTS
  {
    i as bv16
  }

  /** `GlobalDescriptorTable::add_entry`: a user segment needs one free slot and a system segment
      two, else the call panics (`None`). The descriptor's words follow the slots in use, and the
      selector returned names the first of them with the descriptor's privilege level. */
  function AddEntry(g: GlobalDescriptorTable, entry: Descriptor): (r: Option<(GlobalDescriptorTable, SegmentSelector)>)
    ensures r.None? <==> g.len + |Words(entry)| > SLOTS
    ensures r.Some? ==> AsRawSlice(r.value.0) == AsRawSlice(g) + Words(entry)
    ensures r.Some? ==> r.value.1 == NewSelector(SlotBits(g.len), Dpl(entry))
  {
    match entry
    case UserSegment(value) =>
      if g.len > SLOTS - 1 then None
      else
        var (g1, index) := Push(g, value);
        Some((g1, NewSelector(SlotBits(index), Dpl(entry))))
    case SystemSegment(low, high) =>
      if g.len > SLOTS - 2 then None
      else
        var (g1, index) := Push(g, low);
        var (g2, _) := Push(g1, high);
        Some((g2, NewSelector(SlotBits(index), Dpl(entry))))
  }

  /** The selector `add_entry` returns indexes the descriptor's first word, requests the
      descriptor's privilege level, and names the GDT. */
  lemma AddEntrySelector(g: GlobalDescriptorTable, entry: Descriptor)
    requires AddEntry(g, entry).Some?
    ensures var (g1, sel) := AddEntry(g, entry).value;
      Index(sel) == SlotBits(g.len) && AsRawSlice(g1)[g.len] == LowWord(entry)
      && Rpl(sel) == Dpl(entry) && sel.bits & 4 == 0
  {
    var (g1, sel) := AddEntry(g, entry).value;
    assert AsRawSlice(g1)[g.len] == (AsRawSlice(g) + Words(entry))[g.len];
    SmallSlotIndex(g.len);
  }

  /** A slot index fits the selector's index field. */
  lemma SmallSlotIndex(i: nat)
    requires i < SLOTS
    ensures SlotBits(i) & 0x1fff == SlotBits(i)
  {
  }

  /** The table built by the crate's tests: the null descriptor and five user segments. */
  function SixEntryGdt(): (g: GlobalDescriptorTable)
    ensures g.len == 6
  {
    var g1 := AddEntry(NewGdt(), KernelCodeSegment()).value.0;
    var g2 := AddEntry(g1, KernelDataSegment()).value.0;
    var g3 := AddEntry(g2, UserSegment(USER_CODE32)).value.0;
    var g4 := AddEntry(g3, UserDataSegment()).value.0;
    AddEntry(g4, UserCodeSegment()).value.0
  }

  /** The capacity tests: two more user segments fit a six-entry table, after which a further
      user segment panics; a TSS fits a six-entry table, but not one with a single free slot. */
  lemma PushMaxSegments(g: GlobalDescriptorTable, ptr: bv64)
    requires g.len == 6
    ensures var g7 := AddEntry(g, UserDataSegment());
      g7.Some? && g7.value.0.len == 7
      && AddEntry(g7.value.0, UserDataSegment()).Some?
      && AddEntry(g7.value.0, UserDataSegment()).value.0.len == 8
      && AddEntry(AddEntry(g7.value.0, UserDataSegment()).value.0, UserDataSegment()).None?
      && AddEntry(g7.value.0, TssSegmentUnchecked(ptr)).None?
    ensures var full := AddEntry(g, TssSegmentUnchecked(ptr));
      full.Some? && full.value.0.len == 8 && AddEntry(full.value.0, UserDataSegment()).None?
  {
  }
}
