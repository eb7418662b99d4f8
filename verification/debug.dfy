/** The debug registers (`src/registers/debug.rs`): the numbers of the four breakpoint address
    registers, the status flags of DR6, and the control value of DR7 with its enable flags and its
    per-breakpoint condition and size fields. Register words are `bv64`; every operation of
    `Dr7Value` on them is a shift or a mask. */
module Debug {
  import opened Wrappers

  // ---------------------------------------------------------------------------------------------
  // Breakpoint address register numbers
  // ---------------------------------------------------------------------------------------------

  /** `DebugAddressRegisterNumber`: one of DR0..DR3. */
  datatype RegisterNumber = Dr0 | Dr1 | Dr2 | Dr3

  /** `DebugAddressRegisterNumber::get`: the register's number. */
  function Get(n: RegisterNumber): (r: nat)
    ensures r <= 3
  {
    match n
    case Dr0 => 0
    case Dr1 => 1
    case Dr2 => 2
    case Dr3 => 3
  }

  /** `DebugAddressRegisterNumber::new`: the register with number `k`, for `k` up to 3. */
  function NewRegisterNumber(k: nat): (r: Option<RegisterNumber>)
    ensures r.Some? <==> k <= 3
    ensures r.Some? ==> Get(r.value) == k
  {
    if k == 0 then Some(Dr0)
    else if k == 1 then Some(Dr1)
    else if k == 2 then Some(Dr2)
    else if k == 3 then Some(Dr3)
    else None
  }

  /** A register number survives the trip through its number. */
  lemma RegisterNumberRoundTrip(n: RegisterNumber)
    ensures NewRegisterNumber(Get(n)) == Some(n)
  {
  }

  /** The register number as a shift amount. */
  function Num(n: RegisterNumber): (r: bv64)
    ensures r <= 3
  {
    match n
    case Dr0 => 0
    case Dr1 => 1
    case Dr2 => 2
    case Dr3 => 3
  }

  // ---------------------------------------------------------------------------------------------
  // DR6
  // ---------------------------------------------------------------------------------------------

  const TRAP0: bv64 := 1
  const TRAP1: bv64 := 1 << 1
  const TRAP2: bv64 := 1 << 2
  const TRAP3: bv64 := 1 << 3
  /** `Dr6Flags::TRAP`: any breakpoint condition. */
  const TRAP: bv64 := TRAP0 | TRAP1 | TRAP2 | TRAP3
  const ACCESS_DETECTED: bv64 := 1 << 13
  const STEP: bv64 := 1 << 14
  const SWITCH: bv64 := 1 << 15
  const RTM_REGION: bv64 := 1 << 16

  /** `Dr6Flags::trap`: the flag of breakpoint `n`, bit `n`. */
  function Trap(n: RegisterNumber): (r: bv64)
    ensures r == 1 << Num(n)
  {
    match n
    case Dr0 => TRAP0
    case Dr1 => TRAP1
    case Dr2 => TRAP2
    case Dr3 => TRAP3
  }

  /** The four trap flags are distinct bits, and `TRAP` is exactly their union. */
  lemma TrapsPartitionTrap(n: RegisterNumber, m: RegisterNumber)
    ensures n != m ==> Trap(n) & Trap(m) == 0
    ensures Trap(n) & TRAP == Trap(n)
    ensures Trap(Dr0) | Trap(Dr1) | Trap(Dr2) | Trap(Dr3) == TRAP
    ensures TRAP & (ACCESS_DETECTED | STEP | SWITCH | RTM_REGION) == 0
  {
  }

  // ---------------------------------------------------------------------------------------------
  // DR7 flags
  // ---------------------------------------------------------------------------------------------

  /** `Dr7Flags`: a set of control flags. Like any bitflags type of the crate it can be built
      from a word with bits that name no flag (`from_bits_retain`), so any word is a value here. */
  datatype Dr7Flags = Dr7Flags(bits: bv64)

  const LOCAL_EXACT_BREAKPOINT_ENABLE: bv64 := 1 << 8
  const GLOBAL_EXACT_BREAKPOINT_ENABLE: bv64 := 1 << 9
  const RESTRICTED_TRANSACTIONAL_MEMORY: bv64 := 1 << 11
  const GENERAL_DETECT_ENABLE: bv64 := 1 << 13
  /** The eight breakpoint enable bits 0..7. */
  const BREAKPOINT_ENABLES: bv64 := 0xff
  /** `Dr7Flags::all()`: every defined flag, bits 0..9, 11 and 13. */
  const DR7_ALL: bv64 := 0x2bff
  /** The bits that name no flag. */
  const NOT_DR7_ALL: bv64 := 0xffff_ffff_ffff_d400

  /** The flags name only defined bits. */
  predicate Known(f: Dr7Flags)
  {
    f.bits & NOT_DR7_ALL == 0
  }

  /** `Dr7Flags::local_breakpoint_enable`: bit `2n`. */
  function LocalEnable(n: RegisterNumber): (r: Dr7Flags)
    ensures r.bits == 1 << (2 * Num(n))
  {
    match n
    case Dr0 => Dr7Flags(1)
    case Dr1 => Dr7Flags(1 << 2)
    case Dr2 => Dr7Flags(1 << 4)
    case Dr3 => Dr7Flags(1 << 6)
  }

  /** `Dr7Flags::global_breakpoint_enable`: bit `2n + 1`. */
  function GlobalEnable(n: RegisterNumber): (r: Dr7Flags)
    ensures r.bits == 1 << (2 * Num(n) + 1)
  {
    match n
    case Dr0 => Dr7Flags(1 << 1)
    case Dr1 => Dr7Flags(1 << 3)
    case Dr2 => Dr7Flags(1 << 5)
    case Dr3 => Dr7Flags(1 << 7)
  }

  /** The enable flags are known flags, pairwise distinct bits, and together they are bits 0..7. */
  lemma EnablesPartition(n: RegisterNumber, m: RegisterNumber)
    ensures Known(LocalEnable(n)) && Known(GlobalEnable(n))
    ensures LocalEnable(n).bits & GlobalEnable(m).bits == 0
    ensures n != m ==> LocalEnable(n).bits & LocalEnable(m).bits == 0
    ensures n != m ==> GlobalEnable(n).bits & GlobalEnable(m).bits == 0
    ensures LocalEnable(Dr0).bits | GlobalEnable(Dr0).bits | LocalEnable(Dr1).bits
            | GlobalEnable(Dr1).bits | LocalEnable(Dr2).bits | GlobalEnable(Dr2).bits
            | LocalEnable(Dr3).bits | GlobalEnable(Dr3).bits == BREAKPOINT_ENABLES
  {
  }

  // ---------------------------------------------------------------------------------------------
  // Breakpoint conditions and sizes
  // ---------------------------------------------------------------------------------------------

  /** `BreakpointCondition`. */
  datatype BreakpointCondition = InstructionExecution | DataWrites | IoReadsWrites | DataReadsWrites

  /** `condition as u64`. */
  function ConditionBits(c: BreakpointCondition): (r: bv64)
    ensures r < 4
  {
    match c
    case InstructionExecution => 0
    case DataWrites => 1
    case IoReadsWrites => 2
    case DataReadsWrites => 3
  }

  /** `BreakpointCondition::from_bits`: the condition with code `b`, for `b` below 4. */
  function ConditionFromBits(b: bv64): (r: Option<BreakpointCondition>)
    ensures r.Some? <==> b < 4
    ensures r.Some? ==> ConditionBits(r.value) == b
  {
    if b == 0 then Some(InstructionExecution)
    else if b == 1 then Some(DataWrites)
    else if b == 2 then Some(IoReadsWrites)
    else if b == 3 then Some(DataReadsWrites)
    else None
  }

  /** A condition survives the trip through its code. */
  lemma ConditionRoundTrip(c: BreakpointCondition)
    ensures ConditionFromBits(ConditionBits(c)) == Some(c)
  {
  }

  /** `BreakpointSize`. */
  datatype BreakpointSize = Length1B | Length2B | Length8B | Length4B

  /** `size as u64`: note that 8 bytes is code 2 and 4 bytes code 3. */
  function SizeBits(s: BreakpointSize): (r: bv64)
    ensures r < 4
  {
    match s
    case Length1B => 0
    case Length2B => 1
    case Length8B => 2
    case Length4B => 3
  }

  /** `BreakpointSize::from_bits`: the size with code `b`, for `b` below 4. */
  function SizeFromBits(b: bv64): (r: Option<BreakpointSize>)
    ensures r.Some? <==> b < 4
    ensures r.Some? ==> SizeBits(r.value) == b
  {
    if b == 0 then Some(Length1B)
    else if b == 1 then Some(Length2B)
    else if b == 2 then Some(Length8B)
    else if b == 3 then Some(Length4B)
    else None
  }

  /** A size survives the trip through its code. */
  lemma SizeRoundTrip(s: BreakpointSize)
    ensures SizeFromBits(SizeBits(s)) == Some(s)
  {
  }

  /** The number of bytes a breakpoint of size `s` covers. */
  function SizeBytes(s: BreakpointSize): nat
  {
    match s
    case Length1B => 1
    case Length2B => 2
    case Length8B => 8
    case Length4B => 4
  }

  /** `BreakpointSize::new`: the size covering `size` bytes, for 1, 2, 4 and 8. */
  function NewSize(size: nat): (r: Option<BreakpointSize>)
    ensures r.Some? <==> size == 1 || size == 2 || size == 4 || size == 8
    ensures r.Some? ==> SizeBytes(r.value) == size
  {
    if size == 1 then Some(Length1B)
    else if size == 2 then Some(Length2B)
    else if size == 8 then Some(Length8B)
    else if size == 4 then Some(Length4B)
    else None
  }

  /** A size survives the trip through its byte count. */
  lemma SizeBytesRoundTrip(s: BreakpointSize)
    ensures NewSize(SizeBytes(s)) == Some(s)
  {
  }

  /** `BreakpointCondition::bit_range(n).start`: `16 + 4n`. */
  function ConditionLsb(n: RegisterNumber): (r: bv64)
    ensures r == 16 + 4 * Num(n)
  {
    match n
    case Dr0 => 16
    case Dr1 => 20
    case Dr2 => 24
    case Dr3 => 28
  }

  /** `BreakpointSize::bit_range(n).start`: `18 + 4n`. */
  function SizeLsb(n: RegisterNumber): (r: bv64)
    ensures r == 18 + 4 * Num(n)
  {
    match n
    case Dr0 => 18
    case Dr1 => 22
    case Dr2 => 26
    case Dr3 => 30
  }

  /** The two bits of the condition field of breakpoint `n`. */
  function ConditionMask(n: RegisterNumber): bv64
  {
    match n
    case Dr0 => 0x3_0000
    case Dr1 => 0x30_0000
    case Dr2 => 0x300_0000
    case Dr3 => 0x3000_0000
  }

  /** The two bits of the size field of breakpoint `n`. */
  function SizeMask(n: RegisterNumber): bv64
  {
    match n
    case Dr0 => 0xc_0000
    case Dr1 => 0xc0_0000
    case Dr2 => 0xc00_0000
    case Dr3 => 0xc000_0000
  }

  /** Each mask covers the two bits of `bit_range(n)`. */
  lemma MasksAtBitRange(n: RegisterNumber)
    ensures ConditionMask(n) == 3 << ConditionLsb(n)
    ensures SizeMask(n) == 3 << SizeLsb(n)
  {
    match n
    case Dr0 =>
    case Dr1 =>
    case Dr2 =>
    case Dr3 =>
  }

  /** `get_bits(BreakpointCondition::bit_range(n))`: the condition field of breakpoint `n`. */
  function ConditionField(b: bv64, n: RegisterNumber): (r: bv64)
    ensures r < 4
  {
    match n
    case Dr0 => (b >> 16) & 3
    case Dr1 => (b >> 20) & 3
    case Dr2 => (b >> 24) & 3
    case Dr3 => (b >> 28) & 3
  }

  /** `set_bits(BreakpointCondition::bit_range(n), x)`. */
  function WithConditionField(b: bv64, n: RegisterNumber, x: bv64): bv64
    requires x < 4
  {
    match n
    case Dr0 => (b & 0xffff_ffff_fffc_ffff) | (x << 16)
    case Dr1 => (b & 0xffff_ffff_ffcf_ffff) | (x << 20)
    case Dr2 => (b & 0xffff_ffff_fcff_ffff) | (x << 24)
    case Dr3 => (b & 0xffff_ffff_cfff_ffff) | (x << 28)
  }

  /** `get_bits(BreakpointSize::bit_range(n))`: the size field of breakpoint `n`. */
  function SizeField(b: bv64, n: RegisterNumber): (r: bv64)
    ensures r < 4
  {
    match n
    case Dr0 => (b >> 18) & 3
    case Dr1 => (b >> 22) & 3
    case Dr2 => (b >> 26) & 3
    case Dr3 => (b >> 30) & 3
  }

  /** `set_bits(BreakpointSize::bit_range(n), x)`. */
  function WithSizeField(b: bv64, n: RegisterNumber, x: bv64): bv64
    requires x < 4
  {
    match n
    case Dr0 => (b & 0xffff_ffff_fff3_ffff) | (x << 18)
    case Dr1 => (b & 0xffff_ffff_ff3f_ffff) | (x << 22)
    case Dr2 => (b & 0xffff_ffff_f3ff_ffff) | (x << 26)
    case Dr3 => (b & 0xffff_ffff_3fff_ffff) | (x << 30)
  }

  /** A value written into a condition field reads back. */
  lemma ConditionFieldWrites(b: bv64, n: RegisterNumber, x: bv64)
    requires x < 4
    ensures ConditionField(WithConditionField(b, n, x), n) == x
  {
    match n
    case Dr0 =>
    case Dr1 =>
    case Dr2 =>
    case Dr3 =>
  }

  /** Writing a condition field keeps every bit outside it. */
  lemma ConditionFieldKeeps(b: bv64, n: RegisterNumber, x: bv64)
    requires x < 4
    ensures SameOutside(WithConditionField(b, n, x), b, ConditionMask(n))
  {
    match n
    case Dr0 => ConditionFieldKeeps0(b, x);
    case Dr1 => ConditionFieldKeeps1(b, x);
    case Dr2 => ConditionFieldKeeps2(b, x);
    case Dr3 => ConditionFieldKeeps3(b, x);
  }

  /** ConditionFieldKeeps for breakpoint 0. */
  lemma ConditionFieldKeeps0(b: bv64, x: bv64)
    requires x < 4
    ensures SameOutside(WithConditionField(b, Dr0, x), b, ConditionMask(Dr0))
  {
  }

  /** ConditionFieldKeeps for breakpoint 1. */
  lemma ConditionFieldKeeps1(b: bv64, x: bv64)
    requires x < 4
    ensures SameOutside(WithConditionField(b, Dr1, x), b, ConditionMask(Dr1))
  {
  }

  /** ConditionFieldKeeps for breakpoint 2. */
  lemma ConditionFieldKeeps2(b: bv64, x: bv64)
    requires x < 4
    ensures SameOutside(WithConditionField(b, Dr2, x), b, ConditionMask(Dr2))
  {
  }

  /** ConditionFieldKeeps for breakpoint 3. */
  lemma ConditionFieldKeeps3(b: bv64, x: bv64)
    requires x < 4
    ensures SameOutside(WithConditionField(b, Dr3, x), b, ConditionMask(Dr3))
  {
  }

  /** A value written into a size field reads back. */
  lemma SizeFieldWrites(b: bv64, n: RegisterNumber, x: bv64)
    requires x < 4
    ensures SizeField(WithSizeField(b, n, x), n) == x
  {
    match n
    case Dr0 =>
    case Dr1 =>
    case Dr2 =>
    case Dr3 =>
  }

  /** Writing a size field keeps every bit outside it. */
  lemma SizeFieldKeeps(b: bv64, n: RegisterNumber, x: bv64)
    requires x < 4
    ensures SameOutside(WithSizeField(b, n, x), b, SizeMask(n))
  {
    match n
    case Dr0 => SizeFieldKeeps0(b, x);
    case Dr1 => SizeFieldKeeps1(b, x);
    case Dr2 => SizeFieldKeeps2(b, x);
    case Dr3 => SizeFieldKeeps3(b, x);
  }

  /** SizeFieldKeeps for breakpoint 0. */
  lemma SizeFieldKeeps0(b: bv64, x: bv64)
    requires x < 4
    ensures SameOutside(WithSizeField(b, Dr0, x), b, SizeMask(Dr0))
  {
  }

  /** SizeFieldKeeps for breakpoint 1. */
  lemma SizeFieldKeeps1(b: bv64, x: bv64)
    requires x < 4
    ensures SameOutside(WithSizeField(b, Dr1, x), b, SizeMask(Dr1))
  {
  }

  /** SizeFieldKeeps for breakpoint 2. */
  lemma SizeFieldKeeps2(b: bv64, x: bv64)
    requires x < 4
    ensures SameOutside(WithSizeField(b, Dr2, x), b, SizeMask(Dr2))
  {
  }

  /** SizeFieldKeeps for breakpoint 3. */
  lemma SizeFieldKeeps3(b: bv64, x: bv64)
    requires x < 4
    ensures SameOutside(WithSizeField(b, Dr3, x), b, SizeMask(Dr3))
  {
  }

  /** A condition field depends only on the bits of its mask. */
  lemma ConditionFieldOfMask(a: bv64, b: bv64, n: RegisterNumber)
    requires a & ConditionMask(n) == b & ConditionMask(n)
    ensures ConditionField(a, n) == ConditionField(b, n)
  {
    match n
    case Dr0 =>
    case Dr1 =>
    case Dr2 =>
    case Dr3 =>
  }

  /** A size field depends only on the bits of its mask. */
  lemma SizeFieldOfMask(a: bv64, b: bv64, n: RegisterNumber)
    requires a & SizeMask(n) == b & SizeMask(n)
    ensures SizeField(a, n) == SizeField(b, n)
  {
    match n
    case Dr0 =>
    case Dr1 =>
    case Dr2 =>
    case Dr3 =>
  }

  /** The eight fields are disjoint and together fill bits 16..31. */
  lemma FieldsPartition(n: RegisterNumber, m: RegisterNumber)
    ensures ConditionMask(n) & SizeMask(m) == 0
    ensures n != m ==> ConditionMask(n) & ConditionMask(m) == 0
    ensures n != m ==> SizeMask(n) & SizeMask(m) == 0
    ensures ConditionMask(Dr0) | SizeMask(Dr0) | ConditionMask(Dr1) | SizeMask(Dr1)
            | ConditionMask(Dr2) | SizeMask(Dr2) | ConditionMask(Dr3) | SizeMask(Dr3)
            == FIELD_BITS
  {
  }

  // ---------------------------------------------------------------------------------------------
  // DR7 values
  // ---------------------------------------------------------------------------------------------

  /** The condition and size fields, bits 16..31. */
  const FIELD_BITS: bv64 := 0xffff_0000
  /** `Dr7Value::valid_bits`: the fields and the defined flags. */
  const VALID_BITS: bv64 := 0xffff_2bff
  /** The reserved bits of DR7. */
  const NOT_VALID_BITS: bv64 := 0xffff_ffff_0000_d400

  /** The constants are the crate's expressions: `Dr7Flags::all()` is the union of the defined
      flags, the fields are `(1 << 32) - (1 << 16)`, the valid bits are the union of the two, and
      the complements are the bitwise negations. */
  lemma ConstantsAsWritten()
    ensures DR7_ALL == BREAKPOINT_ENABLES | LOCAL_EXACT_BREAKPOINT_ENABLE
              | GLOBAL_EXACT_BREAKPOINT_ENABLE | RESTRICTED_TRANSACTIONAL_MEMORY
              | GENERAL_DETECT_ENABLE
    ensures FIELD_BITS == (1 << 32) - (1 << 16) && FIELD_BITS & DR7_ALL == 0
    ensures VALID_BITS == FIELD_BITS | DR7_ALL
    ensures NOT_DR7_ALL == !DR7_ALL && NOT_VALID_BITS == !VALID_BITS
  {
  }

  /** `Dr7Value`: the flags and fields of DR7. */
  datatype Dr7Value = Dr7Value(bits: bv64)

  /** No bit outside the fields and the defined flags is set. */
  predicate Valid(v: Dr7Value)
  {
    v.bits & NOT_VALID_BITS == 0
  }

  /** The two words agree outside `mask`. */
  predicate SameOutside(a: bv64, b: bv64, mask: bv64)
  {
    a & !mask == b & !mask
  }

  /** The two words agree inside `mask`. */
  predicate SameInside(a: bv64, b: bv64, mask: bv64)
  {
    a & mask == b & mask
  }

  /** `Dr7Value::from_bits`: refuses a word with a bit outside the valid bits. */
  function FromBits(b: bv64): (r: Option<Dr7Value>)
    ensures r.Some? <==> b & NOT_VALID_BITS == 0
    ensures r.Some? ==> r.value.bits == b && Valid(r.value)
  {
    if b & NOT_VALID_BITS == 0 then Some(Dr7Value(b)) else None
  }

  /** `Dr7Value::from_bits_truncate`: drops the bits outside the valid bits. */
  function FromBitsTruncate(b: bv64): (r: Dr7Value)
    ensures Valid(r)
    ensures SameInside(r.bits, b, VALID_BITS)
  {
    TruncateIsValid(b);
    Dr7Value(b & VALID_BITS)
  }

  /** Masking with the valid bits gives a valid word that agrees with the input on them. */
  lemma TruncateIsValid(b: bv64)
    ensures (b & VALID_BITS) & NOT_VALID_BITS == 0
    ensures SameInside(b & VALID_BITS, b, VALID_BITS)
  {
  }

  /** Truncation agrees with `from_bits` wherever `from_bits` accepts, and always yields a word
      `from_bits` accepts. */
  lemma TruncateAgrees(b: bv64)
    ensures FromBits(b).Some? ==> FromBits(b).value == FromBitsTruncate(b)
    ensures FromBits(FromBitsTruncate(b).bits) == Some(FromBitsTruncate(b))
  {
    KeepValid(b);
  }

  /** A word with no bit outside the valid bits is unchanged by masking with them. */
  lemma KeepValid(b: bv64)
    ensures b & NOT_VALID_BITS == 0 ==> b & VALID_BITS == b
  {
  }

  /** `From<Dr7Flags> for Dr7Value`: the flags' bits, truncated to the valid ones. */
  function FromFlags(f: Dr7Flags): (r: Dr7Value)
    ensures Valid(r) && Flags(r) == Dr7Flags(f.bits & DR7_ALL)
  {
    FlagsOfTruncate(f.bits);
    FromBitsTruncate(f.bits)
  }

  /** The flags of a truncated word are the defined flags of the word. */
  lemma FlagsOfTruncate(b: bv64)
    ensures (b & VALID_BITS) & DR7_ALL == b & DR7_ALL
  {
  }

  /** `Dr7Value::flags`: the defined flags in the value. */
  function Flags(v: Dr7Value): (r: Dr7Flags)
    ensures Known(r)
  {
    KnownOfMask(v.bits);
    Dr7Flags(v.bits & DR7_ALL)
  }

  /** Masking with the defined flags leaves only defined flags. */
  lemma KnownOfMask(b: bv64)
    ensures (b & DR7_ALL) & NOT_DR7_ALL == 0
  {
  }

  /** Every bit of `m` is set in `a`. */
  predicate AllSet(a: bv64, m: bv64)
  {
    a & m == m
  }

  /** No bit of `m` is set in `a`. */
  predicate NoneSet(a: bv64, m: bv64)
  {
    a & m == 0
  }

  /** Inside `m`, `a` holds the flipped bits of `b`. */
  predicate Flipped(a: bv64, b: bv64, m: bv64)
  {
    a & m == !b & m
  }

  /** `Dr7Value::insert_flags` as written: `bits |= flags.bits()`. Every bit of `f` becomes
      set, whether or not it names a flag, and every other bit is kept. */
  function InsertFlagsAsWritten(v: Dr7Value, f: Dr7Flags): (r: Dr7Value)
    ensures AllSet(r.bits, f.bits) && SameOutside(r.bits, v.bits, f.bits)
  {
    OrSets(v.bits, f.bits);
    Dr7Value(v.bits | f.bits)
  }

  /** Or-ing sets the bits of `m` and keeps the rest. */
  lemma OrSets(a: bv64, m: bv64)
    ensures AllSet(a | m, m) && SameOutside(a | m, a, m)
  {
  }

  /** `Dr7Value::toggle_flags` as written: `bits ^= flags.bits()`. Every bit of `f` is flipped,
      whether or not it names a flag, and every other bit is kept. */
  function ToggleFlagsAsWritten(v: Dr7Value, f: Dr7Flags): (r: Dr7Value)
    ensures Flipped(r.bits, v.bits, f.bits) && SameOutside(r.bits, v.bits, f.bits)
  {
    XorFlips(v.bits, f.bits);
    Dr7Value(v.bits ^ f.bits)
  }

  /** Xor-ing flips the bits of `m` and keeps the rest. */
  lemma XorFlips(a: bv64, m: bv64)
    ensures Flipped(a ^ m, a, m) && SameOutside(a ^ m, a, m)
  {
  }

  /** A flag set holding a bit that names no flag, such as `from_bits_retain` builds, makes the
      written `insert_flags` and `toggle_flags` leave a value that is not valid, and `Dr7::write`
      then stores that bit in a reserved position of DR7 that held zero. */
  lemma RetainedFlagBreaksValue()
    ensures Valid(Dr7Value(0)) && !Known(Dr7Flags(1 << 40))
    ensures !Valid(InsertFlagsAsWritten(Dr7Value(0), Dr7Flags(1 << 40)))
    ensures !Valid(ToggleFlagsAsWritten(Dr7Value(0), Dr7Flags(1 << 40)))
    ensures Write(0, InsertFlagsAsWritten(Dr7Value(0), Dr7Flags(1 << 40))) & NOT_VALID_BITS != 0
  {
  }

  /** `Dr7Value::insert_flags` on the defined flags of `f`, the reading the `From<Dr7Flags>`
      conversion gives flags: they become set, every other bit is kept, and a valid value stays
      valid. */
  function InsertFlags(v: Dr7Value, f: Dr7Flags): (r: Dr7Value)
    ensures AllSet(r.bits, f.bits & DR7_ALL)
    ensures SameOutside(r.bits, v.bits, f.bits & DR7_ALL)
    ensures Valid(v) ==> Valid(r)
  {
    OrKeepsValid(v.bits, f.bits);
    InsertFlagsAsWritten(v, Dr7Flags(f.bits & DR7_ALL))
  }

  /** Or-ing defined flags into a valid word keeps it valid. */
  lemma OrKeepsValid(a: bv64, b: bv64)
    ensures a & NOT_VALID_BITS == 0 ==> (a | (b & DR7_ALL)) & NOT_VALID_BITS == 0
  {
  }

  /** On flags that name only defined bits, the corrected and the written insert agree. */
  lemma InsertFlagsAgrees(v: Dr7Value, f: Dr7Flags)
    requires Known(f)
    ensures InsertFlags(v, f) == InsertFlagsAsWritten(v, f)
  {
    MaskKnown(f.bits);
  }

  /** Defined flags are unchanged by masking with the defined flags. */
  lemma MaskKnown(b: bv64)
    ensures b & NOT_DR7_ALL == 0 ==> b & DR7_ALL == b
  {
  }

  /** `Dr7Value::remove_flags`: `bits &= !flags.bits()`. The flags are cleared, every other bit
      kept, and a valid value stays valid whatever the flags hold. */
  function RemoveFlags(v: Dr7Value, f: Dr7Flags): (r: Dr7Value)
    ensures Valid(v) ==> Valid(r)
  {
    AndNotKeepsValid(v.bits, f.bits);
    Dr7Value(v.bits & !f.bits)
  }

  /** After `remove_flags` none of the flags is set. */
  lemma RemoveFlagsClears(v: Dr7Value, f: Dr7Flags)
    ensures NoneSet(RemoveFlags(v, f).bits, f.bits)
  {
    AndNotClears(v.bits, f.bits);
  }

  /** `remove_flags` keeps every bit outside the flags. */
  lemma RemoveFlagsKeeps(v: Dr7Value, f: Dr7Flags)
    ensures SameOutside(RemoveFlags(v, f).bits, v.bits, f.bits)
  {
    AndNotKeeps(v.bits, f.bits);
  }

  /** Masking with `!m` clears the bits of `m`. */
  lemma AndNotClears(a: bv64, m: bv64)
    ensures NoneSet(a & !m, m)
  {
  }

  /** Masking with `!m` keeps the bits outside `m`. */
  lemma AndNotKeeps(a: bv64, m: bv64)
    ensures SameOutside(a & !m, a, m)
  {
  }

  /** Clearing bits keeps a valid word valid. */
  lemma AndNotKeepsValid(a: bv64, m: bv64)
    ensures a & NOT_VALID_BITS == 0 ==> (a & !m) & NOT_VALID_BITS == 0
  {
  }

  /** `Dr7Value::toggle_flags` on the defined flags of `f`: they are flipped, every other bit
      kept, and a valid value stays valid. */
  function ToggleFlags(v: Dr7Value, f: Dr7Flags): (r: Dr7Value)
    ensures Flipped(r.bits, v.bits, f.bits & DR7_ALL)
    ensures SameOutside(r.bits, v.bits, f.bits & DR7_ALL)
    ensures Valid(v) ==> Valid(r)
  {
    XorKeepsValid(v.bits, f.bits);
    ToggleFlagsAsWritten(v, Dr7Flags(f.bits & DR7_ALL))
  }

  /** Flipping defined flags keeps a valid word valid. */
  lemma XorKeepsValid(a: bv64, b: bv64)
    ensures a & NOT_VALID_BITS == 0 ==> (a ^ (b & DR7_ALL)) & NOT_VALID_BITS == 0
  {
  }

  /** On flags that name only defined bits, the corrected and the written toggle agree. */
  lemma ToggleFlagsAgrees(v: Dr7Value, f: Dr7Flags)
    requires Known(f)
    ensures ToggleFlags(v, f) == ToggleFlagsAsWritten(v, f)
  {
    MaskKnown(f.bits);
  }

  /** Toggling the same flags twice changes nothing. */
  lemma ToggleTwice(v: Dr7Value, f: Dr7Flags)
    ensures ToggleFlags(ToggleFlags(v, f), f) == v
  {
    XorTwice(v.bits, f.bits & DR7_ALL);
  }

  /** Xor with the same word twice is the identity. */
  lemma XorTwice(a: bv64, m: bv64)
    ensures (a ^ m) ^ m == a
  {
  }

  /** `Dr7Value::set_flags`: insert when `value` holds, remove otherwise. Afterwards each
      defined flag of `f` is set exactly when `value` holds, and a valid value stays valid. */
  function SetFlags(v: Dr7Value, f: Dr7Flags, value: bool): (r: Dr7Value)
    ensures Valid(v) ==> Valid(r)
    ensures value ==> AllSet(r.bits, f.bits & DR7_ALL)
    ensures !value ==> NoneSet(r.bits, f.bits)
  {
    if value then InsertFlags(v, f) else RemoveFlags(v, f)
  }

  /** `Dr7Value::condition`: the condition field of breakpoint `n`. The crate's `expect` never
      fires: a two-bit field always names a condition. */
  function Condition(v: Dr7Value, n: RegisterNumber): (c: BreakpointCondition)
    ensures ConditionBits(c) == ConditionField(v.bits, n)
  {
    ConditionFromBits(ConditionField(v.bits, n)).value
  }

  /** `Dr7Value::set_condition`: the condition field of breakpoint `n` becomes `c`; every other
      bit is kept. */
  function SetCondition(v: Dr7Value, n: RegisterNumber, c: BreakpointCondition): (r: Dr7Value)
    ensures Condition(r, n) == c
    ensures SameOutside(r.bits, v.bits, ConditionMask(n))
  {
    var r := Dr7Value(WithConditionField(v.bits, n, ConditionBits(c)));
    ConditionFieldWrites(v.bits, n, ConditionBits(c));
    ConditionFieldKeeps(v.bits, n, ConditionBits(c));
    ConditionFromBitsUnique(Condition(r, n), c);
    r
  }

  /** `Dr7Value::size`: the size field of breakpoint `n`; the `expect` never fires. */
  function Size(v: Dr7Value, n: RegisterNumber): (s: BreakpointSize)
    ensures SizeBits(s) == SizeField(v.bits, n)
  {
    SizeFromBits(SizeField(v.bits, n)).value
  }

  /** `Dr7Value::set_size`: the size field of breakpoint `n` becomes `s`; every other bit is
      kept. */
  function SetSize(v: Dr7Value, n: RegisterNumber, s: BreakpointSize): (r: Dr7Value)
    ensures Size(r, n) == s
    ensures SameOutside(r.bits, v.bits, SizeMask(n))
  {
    var r := Dr7Value(WithSizeField(v.bits, n, SizeBits(s)));
    SizeFieldWrites(v.bits, n, SizeBits(s));
    SizeFieldKeeps(v.bits, n, SizeBits(s));
    SizeFromBitsUnique(Size(r, n), s);
    r
  }

  /** Words that agree outside `mask` agree on any bits `mask` does not cover. */
  lemma OutsideKeeps(a: bv64, b: bv64, mask: bv64, other: bv64)
    ensures SameOutside(a, b, mask) && mask & other == 0 ==> a & other == b & other
  {
  }

  /** Setting a condition leaves the flags. */
  lemma SetConditionKeepsFlags(v: Dr7Value, n: RegisterNumber, c: BreakpointCondition)
    ensures Flags(SetCondition(v, n, c)) == Flags(v)
  {
    ConditionFieldKeepsBits(v.bits, n, ConditionBits(c), DR7_ALL);
  }

  /** Setting a condition keeps a valid value valid, and an invalid one invalid. */
  lemma SetConditionKeepsValid(v: Dr7Value, n: RegisterNumber, c: BreakpointCondition)
    ensures Valid(SetCondition(v, n, c)) <==> Valid(v)
  {
    ConditionFieldKeepsBits(v.bits, n, ConditionBits(c), NOT_VALID_BITS);
  }

  /** Setting a condition leaves every size field. */
  lemma SetConditionKeepsSizes(v: Dr7Value, n: RegisterNumber, c: BreakpointCondition, m: RegisterNumber)
    ensures Size(SetCondition(v, n, c), m) == Size(v, m)
  {
    ConditionFieldKeepsSizeField(v.bits, n, ConditionBits(c), m);
    SizeFromBitsUnique(Size(SetCondition(v, n, c), m), Size(v, m));
  }

  /** Setting a condition leaves the condition of every other breakpoint. */
  lemma SetConditionKeepsConditions(v: Dr7Value, n: RegisterNumber, c: BreakpointCondition, m: RegisterNumber)
    requires m != n
    ensures Condition(SetCondition(v, n, c), m) == Condition(v, m)
  {
    ConditionFieldKeepsOther(v.bits, n, ConditionBits(c), m);
    ConditionFromBitsUnique(Condition(SetCondition(v, n, c), m), Condition(v, m));
  }

  /** Writing the condition field of `n` keeps the bits of any mask clear of that field. */
  lemma ConditionFieldKeepsBits(b: bv64, n: RegisterNumber, x: bv64, other: bv64)
    requires x < 4
    requires other == DR7_ALL || other == NOT_VALID_BITS
    ensures WithConditionField(b, n, x) & other == b & other
  {
    ConditionFieldKeeps(b, n, x);
    if other == DR7_ALL {
      ConditionClearOfFlags(n);
    } else {
      ConditionClearOfReserved(n);
    }
    OutsideKeeps(WithConditionField(b, n, x), b, ConditionMask(n), other);
  }

  /** Writing the condition field of `n` keeps every size field. */
  lemma ConditionFieldKeepsSizeField(b: bv64, n: RegisterNumber, x: bv64, m: RegisterNumber)
    requires x < 4
    ensures SizeField(WithConditionField(b, n, x), m) == SizeField(b, m)
  {
    ConditionFieldKeepsSizeMask(b, n, x, m);
    SizeFieldOfMask(WithConditionField(b, n, x), b, m);
  }

  /** Writing the condition field of `n` keeps the bits of every size field. */
  lemma ConditionFieldKeepsSizeMask(b: bv64, n: RegisterNumber, x: bv64, m: RegisterNumber)
    requires x < 4
    ensures WithConditionField(b, n, x) & SizeMask(m) == b & SizeMask(m)
  {
    ConditionFieldKeeps(b, n, x);
    ConditionSizeDisjoint(n, m);
    OutsideKeeps(WithConditionField(b, n, x), b, ConditionMask(n), SizeMask(m));
  }

  /** Writing the condition field of `n` keeps the condition field of every other breakpoint. */
  lemma ConditionFieldKeepsOther(b: bv64, n: RegisterNumber, x: bv64, m: RegisterNumber)
    requires x < 4 && m != n
    ensures ConditionField(WithConditionField(b, n, x), m) == ConditionField(b, m)
  {
    ConditionFieldKeepsOtherMask(b, n, x, m);
    ConditionFieldOfMask(WithConditionField(b, n, x), b, m);
  }

  /** Writing the condition field of `n` keeps the bits of the condition field of every other breakpoint. */
  lemma ConditionFieldKeepsOtherMask(b: bv64, n: RegisterNumber, x: bv64, m: RegisterNumber)
    requires x < 4 && m != n
    ensures WithConditionField(b, n, x) & ConditionMask(m) == b & ConditionMask(m)
  {
    ConditionFieldKeeps(b, n, x);
    ConditionsDisjoint(n, m);
    OutsideKeeps(WithConditionField(b, n, x), b, ConditionMask(n), ConditionMask(m));
  }

  /** The condition fields are clear of the flags. */
  lemma ConditionClearOfFlags(n: RegisterNumber)
    ensures ConditionMask(n) & DR7_ALL == 0
  {
  }

  /** The condition fields are clear of the reserved bits. */
  lemma ConditionClearOfReserved(n: RegisterNumber)
    ensures ConditionMask(n) & NOT_VALID_BITS == 0
  {
  }

  /** The condition fields of two breakpoints are disjoint. */
  lemma ConditionsDisjoint(n: RegisterNumber, m: RegisterNumber)
    ensures n != m ==> ConditionMask(n) & ConditionMask(m) == 0
  {
  }

  /** Setting a size leaves the flags. */
  lemma SetSizeKeepsFlags(v: Dr7Value, n: RegisterNumber, s: BreakpointSize)
    ensures Flags(SetSize(v, n, s)) == Flags(v)
  {
    SizeFieldKeepsBits(v.bits, n, SizeBits(s), DR7_ALL);
  }

  /** Setting a size keeps a valid value valid, and an invalid one invalid. */
  lemma SetSizeKeepsValid(v: Dr7Value, n: RegisterNumber, s: BreakpointSize)
    ensures Valid(SetSize(v, n, s)) <==> Valid(v)
  {
    SizeFieldKeepsBits(v.bits, n, SizeBits(s), NOT_VALID_BITS);
  }

  /** Setting a size leaves every condition field. */
  lemma SetSizeKeepsConditions(v: Dr7Value, n: RegisterNumber, s: BreakpointSize, m: RegisterNumber)
    ensures Condition(SetSize(v, n, s), m) == Condition(v, m)
  {
    SizeFieldKeepsConditionField(v.bits, n, SizeBits(s), m);
    ConditionFromBitsUnique(Condition(SetSize(v, n, s), m), Condition(v, m));
  }

  /** Setting a size leaves the size of every other breakpoint. */
  lemma SetSizeKeepsSizes(v: Dr7Value, n: RegisterNumber, s: BreakpointSize, m: RegisterNumber)
    requires m != n
    ensures Size(SetSize(v, n, s), m) == Size(v, m)
  {
    SizeFieldKeepsOther(v.bits, n, SizeBits(s), m);
    SizeFromBitsUnique(Size(SetSize(v, n, s), m), Size(v, m));
  }

  /** Writing the size field of `n` keeps the bits of any mask clear of that field. */
  lemma SizeFieldKeepsBits(b: bv64, n: RegisterNumber, x: bv64, other: bv64)
    requires x < 4
    requires other == DR7_ALL || other == NOT_VALID_BITS
    ensures WithSizeField(b, n, x) & other == b & other
  {
    SizeFieldKeeps(b, n, x);
    if other == DR7_ALL {
      SizeClearOfFlags(n);
    } else {
      SizeClearOfReserved(n);
    }
    OutsideKeeps(WithSizeField(b, n, x), b, SizeMask(n), other);
  }

  /** Writing the size field of `n` keeps every condition field. */
  lemma SizeFieldKeepsConditionField(b: bv64, n: RegisterNumber, x: bv64, m: RegisterNumber)
    requires x < 4
    ensures ConditionField(WithSizeField(b, n, x), m) == ConditionField(b, m)
  {
    SizeFieldKeepsConditionMask(b, n, x, m);
    ConditionFieldOfMask(WithSizeField(b, n, x), b, m);
  }

  /** Writing the size field of `n` keeps the bits of every condition field. */
  lemma SizeFieldKeepsConditionMask(b: bv64, n: RegisterNumber, x: bv64, m: RegisterNumber)
    requires x < 4
    ensures WithSizeField(b, n, x) & ConditionMask(m) == b & ConditionMask(m)
  {
    SizeFieldKeeps(b, n, x);
    SizeConditionDisjoint(n, m);
    OutsideKeeps(WithSizeField(b, n, x), b, SizeMask(n), ConditionMask(m));
  }

  /** Writing the size field of `n` keeps the size field of every other breakpoint. */
  lemma SizeFieldKeepsOther(b: bv64, n: RegisterNumber, x: bv64, m: RegisterNumber)
    requires x < 4 && m != n
    ensures SizeField(WithSizeField(b, n, x), m) == SizeField(b, m)
  {
    SizeFieldKeepsOtherMask(b, n, x, m);
    SizeFieldOfMask(WithSizeField(b, n, x), b, m);
  }

  /** Writing the size field of `n` keeps the bits of the size field of every other breakpoint. */
  lemma SizeFieldKeepsOtherMask(b: bv64, n: RegisterNumber, x: bv64, m: RegisterNumber)
    requires x < 4 && m != n
    ensures WithSizeField(b, n, x) & SizeMask(m) == b & SizeMask(m)
  {
    SizeFieldKeeps(b, n, x);
    SizesDisjoint(n, m);
    OutsideKeeps(WithSizeField(b, n, x), b, SizeMask(n), SizeMask(m));
  }

  /** The size fields are clear of the flags. */
  lemma SizeClearOfFlags(n: RegisterNumber)
    ensures SizeMask(n) & DR7_ALL == 0
  {
  }

  /** The size fields are clear of the reserved bits. */
  lemma SizeClearOfReserved(n: RegisterNumber)
    ensures SizeMask(n) & NOT_VALID_BITS == 0
  {
  }

  /** The size fields of two breakpoints are disjoint. */
  lemma SizesDisjoint(n: RegisterNumber, m: RegisterNumber)
    ensures n != m ==> SizeMask(n) & SizeMask(m) == 0
  {
  }

  /** Condition and size fields never overlap. */
  lemma ConditionSizeDisjoint(n: RegisterNumber, m: RegisterNumber)
    ensures ConditionMask(n) & SizeMask(m) == 0
  {
  }

  /** Size and condition fields never overlap. */
  lemma SizeConditionDisjoint(n: RegisterNumber, m: RegisterNumber)
    ensures SizeMask(n) & ConditionMask(m) == 0
  {
  }

  /** Conditions with the same code are equal. */
  lemma ConditionFromBitsUnique(c: BreakpointCondition, d: BreakpointCondition)
    ensures ConditionBits(c) == ConditionBits(d) ==> c == d
  {
  }

  /** Sizes with the same code are equal. */
  lemma SizeFromBitsUnique(s: BreakpointSize, t: BreakpointSize)
    ensures SizeBits(s) == SizeBits(t) ==> s == t
  {
  }

  // ---------------------------------------------------------------------------------------------
  // Writing DR7
  // ---------------------------------------------------------------------------------------------

  /** `Dr7::write`: the word stored in DR7 when it held `prior`: the reserved bits of `prior` with the
      value's bits. */
  function Write(prior: bv64, value: Dr7Value): (r: bv64)
    ensures Valid(value) ==> SameInside(r, prior, NOT_VALID_BITS)
    ensures Valid(value) ==> SameInside(r, value.bits, VALID_BITS)
  {
    WriteKeepsReserved(prior, value.bits);
    WriteStoresValue(prior, value.bits);
    (prior & NOT_VALID_BITS) | value.bits
  }

  /** A valid value leaves the reserved bits of the register as they were. */
  lemma WriteKeepsReserved(prior: bv64, b: bv64)
    ensures b & NOT_VALID_BITS == 0 ==>
              SameInside((prior & NOT_VALID_BITS) | b, prior, NOT_VALID_BITS)
  {
  }

  /** The valid bits of the register become the value's. */
  lemma WriteStoresValue(prior: bv64, b: bv64)
    ensures SameInside((prior & NOT_VALID_BITS) | b, b, VALID_BITS)
  {
  }

  /** `Dr7::read` after `Dr7::write` returns the written value: `read` truncates to the valid
      bits, which the write fills from the value. */
  lemma WriteThenRead(prior: bv64, value: Dr7Value)
    requires Valid(value)
    ensures FromBitsTruncate(Write(prior, value)) == value
  {
    var r := Write(prior, value);
    KeepValid(value.bits);
    assert r & VALID_BITS == value.bits & VALID_BITS;
  }
}
