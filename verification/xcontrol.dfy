/** The extended feature enable register XCR0 (`src/registers/xcontrol.rs`): its flags, the
    combinations `XCr0::write` refuses, and the word it stores, which keeps the register's reserved
    bits. Register words are `bv64`. */
module XControl {
  import opened Wrappers

  /** `XCr0Flags`: a set of XCR0 flags. Like any bitflags type of the crate it can hold bits that
      name no flag (`from_bits_retain`), so any word is a value here. */
  datatype XCr0Flags = XCr0Flags(bits: bv64)

  const X87: bv64 := 1
  const SSE: bv64 := 1 << 1
  /** `AVX`, also named `YMM`. */
  const AVX: bv64 := 1 << 2
  const BNDREG: bv64 := 1 << 3
  const BNDCSR: bv64 := 1 << 4
  const OPMASK: bv64 := 1 << 5
  const ZMM_HI256: bv64 := 1 << 6
  const HI16_ZMM: bv64 := 1 << 7
  const MPK: bv64 := 1 << 9
  const LWP: bv64 := 1 << 62
  /** The two MPX flags. */
  const MPX: bv64 := 0x18
  /** The three AVX-512 flags. */
  const AVX512: bv64 := 0xe0
  /** `XCr0Flags::all()`. */
  const XCR0_ALL: bv64 := 0x4000_0000_0000_02ff
  /** The reserved bits: every bit that names no flag. */
  const XCR0_RESERVED: bv64 := 0xbfff_ffff_ffff_fd00

  /** The group constants are the crate's unions, and the reserved bits are `!all()`. */
  lemma ConstantsAsWritten()
    ensures MPX == BNDREG | BNDCSR
    ensures AVX512 == OPMASK | ZMM_HI256 | HI16_ZMM
    ensures XCR0_ALL == X87 | SSE | AVX | BNDREG | BNDCSR | OPMASK | ZMM_HI256 | HI16_ZMM | MPK | LWP
    ensures XCR0_RESERVED == !XCR0_ALL
  {
  }

  /** `flags.contains(m)`: every bit of `m` is set. */
  predicate Contains(f: XCr0Flags, m: bv64)
  {
    f.bits & m == m
  }

  /** `flags.intersects(m)`: some bit of `m` is set. */
  predicate Intersects(f: XCr0Flags, m: bv64)
  {
    f.bits & m != 0
  }

  /** The flags name only defined bits. */
  predicate Known(f: XCr0Flags)
  {
    f.bits & XCR0_RESERVED == 0
  }

  /** The assertion of `XCr0::write` that fails first. */
  datatype XCr0Panic =
    | X87NotSet             // "The X87 flag must be set"
    | AvxWithoutSse         // "AVX cannot be enabled without enabling SSE"
    | MpxSplit              // "MPX flags ... must be set and unset together"
    | Avx512WithoutAvx      // "AVX-512 cannot be enabled without enabling AVX"
    | Avx512Split           // "AVX-512 flags ... must be set and unset together"

  /** The combinations the processor accepts, flag by flag: x87 state is always enabled, AVX
      needs SSE, the two MPX flags go together, and the three AVX-512 flags go together and need
      AVX. */
  predicate Consistent(f: XCr0Flags)
  {
    && f.bits & X87 != 0
    && (f.bits & AVX != 0 ==> f.bits & SSE != 0)
    && (f.bits & BNDREG != 0 <==> f.bits & BNDCSR != 0)
    && (f.bits & OPMASK != 0 <==> f.bits & ZMM_HI256 != 0)
    && (f.bits & OPMASK != 0 <==> f.bits & HI16_ZMM != 0)
    && (f.bits & OPMASK != 0 ==> f.bits & AVX != 0)
  }

  /** The checks of `XCr0::write`, in the crate's order: the first that fails, if any. */
  function CheckFlags(f: XCr0Flags): (r: Option<XCr0Panic>)
    ensures r.None? <==> Consistent(f)
  {
    FlagBits(f.bits);
    if !Contains(f, X87) then Some(X87NotSet)
    else if Contains(f, AVX) && !Contains(f, SSE) then Some(AvxWithoutSse)
    else if Intersects(f, MPX) && !Contains(f, MPX) then Some(MpxSplit)
    else if Intersects(f, AVX512) && !Contains(f, AVX) then Some(Avx512WithoutAvx)
    else if Intersects(f, AVX512) && !Contains(f, AVX512) then Some(Avx512Split)
    else None
  }

  /** The group tests of the crate in terms of single bits. */
  lemma FlagBits(b: bv64)
    ensures (b & X87 == X87) == (b & X87 != 0)
    ensures (b & AVX == AVX) == (b & AVX != 0)
    ensures (b & SSE == SSE) == (b & SSE != 0)
    ensures (b & MPX != 0) == (b & BNDREG != 0 || b & BNDCSR != 0)
    ensures (b & MPX == MPX) == (b & BNDREG != 0 && b & BNDCSR != 0)
    ensures (b & AVX512 != 0) == (b & OPMASK != 0 || b & ZMM_HI256 != 0 || b & HI16_ZMM != 0)
    ensures (b & AVX512 == AVX512) == (b & OPMASK != 0 && b & ZMM_HI256 != 0 && b & HI16_ZMM != 0)
  {
    SingleBit(b, X87);
    SingleBit(b, AVX);
    SingleBit(b, SSE);
    MpxBits(b);
    Avx512Bits(b);
  }

  /** For a one-bit mask, containing and intersecting coincide. */
  lemma SingleBit(b: bv64, m: bv64)
    ensures m == X87 || m == SSE || m == AVX ==> ((b & m == m) == (b & m != 0))
  {
  }

  /** The MPX group tests in terms of its two bits. */
  lemma MpxBits(b: bv64)
    ensures (b & MPX != 0) == (b & BNDREG != 0 || b & BNDCSR != 0)
    ensures (b & MPX == MPX) == (b & BNDREG != 0 && b & BNDCSR != 0)
  {
  }

  /** The AVX-512 group tests in terms of its three bits. */
  lemma Avx512Bits(b: bv64)
    ensures (b & AVX512 != 0) == (b & OPMASK != 0 || b & ZMM_HI256 != 0 || b & HI16_ZMM != 0)
    ensures (b & AVX512 == AVX512) == (b & OPMASK != 0 && b & ZMM_HI256 != 0 && b & HI16_ZMM != 0)
  {
  }

  /** `XCr0::write` on a register that held `prior`: the checks, then the reserved bits of
      `prior` merged with the flags' bits. On known flags the reserved bits are kept and the flag
      bits become the flags. */
  function Write(prior: bv64, f: XCr0Flags): (r: Result<bv64, XCr0Panic>)
    ensures r.Err? <==> !Consistent(f)
    ensures r.Err? ==> Some(r.error) == CheckFlags(f)
    ensures r.Ok? && Known(f) ==> r.value & XCR0_RESERVED == prior & XCR0_RESERVED
    ensures r.Ok? ==> r.value & XCR0_ALL == f.bits & XCR0_ALL
  {
    var stored := (prior & XCR0_RESERVED) | f.bits;
    MergeKeepsReserved(prior, f.bits);
    MergeStoresFlags(prior, f.bits);
    match CheckFlags(f)
    case Some(p) => Err(p)
    case None => Ok(stored)
  }

  /** Known flags leave the reserved bits of the register as they were. */
  lemma MergeKeepsReserved(prior: bv64, b: bv64)
    ensures b & XCR0_RESERVED == 0 ==>
              ((prior & XCR0_RESERVED) | b) & XCR0_RESERVED == prior & XCR0_RESERVED
  {
  }

  /** The flag bits of the register become the flags'. */
  lemma MergeStoresFlags(prior: bv64, b: bv64)
    ensures ((prior & XCR0_RESERVED) | b) & XCR0_ALL == b & XCR0_ALL
  {
  }

  /** `XCr0::read`: the register's word truncated to the defined flags. */
  function Read(raw: bv64): (f: XCr0Flags)
    ensures Known(f)
    ensures f.bits & XCR0_ALL == raw & XCR0_ALL
  {
    TruncateKnown(raw);
    XCr0Flags(raw & XCR0_ALL)
  }

  /** Truncating to the defined flags leaves only defined flags, the same ones. */
  lemma TruncateKnown(b: bv64)
    ensures (b & XCR0_ALL) & XCR0_RESERVED == 0
    ensures (b & XCR0_ALL) & XCR0_ALL == b & XCR0_ALL
  {
  }

  /** Reading the register after a successful write of known flags gives the flags back. */
  lemma WriteThenRead(prior: bv64, f: XCr0Flags)
    requires Known(f) && Write(prior, f).Ok?
    ensures Read(Write(prior, f).value) == f
  {
    KnownIsAll(f.bits);
  }

  /** Known flags are unchanged by masking with the defined flags. */
  lemma KnownIsAll(b: bv64)
    ensures b & XCR0_RESERVED == 0 ==> b & XCR0_ALL == b
  {
  }

  /** The minimal configuration, x87 alone, and the usual AVX configuration are accepted; AVX
      without SSE and a lone AVX-512 flag are refused with the crate's messages. */
  lemma ChecksOnExamples()
    ensures Write(0, XCr0Flags(X87)).Ok?
    ensures Write(0, XCr0Flags(X87 | SSE | AVX)).Ok?
    ensures Write(0, XCr0Flags(SSE)) == Err(X87NotSet)
    ensures Write(0, XCr0Flags(X87 | AVX)) == Err(AvxWithoutSse)
    ensures Write(0, XCr0Flags(X87 | BNDREG)) == Err(MpxSplit)
    ensures Write(0, XCr0Flags(X87 | SSE | OPMASK)) == Err(Avx512WithoutAvx)
    ensures Write(0, XCr0Flags(X87 | SSE | AVX | OPMASK)) == Err(Avx512Split)
  {
  }
}
