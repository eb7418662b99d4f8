/** Virtual and physical addresses and the power-of-two alignment helpers (src/addr.rs).

    A virtual address is canonical when bits 48..63 are copies of bit 47, i.e. when it lies in
    the lower 2^47 bytes or the upper 2^47 bytes of the 64-bit space; a physical address is valid
    when bits 52..63 are zero. The crate's `VirtAddr` and `PhysAddr` promise these invariants, so
    the model makes them subset types. Where the crate builds a value that can break the
    invariant (`VirtAddr::align_up`, `VirtAddr::align_down`, `PhysAddr::align_up`), the model
    returns the raw `u64` the result would hold, and a corrected version beside it.

    The crate aligns with bit masks: for a power-of-two `align`, `addr & !(align - 1)` clears the
    low bits, which is the same number as `addr - addr % align`; the model uses the arithmetic
    form. */
module Addr {
  import opened Wrappers
  import opened Words
  import opened TableIndex

  const TWO_47: int := 0x8000_0000_0000
  const TWO_48: int := 0x1_0000_0000_0000
  const TWO_52: int := 0x10_0000_0000_0000
  const TWO_63: int := 0x8000_0000_0000_0000

  /** The first address of the upper canonical half, `0xffff_8000_0000_0000`. */
  const UPPER_HALF: int := U64_LIMIT - TWO_47

  /** Bits 47..63 are all zero or all one. */
  predicate IsCanonical(addr: u64)
  {
    addr < TWO_47 || addr >= UPPER_HALF
  }

  type VirtAddr = a: u64 | a < TWO_47 || a >= UPPER_HALF

  /** The error of `VirtAddr::try_new`: it carries bits 47..63 of the rejected value. */
  datatype VirtAddrNotValid = VirtAddrNotValid(bits: u64)

  /** The values `VirtAddr::try_new` accepts: bits 48..63 are either empty or already a correct
      sign extension of bit 47. */
  predicate VirtAccepts(addr: u64)
  {
    addr < TWO_48 || IsCanonical(addr)
  }

  /** `addr << 16` on a `u64`: the bits shifted past bit 63 are lost. */
  function ShiftLeft16(addr: u64): u64
  {
    (addr * 0x1_0000) % U64_LIMIT
  }

  /** `x as i64`: the two's-complement reading of the same 64 bits. */
  function AsI64(x: u64): int
  {
    if x < TWO_63 then x else x - U64_LIMIT
  }

  /** `x as u64` for an `i64`. */
  function AsU64(x: int): u64
    requires -TWO_63 <= x < TWO_63
  {
    if x < 0 then x + U64_LIMIT else x
  }

  /** `VirtAddr::new_truncate`: `((addr << 16) as i64 >> 16) as u64`, where the signed right shift
      is a division rounding towards minus infinity. The result keeps bits 0..47, is canonical, and
      leaves a canonical address alone. */
  function VirtNewTruncate(addr: u64): (r: VirtAddr)
    ensures r % TWO_48 == addr % TWO_48
    ensures IsCanonical(addr) ==> r == addr
  {
    ShiftsSignExtend(addr);
    if IsCanonical(addr) then
      CanonicalFromLow48(addr);
      AsU64(AsI64(ShiftLeft16(addr)) / 0x1_0000)
    else
      AsU64(AsI64(ShiftLeft16(addr)) / 0x1_0000)
  }

  /** The shift pair of `new_truncate` copies bit 47 into bits 48..63: it keeps bits 0..47 and
      adds `0xffff_0000_0000_0000` exactly when bit 47 is set. */
  lemma ShiftsSignExtend(addr: u64)
    ensures -TWO_63 <= AsI64(ShiftLeft16(addr)) / 0x1_0000 < TWO_63
    ensures AsU64(AsI64(ShiftLeft16(addr)) / 0x1_0000)
      == if addr % TWO_48 < TWO_47 then addr % TWO_48 else addr % TWO_48 + (U64_LIMIT - TWO_48)
  {
    var low := addr % TWO_48;
    assert addr == addr / TWO_48 * TWO_48 + low;
    DivModUnique(U64_LIMIT, addr / TWO_48, low * 0x1_0000, addr * 0x1_0000);
    assert ShiftLeft16(addr) == low * 0x1_0000;
    if low >= TWO_47 {
      DivModUnique(0x1_0000, low - TWO_48, 0, low * 0x1_0000 - U64_LIMIT);
    }
  }

  /** Sign-extending twice changes nothing. */
  lemma VirtNewTruncateIdempotent(addr: u64)
    ensures VirtNewTruncate(VirtNewTruncate(addr)) == VirtNewTruncate(addr)
  {
  }

  /** A canonical address is fixed by its bits 0..47: they are the address itself in the lower
      half, and the upper half adds bits 48..63. */
  lemma CanonicalFromLow48(x: VirtAddr)
    ensures x == if x % TWO_48 < TWO_47 then x % TWO_48 else x % TWO_48 + (U64_LIMIT - TWO_48)
  {
    if x >= UPPER_HALF {
      DivModUnique(TWO_48, 0xffff, x - 0xffff * TWO_48, x);
    }
  }

  /** Two values sign-extend to the same address exactly when they agree on bits 0..47. */
  lemma VirtNewTruncateLow48(a: u64, b: u64)
    ensures VirtNewTruncate(a) == VirtNewTruncate(b) <==> a % TWO_48 == b % TWO_48
  {
    CanonicalFromLow48(VirtNewTruncate(a));
    CanonicalFromLow48(VirtNewTruncate(b));
  }

  /** The unit tests of `new_truncate` (src/addr.rs:509-515). */
  lemma VirtNewTruncateExamples()
    ensures VirtNewTruncate(0) == 0
    ensures VirtNewTruncate(TWO_47) == 0xffff_8000_0000_0000
    ensures VirtNewTruncate(123) == 123
    ensures VirtNewTruncate((123 * TWO_47) % U64_LIMIT) == 0xffff_8000_0000_0000
  {
  }

  /** `VirtAddr::try_new`: matches on bits 47..63. It succeeds exactly on the values whose bits
      48..63 carry no data, and then agrees with `new_truncate`; a canonical value comes back
      unchanged; otherwise the error carries bits 47..63. */
  function VirtTryNew(addr: u64): (r: Result<VirtAddr, VirtAddrNotValid>)
    ensures r.Ok? <==> VirtAccepts(addr)
    ensures r.Ok? ==> r.value == VirtNewTruncate(addr)
    ensures IsCanonical(addr) ==> r == Ok(addr)
    ensures r.Err? ==> r.error.bits == addr / TWO_47
  {
    var bits := addr / TWO_47;
    if bits == 0 || bits == 0x1ffff then Ok(addr)
    else if bits == 1 then Ok(VirtNewTruncate(addr))
    else Err(VirtAddrNotValid(bits))
  }

  /** `VirtAddr::new`: the `expect` panics exactly when `try_new` fails. */
  function VirtNew(addr: u64): (r: VirtAddr)
    requires VirtAccepts(addr)
    ensures VirtTryNew(addr) == Ok(r)
    ensures r % TWO_48 == addr % TWO_48
  {
    VirtTryNew(addr).value
  }

  /** `align_down` on a raw `u64`: the largest multiple of `align` that is not above `addr`.
      `VirtAddr::align_down` as written stores exactly this value, without sign-extending it
      again. */
  function AlignDown(addr: u64, align: u64): (r: u64)
    requires IsPowerOfTwo(align)
    ensures r <= addr < r + align
    ensures r % align == 0
  {
    RemainderRemoved(addr, align);
    addr - addr % align
  }

  /** No multiple of `align` lies strictly between `AlignDown(addr, align)` and `addr`. */
  lemma AlignDownIsGreatest(addr: u64, align: u64, m: u64)
    requires IsPowerOfTwo(align) && m <= addr && m % align == 0
    ensures m <= AlignDown(addr, align)
  {
    var r := AlignDown(addr, align);
    if m > r {
      AlignedGap(r, m, align);
    }
  }

  /** The inputs on which `align_up` does not overflow: an aligned value, or one whose round-up
      stays below 2^64 (the `+ 1` panics otherwise in a debug build). */
  predicate AlignUpFits(addr: u64, align: u64)
    requires align > 0
  {
    addr % align == 0 || addr - addr % align + align < U64_LIMIT
  }

  /** `align_up`: `addr` itself when aligned, otherwise the next multiple of `align`, computed in
      `align_up` as `(addr | (align - 1)) + 1`. `VirtAddr::align_up` and `PhysAddr::align_up` as
      written store exactly this value, unchecked. */
  function AlignUp(addr: u64, align: u64): (r: u64)
    requires IsPowerOfTwo(align) && AlignUpFits(addr, align)
    ensures addr <= r < addr + align
    ensures r % align == 0
    ensures addr % align == 0 ==> r == addr
  {
    if addr % align == 0 then addr
    else
      MultipleModIsZero(align, addr / align + 1);
      addr - addr % align + align
  }

  /** No multiple of `align` lies between `addr` and `AlignUp(addr, align)`. */
  lemma AlignUpIsLeast(addr: u64, align: u64, m: u64)
    requires IsPowerOfTwo(align) && AlignUpFits(addr, align)
    requires addr <= m && m % align == 0
    ensures AlignUp(addr, align) <= m
  {
    if addr % align != 0 {
      var d := m / align - addr / align;
      assert m - (addr - addr % align) == align * d;
      MulAtLeast(align, d);
    }
  }

  /** The unit tests of the free `align_up` (src/addr.rs:517-532). */
  lemma AlignUpExamples()
    ensures IsPowerOfTwo(1) && IsPowerOfTwo(2) && IsPowerOfTwo(128) && IsPowerOfTwo(TWO_63)
    ensures AlignUp(0, 1) == 0 && AlignUp(1234, 1) == 1234
    ensures AlignUp(0xffff_ffff_ffff_ffff, 1) == 0xffff_ffff_ffff_ffff
    ensures AlignUp(0, 2) == 0 && AlignUp(1233, 2) == 1234
    ensures AlignUp(0xffff_ffff_ffff_fffe, 2) == 0xffff_ffff_ffff_fffe
    ensures AlignUp(0, 128) == 0 && AlignUp(0, TWO_63) == 0
  {
    assert Pow2(0) == 1 && Pow2(1) == 2 && Pow2(7) == 128;
    Pow2Values();
    Pow2Add(48, 15);
    assert Pow2(15) == 0x8000;
    assert Pow2(63) == TWO_63;
  }

  /** Adding a multiple of `align` keeps a value's remainder modulo `align`. */
  lemma ModAddMultiple(x: int, align: int, c: int)
    requires align > 0
    ensures (x + align * c) % align == x % align
  {
    DivModUnique(align, x / align + c, x % align, x + align * c);
  }

  /** For alignments up to 2^47 (every page size among them) the raw result stays canonical: an
      upper-half address cannot be aligned below the first upper-half address, which is itself a
      multiple of the alignment. */
  lemma VirtAlignDownKeepsCanonical(addr: VirtAddr, align: u64)
    requires IsPowerOfTwo(align) && align <= TWO_47
    ensures IsCanonical(AlignDown(addr, align))
  {
    if addr >= UPPER_HALF {
      Pow2Values();
      SmallerPowerDivides(align, 47);
      var c := TWO_47 / align;
      assert UPPER_HALF == align * (c * 0x1_ffff);
      MultipleModIsZero(align, c * 0x1_ffff);
      AlignDownIsGreatest(addr, align, UPPER_HALF);
    }
  }

  /** Above 2^47 it does not: aligning the first upper-half address down to 2^48 clears bit 47
      but keeps bits 48..63. */
  lemma VirtAlignDownLeavesCanonicalForm()
    ensures IsPowerOfTwo(TWO_48)
    ensures AlignDown(UPPER_HALF, TWO_48) == 0xffff_0000_0000_0000
    ensures !IsCanonical(AlignDown(UPPER_HALF, TWO_48))
  {
    Pow2Values();
  }

  /** `VirtAddr::align_down` as evidently intended: the aligned value sign-extended again, like
      every other `VirtAddr` constructor. It is the as-written value for every alignment up to
      2^47, and always a multiple of the alignment up to 2^48. */
  function VirtAlignDown(addr: VirtAddr, align: u64): (r: VirtAddr)
    requires IsPowerOfTwo(align)
    ensures align <= TWO_47 ==> r == AlignDown(addr, align)
    ensures align <= TWO_48 ==> r % align == 0
    ensures r % TWO_48 == AlignDown(addr, align) % TWO_48
  {
    var raw := AlignDown(addr, align);
    if align <= TWO_47 then
      VirtAlignDownKeepsCanonical(addr, align);
      VirtNewTruncate(raw)
    else
      if align <= TWO_48 then
        AlignedTruncateStaysAligned(raw, align);
        VirtNewTruncate(raw)
      else VirtNewTruncate(raw)
  }

  /** Sign extension adds a multiple of 2^48, so it keeps alignment up to 2^48. */
  lemma AlignedTruncateStaysAligned(x: u64, align: u64)
    requires IsPowerOfTwo(align) && align <= TWO_48 && x % align == 0
    ensures VirtNewTruncate(x) % align == 0
  {
    Pow2Values();
    SmallerPowerDivides(align, 48);
    var r := VirtNewTruncate(x);
    var c := TWO_48 / align;
    var k := r / TWO_48 - x / TWO_48;
    assert TWO_48 == align * c;
    assert r - x == TWO_48 * k by {
      assert r == TWO_48 * (r / TWO_48) + r % TWO_48;
      assert x == TWO_48 * (x / TWO_48) + x % TWO_48;
    }
    MulAssociates(align, c, k);
    ModAddMultiple(x, align, c * k);
  }

  /** Rounding the last lower-half address up to a 4 KiB boundary leaves the canonical form. */
  lemma VirtAlignUpLeavesCanonicalForm()
    ensures IsPowerOfTwo(0x1000) && AlignUpFits(0x7fff_ffff_ffff, 0x1000)
    ensures AlignUp(0x7fff_ffff_ffff, 0x1000) == 0x8000_0000_0000
    ensures !IsCanonical(AlignUp(0x7fff_ffff_ffff, 0x1000))
  {
    Pow2Values();
  }

  /** `VirtAddr::align_up` as evidently intended: the rounded value sign-extended again, so the
      result is canonical; it is the as-written value whenever that one was canonical, and a
      multiple of the alignment for every alignment up to 2^48. */
  function VirtAlignUp(addr: VirtAddr, align: u64): (r: VirtAddr)
    requires IsPowerOfTwo(align) && AlignUpFits(addr, align)
    ensures IsCanonical(AlignUp(addr, align)) ==> r == AlignUp(addr, align)
    ensures align <= TWO_48 ==> r % align == 0
    ensures r % TWO_48 == AlignUp(addr, align) % TWO_48
  {
    var raw := AlignUp(addr, align);
    if align <= TWO_48 then
      AlignedTruncateStaysAligned(raw, align);
      VirtNewTruncate(raw)
    else VirtNewTruncate(raw)
  }

  /** `VirtAddr::is_aligned`: aligning down changes nothing exactly when `align` divides the
      address. */
  function VirtIsAligned(addr: VirtAddr, align: u64): (r: bool)
    requires IsPowerOfTwo(align)
    ensures r <==> addr % align == 0
  {
    AlignDown(addr, align) == addr
  }

  /** `VirtAddr::page_offset`: `PageOffset::new_truncate(addr as u16)`, the low twelve bits. */
  function PageOffsetOf(addr: VirtAddr): (r: PageOffset)
    ensures r == addr % 0x1000
  {
    OffsetNewTruncate(addr % U16_LIMIT)
  }

  /** `x >> 12 >> 9` is `x >> 21`. */
  lemma ShiftBy21(x: u64)
    ensures x / 0x1000 / 512 == x / 0x20_0000
  {
  }

  /** `x >> 21 >> 9` is `x >> 30`. */
  lemma ShiftBy30(x: u64)
    ensures x / 0x20_0000 / 512 == x / 0x4000_0000
  {
  }

  /** `x >> 30 >> 9` is `x >> 39`. */
  lemma ShiftBy39(x: u64)
    ensures x / 0x4000_0000 / 512 == x / 0x80_0000_0000
  {
  }

  /** `VirtAddr::p1_index`: bits 12..20 of the address. */
  function P1Index(addr: VirtAddr): (r: PageTableIndex)
    ensures r == addr / 0x1000 % 512
  {
    IndexNewTruncate(addr / 0x1000 % U16_LIMIT)
  }

  /** `VirtAddr::p2_index`: bits 21..29 of the address. */
  function P2Index(addr: VirtAddr): (r: PageTableIndex)
    ensures r == addr / 0x20_0000 % 512
  {
    ShiftBy21(addr);
    IndexNewTruncate(addr / 0x1000 / 512 % U16_LIMIT)
  }

  /** `VirtAddr::p3_index`: bits 30..38 of the address. */
  function P3Index(addr: VirtAddr): (r: PageTableIndex)
    ensures r == addr / 0x4000_0000 % 512
  {
    ShiftBy21(addr);
    ShiftBy30(addr);
    IndexNewTruncate(addr / 0x1000 / 512 / 512 % U16_LIMIT)
  }

  /** `VirtAddr::p4_index`: bits 39..47 of the address. */
  function P4Index(addr: VirtAddr): (r: PageTableIndex)
    ensures r == addr / 0x80_0000_0000 % 512
  {
    ShiftBy21(addr);
    ShiftBy30(addr);
    ShiftBy39(addr);
    IndexNewTruncate(addr / 0x1000 / 512 / 512 / 512 % U16_LIMIT)
  }

  /** Bits 48..63 do not reach the index and offset fields. */
  lemma FieldsIgnoreHighBits(a: u64)
    ensures a / 0x80_0000_0000 % 512 == a % TWO_48 / 0x80_0000_0000
    ensures a / 0x4000_0000 % 512 == a % TWO_48 / 0x4000_0000 % 512
    ensures a / 0x20_0000 % 512 == a % TWO_48 / 0x20_0000 % 512
    ensures a / 0x1000 % 512 == a % TWO_48 / 0x1000 % 512
    ensures a % 0x1000 == a % TWO_48 % 0x1000
  {
    var h, low := a / TWO_48, a % TWO_48;
    assert a / 0x80_0000_0000 == h * 512 + low / 0x80_0000_0000;
    assert a / 0x4000_0000 == h * 0x4_0000 + low / 0x4000_0000;
    assert a / 0x20_0000 == h * 0x800_0000 + low / 0x20_0000;
    assert a / 0x1000 == h * 0x10_0000_0000 + low / 0x1000;
  }

  /** Bits 0..47 are the sum of the index and offset fields. */
  lemma Low48Decomposes(low: int)
    requires 0 <= low < 0x1_0000_0000_0000
    ensures low == low / 0x80_0000_0000 * 0x80_0000_0000 + low / 0x4000_0000 % 512 * 0x4000_0000
      + low / 0x20_0000 % 512 * 0x20_0000 + low / 0x1000 % 512 * 0x1000 + low % 0x1000
  {
    assert low == low / 0x80_0000_0000 * 0x80_0000_0000 + low % 0x80_0000_0000;
    ModSplit(low, 0x4000_0000, 512);
    ModSplit(low, 0x20_0000, 512);
    ModSplit(low, 0x1000, 512);
  }

  /** A canonical address is the sum of its index and offset fields, sign-extended: bits 48..63
      are set exactly when the level-4 index has its top bit set. */
  lemma VirtAddrDecomposes(a: VirtAddr)
    ensures a == (if P4Index(a) >= 256 then U64_LIMIT - TWO_48 else 0)
      + P4Index(a) * 0x80_0000_0000 + P3Index(a) * 0x4000_0000
      + P2Index(a) * 0x20_0000 + P1Index(a) * 0x1000 + PageOffsetOf(a)
  {
    FieldsIgnoreHighBits(a);
    Low48Decomposes(a % TWO_48);
    CanonicalFromLow48(a);
  }

  /** A canonical address is determined by its four table indices and its page offset. */
  lemma VirtAddrFromParts(a: VirtAddr, b: VirtAddr)
    requires P4Index(a) == P4Index(b) && P3Index(a) == P3Index(b)
    requires P2Index(a) == P2Index(b) && P1Index(a) == P1Index(b)
    requires PageOffsetOf(a) == PageOffsetOf(b)
    ensures a == b
  {
    VirtAddrDecomposes(a);
    VirtAddrDecomposes(b);
  }

  /** `VirtAddr + u64`: `VirtAddr::new` of the sum, which panics when the `u64` addition overflows
      (debug build) or the sum carries data in bits 48..63. */
  function VirtAdd(addr: VirtAddr, rhs: u64): (r: VirtAddr)
    requires addr + rhs < U64_LIMIT && VirtAccepts(addr + rhs)
    ensures IsCanonical(addr + rhs) ==> r == addr + rhs
    ensures r == VirtNewTruncate(addr + rhs)
  {
    VirtNew(addr + rhs)
  }

  /** `VirtAddr - u64`: `checked_sub(..).unwrap()`, then `VirtAddr::new`. */
  function VirtSub(addr: VirtAddr, rhs: u64): (r: VirtAddr)
    requires rhs <= addr && VirtAccepts(addr - rhs)
    ensures IsCanonical(addr - rhs) ==> r == addr - rhs
    ensures r == VirtNewTruncate(addr - rhs)
  {
    VirtNew(addr - rhs)
  }

  /** `VirtAddr - VirtAddr`: the distance, with `checked_sub(..).unwrap()` panicking when the
      right operand is the larger one. */
  function VirtDiff(addr: VirtAddr, rhs: VirtAddr): (r: u64)
    requires rhs <= addr
    ensures rhs + r == addr
  {
    addr - rhs
  }

  /** Within one canonical half, adding and subtracting the same amount are inverse, and the
      distance recovers the amount. */
  lemma VirtAddSubRoundTrip(addr: VirtAddr, n: u64)
    requires addr + n < U64_LIMIT && IsCanonical(addr + n)
    ensures VirtSub(VirtAdd(addr, n), n) == addr
    ensures VirtDiff(VirtAdd(addr, n), addr) == n
  {
  }

  /** Crossing the canonical hole: the address after the last lower-half byte is the first
      upper-half address. */
  lemma VirtAddCrossesHole()
    ensures VirtAccepts(0x7fff_ffff_ffff + 1)
    ensures VirtAdd(0x7fff_ffff_ffff, 1) == 0xffff_8000_0000_0000
  {
  }

  /** Bits 52..63 are all zero. */
  predicate IsValidPhys(addr: u64)
  {
    addr < TWO_52
  }

  type PhysAddr = a: u64 | a < TWO_52

  /** The error of `PhysAddr::try_new`: it carries bits 52..63 of the rejected value. */
  datatype PhysAddrNotValid = PhysAddrNotValid(bits: u64)

  /** `PhysAddr::try_new`: succeeds exactly below 2^52, returning the value unchanged; the error
      carries the non-zero bits 52..63. */
  function PhysTryNew(addr: u64): (r: Result<PhysAddr, PhysAddrNotValid>)
    ensures r.Ok? <==> addr < TWO_52
    ensures r.Ok? ==> r.value == addr
    ensures r.Err? ==> r.error.bits == addr / TWO_52 && r.error.bits != 0
  {
    var bits := addr / TWO_52;
    if bits == 0 then Ok(addr) else Err(PhysAddrNotValid(bits))
  }

  /** `PhysAddr::new`: its `assert_eq!` panics exactly when `try_new` fails. */
  function PhysNew(addr: u64): (r: PhysAddr)
    requires IsValidPhys(addr)
    ensures PhysTryNew(addr) == Ok(r)
  {
    addr
  }

  /** `PhysAddr::new_truncate`: the value modulo 2^52, i.e. with bits 52..63 cleared. It is the
      identity exactly on the values `try_new` accepts. */
  function PhysNewTruncate(addr: u64): (r: PhysAddr)
    ensures (r == addr) <==> PhysTryNew(addr).Ok?
    ensures (addr - r) % TWO_52 == 0
  {
    MultipleModIsZero(TWO_52, addr / TWO_52);
    addr % TWO_52
  }

  /** `PhysAddr::align_down`: never exceeds the input, so the result is always a valid address. */
  function PhysAlignDown(addr: PhysAddr, align: u64): (r: PhysAddr)
    requires IsPowerOfTwo(align)
    ensures r <= addr < r + align && r % align == 0
  {
    AlignDown(addr, align)
  }

  /** `PhysAddr::is_aligned`. */
  function PhysIsAligned(addr: PhysAddr, align: u64): (r: bool)
    requires IsPowerOfTwo(align)
    ensures r <==> addr % align == 0
  {
    PhysAlignDown(addr, align) == addr
  }

  /** Rounding the last physical page's second byte up to a 4 KiB boundary leaves the 52-bit
      range. */
  lemma PhysAlignUpLeavesValidRange()
    ensures IsPowerOfTwo(0x1000) && AlignUpFits(0x000f_ffff_ffff_f001, 0x1000)
    ensures AlignUp(0x000f_ffff_ffff_f001, 0x1000) == TWO_52
    ensures !IsValidPhys(AlignUp(0x000f_ffff_ffff_f001, 0x1000))
  {
    Pow2Values();
  }

  /** `PhysAddr::align_up` as evidently intended: checked like `PhysAddr::try_new`, so an
      out-of-range round-up is reported instead of stored. */
  function PhysAlignUp(addr: PhysAddr, align: u64): (r: Result<PhysAddr, PhysAddrNotValid>)
    requires IsPowerOfTwo(align) && AlignUpFits(addr, align)
    ensures r.Ok? <==> IsValidPhys(AlignUp(addr, align))
    ensures r.Ok? ==> addr <= r.value < addr + align && r.value % align == 0
  {
    PhysTryNew(AlignUp(addr, align))
  }

  /** `PhysAddr + u64`: `PhysAddr::new` of the sum; panics beyond 52 bits, and on a `u64`
      overflow in a debug build. */
  function PhysAdd(addr: PhysAddr, rhs: u64): (r: PhysAddr)
    requires addr + rhs < TWO_52
    ensures PhysTryNew(addr + rhs) == Ok(r)
  {
    PhysNew(addr + rhs)
  }

  /** `PhysAddr - u64`: `checked_sub(..).unwrap()`, then `PhysAddr::new`, which cannot fail on a
      value below a valid address. */
  function PhysSub(addr: PhysAddr, rhs: u64): (r: PhysAddr)
    requires rhs <= addr
    ensures r <= addr && PhysTryNew(addr - rhs) == Ok(r)
  {
    PhysNew(addr - rhs)
  }

  /** `PhysAddr - PhysAddr`: the distance; panics when the right operand is the larger one. */
  function PhysDiff(addr: PhysAddr, rhs: PhysAddr): (r: u64)
    requires rhs <= addr
    ensures rhs + r == addr
  {
    addr - rhs
  }

  /** Adding and subtracting the same amount are inverse, and the distance recovers it. */
  lemma PhysAddSubRoundTrip(addr: PhysAddr, n: u64)
    requires addr + n < TWO_52
    ensures PhysSub(PhysAdd(addr, n), n) == addr
    ensures PhysDiff(PhysAdd(addr, n), addr) == n
  {
  }
}
