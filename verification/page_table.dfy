/** Page-table entries and page tables (src/structures/paging/page_table.rs).

    An entry is one 64-bit word: bits 12..51 hold the 4 KiB-aligned physical address it maps,
    every other bit is a flag. Flags are kept as the set of their bit positions, so that the
    crate's `contains`, `|` and `&` on `PageTableFlags` are membership, union and intersection.
    The address mask is fixed at `0x000f_ffff_ffff_f000` (no memory-encryption bit). */
module Tables {
  import opened Wrappers
  import opened Words
  import opened Bits
  import opened Addr
  import opened Pages
  import opened Frames
  import opened TableIndex

  /** `PageTableFlags`: any set of bit positions of a 64-bit word (`from_bits_retain` keeps
      every bit). */
  type PageTableFlags = s: set<nat> | forall k :: k in s ==> k < 64

  const PRESENT: nat := 0
  const WRITABLE: nat := 1
  const USER_ACCESSIBLE: nat := 2
  const WRITE_THROUGH: nat := 3
  const NO_CACHE: nat := 4
  const ACCESSED: nat := 5
  const DIRTY: nat := 6
  const HUGE_PAGE: nat := 7
  const GLOBAL: nat := 8
  const BIT_9: nat := 9
  const BIT_10: nat := 10
  const BIT_11: nat := 11
  const BIT_52: nat := 52
  const BIT_62: nat := 62
  const NO_EXECUTE: nat := 63

  /** The bit positions the physical address occupies. */
  predicate IsAddressBit(k: nat)
  {
    12 <= k < 52
  }

  /** The address bits as a set. */
  const ADDRESS_BITS: set<nat> := set k: nat | 12 <= k < 52

  /** A flag set that does not reach into the address bits; every named flag is one. */
  predicate FlagsOnly(f: PageTableFlags)
  {
    forall k :: k in f ==> !IsAddressBit(k)
  }

  /** `flags.bits()`. */
  function FlagBits(f: PageTableFlags): (r: u64)
    ensures forall k: nat :: Bit(r, k) <==> k in f
  {
    Pow2Words();
    FlagBitsAre(f);
    BitsValue(f, 64)
  }

  /** The word of a flag set has exactly the flags' bits. */
  lemma FlagBitsAre(f: PageTableFlags)
    ensures forall k: nat :: Bit(BitsValue(f, 64), k) <==> k in f
  {
    forall k: nat
      ensures Bit(BitsValue(f, 64), k) <==> k in f
    {
      BitOfBitsValue(f, 64, k);
    }
  }

  /** The address mask `0x000f_ffff_ffff_f000`. */
  const ADDRESS_MASK: u64 := 0x000f_ffff_ffff_f000

  /** The address mask has exactly the address bits set. */
  lemma AddressMaskBits(k: nat)
    ensures Bit(ADDRESS_MASK, k) <==> IsAddressBit(k)
  {
    Pow2Values();
    assert Pow2(40) == 0x100_0000_0000 by {
      Pow2Add(39, 1);
    }
    LowIsMod(0, 12);
    JoinIsSum(0, 12, Pow2(40) - 1);
    assert ADDRESS_MASK == Join(0, 12, Pow2(40) - 1);
    BitOfJoin(0, 12, Pow2(40) - 1, k);
    if k < 12 {
      NoBitOfZero(k);
    } else {
      BitOfOnes(40, k - 12);
    }
  }

  /** `PageTableEntry`: the raw 64-bit word. */
  datatype PageTableEntry = PageTableEntry(entry: u64)

  /** `PageTableEntry::new`: the zero word. */
  function NewEntry(): (e: PageTableEntry)
    ensures IsUnused(e)
  {
    PageTableEntry(0)
  }

  /** `PageTableEntry::is_unused`: the word is zero. */
  predicate IsUnused(e: PageTableEntry)
  {
    e.entry == 0
  }

  /** `PageTableEntry::set_unused`. */
  function SetUnused(e: PageTableEntry): (r: PageTableEntry)
    ensures IsUnused(r)
  {
    NewEntry()
  }

  /** `PageTableEntry::addr`: `entry & ADDRESS_MASK`, a 4 KiB-aligned physical address that
      holds exactly the entry's address bits. */
  function EntryAddr(e: PageTableEntry): (r: PhysAddr)
    ensures r % 0x1000 == 0
    ensures forall k: nat :: Bit(r, k) <==> IsAddressBit(k) && Bit(e.entry, k)
  {
    MaskedAddress(e.entry);
    And(e.entry, ADDRESS_MASK, 64)
  }

  /** `v & ADDRESS_MASK` holds the address bits of `v`, so it is a 4 KiB-aligned value below
      2^52. */
  lemma MaskedAddress(v: u64)
    ensures And(v, ADDRESS_MASK, 64) < TWO_52 && And(v, ADDRESS_MASK, 64) % 0x1000 == 0
    ensures forall k: nat :: Bit(And(v, ADDRESS_MASK, 64), k) <==> IsAddressBit(k) && Bit(v, k)
  {
    Pow2Words();
    Pow2Values();
    Pow2Add(48, 4);
    var a := And(v, ADDRESS_MASK, 64);
    forall k: nat
      ensures Bit(a, k) <==> IsAddressBit(k) && Bit(v, k)
    {
      BitOfOps(v, ADDRESS_MASK, 64, k);
      AddressMaskBits(k);
    }
    BitsBelow(a, 52, 64);
    BitsAligned(a, 12);
  }

  /** `PageTableEntry::flags`: `entry & !ADDRESS_MASK`, every bit outside the address. */
  function EntryFlags(e: PageTableEntry): (r: PageTableFlags)
    ensures FlagsOnly(r)
    ensures forall k: nat :: k in r <==> k < 64 && !IsAddressBit(k) && Bit(e.entry, k)
  {
    MaskedFlags(e.entry);
    BitsOf(AndNot(e.entry, ADDRESS_MASK, 64), 64)
  }

  /** `v & !ADDRESS_MASK` holds the bits of `v` outside the address. */
  lemma MaskedFlags(v: u64)
    ensures forall k: nat :: Bit(AndNot(v, ADDRESS_MASK, 64), k) <==>
      k < 64 && !IsAddressBit(k) && Bit(v, k)
  {
    forall k: nat
      ensures Bit(AndNot(v, ADDRESS_MASK, 64), k) <==> k < 64 && !IsAddressBit(k) && Bit(v, k)
    {
      BitOfOps(v, ADDRESS_MASK, 64, k);
      AddressMaskBits(k);
    }
  }

  /** An entry is its address OR its flags: the two parts partition the word. */
  lemma EntryDecomposes(e: PageTableEntry)
    ensures e.entry == Or(EntryAddr(e), FlagBits(EntryFlags(e)), 64)
  {
    Pow2Words();
    var v := Or(EntryAddr(e), FlagBits(EntryFlags(e)), 64);
    forall k: nat | k < 64
      ensures Bit(e.entry, k) == Bit(v, k)
    {
      BitOfOps(EntryAddr(e), FlagBits(EntryFlags(e)), 64, k);
    }
    BitsExt(e.entry, v, 64);
  }

  /** An entry is unused exactly when it holds neither an address nor a flag. */
  lemma UnusedParts(e: PageTableEntry)
    ensures IsUnused(e) <==> EntryAddr(e) == 0 && EntryFlags(e) == {}
  {
    Pow2Words();
    if IsUnused(e) {
      forall k: nat | k in EntryFlags(e)
        ensures false
      {
        NoBitOfZero(k);
      }
      forall k: nat | k < 64
        ensures Bit(EntryAddr(e), k) == Bit(0, k)
      {
        NoBitOfZero(k);
      }
      BitsExt(EntryAddr(e), 0, 64);
    } else if EntryAddr(e) == 0 && EntryFlags(e) == {} {
      EntryDecomposes(e);
      forall k: nat | k < 64
        ensures Bit(e.entry, k) == Bit(0, k)
      {
        NoBitOfZero(k);
        BitOfOps(0, FlagBits({}), 64, k);
      }
      BitsExt(e.entry, 0, 64);
    }
  }

  /** `FrameError`: why an entry does not name a 4 KiB frame. */
  datatype FrameError = FrameNotPresent | HugeFrame

  /** `PageTableEntry::frame`: `FrameNotPresent` without PRESENT, else `HugeFrame` with
      HUGE_PAGE, else the 4 KiB frame at the entry's address. */
  function EntryFrame(e: PageTableEntry): (r: Result<PhysFrame, FrameError>)
    ensures r == Err(FrameNotPresent) <==> PRESENT !in EntryFlags(e)
    ensures r == Err(HugeFrame) <==> PRESENT in EntryFlags(e) && HUGE_PAGE in EntryFlags(e)
    ensures r.Ok? ==> r.value == RawFrame(Size4KiB, EntryAddr(e))
  {
    if PRESENT !in EntryFlags(e) then Err(FrameNotPresent)
    else if HUGE_PAGE in EntryFlags(e) then Err(HugeFrame)
    else
      FrameContainingAligned(Size4KiB, EntryAddr(e));
      Ok(FrameContainingAddress(Size4KiB, EntryAddr(e)))
  }

  /** `PageTableEntry::set_addr`: `addr | flags.bits()`; panics unless the address is 4 KiB
      aligned. Reading the entry back gives the address and the flags outside the address bits;
      flags that stay outside the address bits come back unchanged and leave the address as
      written. */
  function SetAddr(e: PageTableEntry, addr: PhysAddr, flags: PageTableFlags): (r: PageTableEntry)
    requires addr % 0x1000 == 0
    ensures EntryFlags(r) == flags - ADDRESS_BITS
    ensures FlagsOnly(flags) ==> EntryAddr(r) == addr && EntryFlags(r) == flags
  {
    Pow2Words();
    SetAddrReadsBack(addr, flags);
    PageTableEntry(Or(addr, FlagBits(flags), 64))
  }

  /** The word `addr | flags.bits()` has the bits of both, and when the flags stay outside the
      address bits its address part is `addr`. */
  lemma SetAddrReadsBack(addr: PhysAddr, flags: PageTableFlags)
    requires addr % 0x1000 == 0
    ensures Or(addr, FlagBits(flags), 64) < U64_LIMIT
    ensures EntryFlags(PageTableEntry(Or(addr, FlagBits(flags), 64)))
      == flags - ADDRESS_BITS
    ensures FlagsOnly(flags) ==> EntryAddr(PageTableEntry(Or(addr, FlagBits(flags), 64))) == addr
  {
    Pow2Words();
    var v := Or(addr, FlagBits(flags), 64);
    AddrBitsInside(addr);
    forall k: nat
      ensures Bit(v, k) <==> Bit(addr, k) || k in flags
    {
      BitOfOps(addr, FlagBits(flags), 64, k);
    }
    if FlagsOnly(flags) {
      var a := EntryAddr(PageTableEntry(v));
      Pow2Values();
      Pow2Add(48, 4);
      Pow2Increasing(52, 64);
      BitsExt(a, addr, 64);
    }
  }

  /** The bits of a 4 KiB-aligned physical address all lie in the address field. */
  lemma AddrBitsInside(addr: PhysAddr)
    requires addr % 0x1000 == 0
    ensures forall k: nat :: Bit(addr, k) ==> IsAddressBit(k)
  {
    Pow2Values();
    Pow2Add(48, 4);
    LowIsMod(addr, 12);
    forall k: nat | Bit(addr, k)
      ensures IsAddressBit(k)
    {
      if k < 12 {
        BitOfLow(addr, 12, k);
        NoBitOfZero(k);
      } else if 52 <= k {
        BitAboveWidth(addr, 52, k);
        assert false;
      }
    }
  }

  /** `PageTableEntry::set_frame`: maps a 4 KiB frame; panics if the flags ask for a huge page. */
  function SetFrame(e: PageTableEntry, frame: PhysFrame, flags: PageTableFlags): (r: PageTableEntry)
    requires frame.size == Size4KiB && HUGE_PAGE !in flags
    ensures FlagsOnly(flags) ==> EntryAddr(r) == frame.start && EntryFlags(r) == flags
  {
    SetAddr(e, frame.start, flags)
  }

  /** `PageTableEntry::set_flags`: keeps the address and replaces the flags. */
  function SetFlags(e: PageTableEntry, flags: PageTableFlags): (r: PageTableEntry)
    ensures FlagsOnly(flags) ==> EntryAddr(r) == EntryAddr(e) && EntryFlags(r) == flags
  {
    SetAddr(e, EntryAddr(e), flags)
  }

  /** An entry mapped to a 4 KiB frame decodes to that frame exactly when it is marked present. */
  lemma FrameOfSetFrame(e: PageTableEntry, frame: PhysFrame, flags: PageTableFlags)
    requires frame.size == Size4KiB && HUGE_PAGE !in flags && FlagsOnly(flags)
    ensures PRESENT in flags ==> EntryFrame(SetFrame(e, frame, flags)) == Ok(frame)
    ensures PRESENT !in flags ==> EntryFrame(SetFrame(e, frame, flags)) == Err(FrameNotPresent)
  {
  }

  /** The entry's parts determine it: setting an entry's own address and flags gives it back. */
  lemma SetAddrOfParts(e: PageTableEntry)
    ensures SetAddr(e, EntryAddr(e), EntryFlags(e)) == e
  {
    EntryDecomposes(e);
  }

  /** `PageTable`: 512 entries. */
  type PageTable = t: seq<PageTableEntry> | |t| == ENTRY_COUNT witness EmptyTable()

  /** `PageTable::new`: 512 unused entries. */
  function EmptyTable(): (t: seq<PageTableEntry>)
    ensures |t| == ENTRY_COUNT && forall i :: 0 <= i < |t| ==> IsUnused(t[i])
  {
    seq(ENTRY_COUNT, _ => NewEntry())
  }

  /** `PageTable::zero`: every entry set unused. */
  function ZeroTable(t: PageTable): (r: PageTable)
    ensures forall i :: 0 <= i < |r| ==> IsUnused(r[i])
  {
    seq(ENTRY_COUNT, i requires 0 <= i < ENTRY_COUNT => SetUnused(t[i]))
  }

  /** `PageTable::is_empty`: all entries unused, checked in index order. */
  predicate TableIsEmpty(t: PageTable)
  {
    AllUnused(t)
  }

  /** `iter().all(is_unused)` over a run of entries. */
  predicate AllUnused(s: seq<PageTableEntry>)
  {
    |s| == 0 || (IsUnused(s[0]) && AllUnused(s[1..]))
  }

  /** `all` holds exactly when every entry is unused. */
  lemma {:induction false} AllUnusedMeansEvery(s: seq<PageTableEntry>)
    ensures AllUnused(s) <==> forall i :: 0 <= i < |s| ==> IsUnused(s[i])
  {
    if |s| > 0 {
      AllUnusedMeansEvery(s[1..]);
      assert forall i :: 0 < i < |s| ==> s[i] == s[1..][i - 1];
    }
  }

  /** A table is empty exactly when it equals a new table; `zero` empties any table. */
  lemma TableEmptiness(t: PageTable)
    ensures TableIsEmpty(t) <==> t == EmptyTable()
    ensures TableIsEmpty(ZeroTable(t)) && ZeroTable(t) == EmptyTable()
  {
    AllUnusedMeansEvery(t);
    AllUnusedMeansEvery(ZeroTable(t));
    if TableIsEmpty(t) {
      assert forall i :: 0 <= i < ENTRY_COUNT ==> t[i] == EmptyTable()[i];
    }
    assert forall i :: 0 <= i < ENTRY_COUNT ==> ZeroTable(t)[i] == EmptyTable()[i];
  }
}
