/** The offset mapping strategy (`mapper/mapped_page_table/offset_page_table.rs`).

    An `OffsetPageTable` is the generic mapper of `MappedTables` over the frame-to-table mapping
    `PhysOffset`: all of physical memory is assumed to be mapped at one virtual offset, so the
    table in the frame at physical address `a` is reached through the pointer `offset + a`.
    Virtual memory is modelled as the page tables found at those pointers. Whether the offset is
    right is the caller's promise and is never checked: the model takes whatever tables the
    pointers lead to. */
module OffsetTables {
  import opened Words
  import opened Addr
  import opened TableIndex
  import opened Pages
  import opened Frames
  import opened Tables
  import opened FrameAlloc
  import opened MappedTables

  /** `PhysOffset`: the virtual address at which physical address 0 is mapped. */
  datatype PhysOffset = PhysOffset(physOffset: VirtAddr)

  /** `PhysOffset::new`. */
  function NewPhysOffset(physOffset: VirtAddr): PhysOffset
  {
    PhysOffset(physOffset)
  }

  /** `PhysOffset::phys_offset`. */
  function PhysOffsetOf(p: PhysOffset): VirtAddr
  {
    p.physOffset
  }

  /** `VirtAddr + u64` in `frame_to_pointer` does not panic: the sum neither overflows nor carries
      data in bits 48..63. */
  predicate PointerDefined(p: PhysOffset, a: PhysAddr)
  {
    p.physOffset + a < U64_LIMIT && VirtAccepts(p.physOffset + a)
  }

  /** `PhysOffset::frame_to_pointer`: the offset plus the frame's start address. The pointer agrees
      with the sum in bits 0..47, is the sum itself when the sum is already canonical, and is
      otherwise the sum with bit 47 copied into bits 48..63. */
  function FrameToPointer(p: PhysOffset, frame: PhysFrame): (r: VirtAddr)
    requires PointerDefined(p, frame.start)
    ensures r % TWO_48 == (p.physOffset + frame.start) % TWO_48
    ensures IsCanonical(p.physOffset + frame.start) ==> r == p.physOffset + frame.start
    ensures !IsCanonical(p.physOffset + frame.start) ==>
      r == p.physOffset + frame.start + (U64_LIMIT - TWO_48)
  {
    var r := VirtAdd(p.physOffset, frame.start);
    CanonicalFromLow48(r);
    r
  }

  /** Only physical addresses below 2^48 have a pointer: a lower-half offset plus anything at or
      above 2^48 carries data in bits 48..63, and an upper-half offset leaves less than 2^47
      before the addition overflows. */
  lemma PointerNeedsLow48(p: PhysOffset, a: PhysAddr)
    requires PointerDefined(p, a)
    ensures a < TWO_48
  {
  }

  /** Which physical address a pointer of the mapping leads to: the pointer minus the offset,
      modulo 2^48. */
  function PointerToPhys(p: PhysOffset, v: VirtAddr): (r: PhysAddr)
    ensures r < TWO_48
  {
    (v - p.physOffset) % TWO_48
  }

  /** Subtracting the offset undoes `frame_to_pointer`: the pointer leads back to the frame's start
      address. */
  lemma FrameToPointerInverse(p: PhysOffset, frame: PhysFrame)
    requires PointerDefined(p, frame.start)
    ensures PointerToPhys(p, FrameToPointer(p, frame)) == frame.start
  {
    var a := frame.start;
    var r := FrameToPointer(p, frame);
    var o := p.physOffset;
    PointerNeedsLow48(p, a);
    assert r == TWO_48 * (r / TWO_48) + r % TWO_48;
    assert o + a == TWO_48 * ((o + a) / TWO_48) + (o + a) % TWO_48;
    DivModUnique(TWO_48, r / TWO_48 - (o + a) / TWO_48, a, r - o);
  }

  /** Distinct frames get distinct pointers, so no two page tables share one. */
  lemma FrameToPointerInjective(p: PhysOffset, f: PhysFrame, g: PhysFrame)
    requires PointerDefined(p, f.start) && PointerDefined(p, g.start)
    ensures FrameToPointer(p, f) == FrameToPointer(p, g) <==> f.start == g.start
  {
    FrameToPointerInverse(p, f);
    FrameToPointerInverse(p, g);
  }

  /** `OffsetPageTable`, a `MappedPageTable` over `PhysOffset`: the level-4 table and the offset. */
  datatype OffsetPageTable = OffsetPageTable(level4: PageTable, mapping: PhysOffset)

  /** `OffsetPageTable::from_phys_offset`. */
  function FromPhysOffset(level4: PageTable, physOffset: VirtAddr): OffsetPageTable
  {
    OffsetPageTable(level4, NewPhysOffset(physOffset))
  }

  /** `OffsetPageTable::phys_offset`: the offset of its frame mapping. */
  function OffsetOf(t: OffsetPageTable): VirtAddr
  {
    PhysOffsetOf(t.mapping)
  }

  /** The offset comes back exactly as it was given, and the level-4 table is the one given. */
  lemma PhysOffsetRoundTrip(level4: PageTable, physOffset: VirtAddr)
    ensures OffsetOf(FromPhysOffset(level4, physOffset)) == physOffset
    ensures FromPhysOffset(level4, physOffset).level4 == level4
  {
  }

  /** Page tables in virtual memory, by the address of each. */
  type VirtMemory = map<VirtAddr, PageTable>

  /** The 4 KiB frame starting at `a`. */
  function FrameAt(a: PhysAddr): PhysFrame
    requires a % 0x1000 == 0
  {
    RawFrame(Size4KiB, a)
  }

  /** The frame has a pointer and virtual memory holds a table there. */
  predicate Reachable(p: PhysOffset, view: VirtMemory, a: PhysAddr)
  {
    a % 0x1000 == 0 && PointerDefined(p, a) && FrameToPointer(p, FrameAt(a)) in view
  }

  /** Physical memory as the mapper sees it through `frame_to_pointer`: the table in the frame at
      `a` is the one at its pointer. */
  function MemoryThrough(p: PhysOffset, view: VirtMemory): (r: Memory)
    ensures forall a :: Reachable(p, view, a) ==> a in r
    ensures forall a :: a in r ==> Reachable(p, view, a) && r[a] == view[FrameToPointer(p, FrameAt(a))]
  {
    map a: PhysAddr | 0 <= a < TWO_52 && Reachable(p, view, a) :: view[FrameToPointer(p, FrameAt(a))]
  }

  /** The engine's machine for an offset page table over `view`, with the allocator lent to it. */
  function MachineOf(t: OffsetPageTable, view: VirtMemory, allocator: FrameAllocator): (m: Machine)
    ensures m.level4 == t.level4 && m.allocator == allocator
  {
    Machine(t.level4, MemoryThrough(t.mapping, view), allocator)
  }

  /** Every table the engine reads in a frame is the one at that frame's pointer, or a zeroed table
      when virtual memory holds none there. */
  lemma ReadsThroughPointer(t: OffsetPageTable, view: VirtMemory, allocator: FrameAllocator,
                            a: PhysAddr)
    requires a % 0x1000 == 0 && PointerDefined(t.mapping, a)
    ensures var v := FrameToPointer(t.mapping, FrameAt(a));
      TableOf(MachineOf(t, view, allocator), InFrame(a))
        == if v in view then view[v] else EmptyTable()
  {
  }

  /** A write the engine makes to an entry of the table in a frame is a write to the one table at
      that frame's pointer: the machine afterwards is the one over the updated virtual memory. */
  lemma WriteThroughPointer(t: OffsetPageTable, view: VirtMemory, allocator: FrameAllocator,
                            a: PhysAddr, i: PageTableIndex, e: PageTableEntry)
    requires a % 0x1000 == 0 && PointerDefined(t.mapping, a)
    ensures var m := MachineOf(t, view, allocator);
      var v := FrameToPointer(t.mapping, FrameAt(a));
      SetEntry(m, InFrame(a), i, e)
        == MachineOf(t, view[v := TableOf(m, InFrame(a))[i := e]], allocator)
  {
    var m := MachineOf(t, view, allocator);
    var p := t.mapping;
    var v := FrameToPointer(p, FrameAt(a));
    var view2 := view[v := TableOf(m, InFrame(a))[i := e]];
    var lhs := m.memory[a := TableOf(m, InFrame(a))[i := e]];
    var rhs := MemoryThrough(p, view2);
    forall b: PhysAddr | b % 0x1000 == 0 && PointerDefined(p, b) && b != a
      ensures FrameToPointer(p, FrameAt(b)) != v
    {
      FrameToPointerInjective(p, FrameAt(b), FrameAt(a));
    }
    assert forall b :: b in lhs <==> b in rhs;
    assert forall b :: b in lhs ==> lhs[b] == rhs[b];
    assert lhs == rhs;
  }
}
