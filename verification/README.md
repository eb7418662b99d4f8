# x86_64 paging and descriptor codecs in Dafny

This project models the core of the `x86_64` Rust crate. That crate gives kernels typed access to the
x86-64 paging structures and to a few small architectural registers and descriptors. The model covers:

- **Addresses and geometry.** `VirtAddr` with its canonical form (bits 48..63 copy bit 47) and
  `PhysAddr` with its 52-bit limit. Alignment, the four table indices and the page offset of an address,
  `Page` and `PhysFrame` for the three page sizes (4 KiB, 2 MiB, 1 GiB), and their half-open and
  inclusive ranges.
- **Page tables.** `PageTableEntry` (address bits 12..51 plus flags), `PageTable` (512 entries),
  `PageTableIndex`, `PageOffset` and `PageTableLevel`.
- **The mapper engine.** `MappedPageTable` over a map from frames to tables:
  - `map_to_with_table_flags`, including the creation of missing parent tables from a frame allocator;
  - `unmap`, `update_flags` and `set_flags_p4/p3/p2_entry`;
  - `translate_page` and `translate`;
  - the error types and their conversions;
  - `clean_up` and `clean_up_addr_range`.
- **The `Mapper` trait defaults** in `mapper/mod.rs`. Each is written once, over an abstract state and
  the single-page operation it calls, passed in as a function:
  - `map_to` and `identity_map`;
  - the range operations `map_to_range_with_table_flags`, `map_range_with_table_flags`,
    `unmap_range` and `update_flags_range`.
- **The other strategies.**
  - `OffsetPageTable` reaches tables through a fixed virtual offset.
  - `RecursivePageTable` reaches tables through a recursive level-4 entry. It is modelled against the
    processor's own four-level walk.
- **The iterators.**
  - `MappedPageTable::iter` yields every mapped page in order.
  - `range_iter` merges the pages whose frames are contiguous into `MappedPageRangeInclusive` items.
- **The small codecs.**
  - Segment selectors.
  - GDT descriptors and the `GlobalDescriptorTable` append logic.
  - IDT entry options.
  - The DR7 debug-control register.
  - The XCR0 extended-control register.

Machine words are unbounded integers restricted to their width (`Words.u64` and its siblings). The
bit-level codecs use `bv64`. Where a panic of the crate, documented or not, becomes a precondition,
"## Left out" has a line for that member, and where a debug build and a release build differ on an
overflow it names the build the model follows. Everywhere the panic is part of the behaviour worth
proving, it becomes an explicit outcome instead: `Panic` in the mapper and clean-up, `Panics` in the
recursive strategy, `None` in the iterators, and an error variant in the IDT indexing.

## Model

| member | source | states |
|---|---|---|
| TableIndex.IndexNew | src/structures/paging/page_table.rs:328-331 | `PageTableIndex::new` keeps an index below 512 and then agrees with `new_truncate` |
| TableIndex.IndexNewTruncate | src/structures/paging/page_table.rs:335-337 | the result is the index minus a multiple of 512, so it lies below 512 |
| TableIndex.IndexForwardChecked | src/structures/paging/page_table.rs:381-384 | `Step::forward_checked` answers `None` exactly when the index would leave the table, otherwise the index `count` entries on |
| TableIndex.IndexBackwardChecked | src/structures/paging/page_table.rs:387-390 | `Step::backward_checked` answers `None` exactly when the count exceeds the index, otherwise the index `count` entries back |
| TableIndex.IndexStepsRoundTrip | src/structures/paging/page_table.rs:374-391 | stepping forward then back by the same count, and back then forward, returns to the start whenever the first step succeeds |
| TableIndex.OffsetNew | src/structures/paging/page_table.rs:404-407 | `PageOffset::new` keeps an offset below 4096 and agrees with `new_truncate` |
| TableIndex.OffsetNewTruncate | src/structures/paging/page_table.rs:411-413 | the result is the offset minus a multiple of 4096 |
| TableIndex.NextLowerLevel | src/structures/paging/page_table.rs:459-466 | `None` exactly at level one, otherwise the level one lower |
| TableIndex.NextHigherLevel | src/structures/paging/page_table.rs:469-476 | `None` exactly at level four, otherwise the level one higher |
| TableIndex.LevelStepsInverse | src/structures/paging/page_table.rs:459-476 | the two level steps are inverse: lower of `a` is `b` exactly when higher of `b` is `a` |
| TableIndex.EntryAlignment | src/structures/paging/page_table.rs:484-486 | one entry spans 4 KiB, 2 MiB, 1 GiB or 512 GiB at levels one to four |
| TableIndex.TableAlignment | src/structures/paging/page_table.rs:479-481 | one table spans 512 entries of its level |
| TableIndex.AlignmentsNest | src/structures/paging/page_table.rs:479-486 | an entry of a level spans exactly one table of the next lower level |
| Addr.VirtNewTruncate | src/addr.rs:77-81 | the result keeps bits 0..47 of the input and leaves a canonical input unchanged |
| Addr.ShiftsSignExtend | src/addr.rs:77-81 | the shift pair `<< 16` then arithmetic `>> 16` copies bit 47 into bits 48..63 and keeps bits 0..47 |
| Addr.VirtNewTruncateIdempotent | src/addr.rs:77-81 | sign-extending twice is sign-extending once |
| Addr.VirtNewTruncateLow48 | src/addr.rs:77-81 | two values sign-extend to the same address exactly when they agree on bits 0..47 |
| Addr.CanonicalFromLow48 | src/addr.rs:77-81 | a canonical address is its bits 0..47, plus bits 48..63 exactly when bit 47 is set |
| Addr.VirtNewTruncateExamples | src/addr.rs:509-515 | the crate's `new_truncate` unit test values |
| Addr.VirtTryNew | src/addr.rs:63-69 | `try_new` succeeds exactly when bits 48..63 carry no data, then agrees with `new_truncate`, returns a canonical value unchanged, and otherwise reports the bits above 47 |
| Addr.VirtNew | src/addr.rs:49-55 | on a value `try_new` accepts, `new` returns what `try_new` returns, keeping bits 0..47 |
| Addr.AlignDown | src/addr.rs:485-488 | for a power-of-two alignment the result is a multiple of it, at most `addr`, and less than `align` below it |
| Addr.AlignDownIsGreatest | src/addr.rs:480-488 | no multiple of the alignment lies above the result and at or below `addr` |
| Addr.AlignUp | src/addr.rs:495-503 | the result is a multiple of the alignment, at least `addr`, less than `align` above it, and `addr` itself when already aligned |
| Addr.AlignUpIsLeast | src/addr.rs:490-503 | no multiple of the alignment lies at or above `addr` and below the result |
| Addr.AlignUpExamples | src/addr.rs:517-532 | the crate's `align_up` unit test values |
| Addr.VirtAlignDownKeepsCanonical | src/addr.rs:152-158 | for alignments up to 2^47 the as-written result stays canonical |
| Addr.VirtAlignDownLeavesCanonicalForm | src/addr.rs:152-158 | aligning `0xffff_8000_0000_0000` down to 2^48 stores the non-canonical `0xffff_0000_0000_0000` |
| Addr.VirtAlignDown | src/addr.rs:152-158 | the corrected `align_down` sign-extends its result: it equals the as-written value up to 2^47, is aligned up to 2^48, and agrees with it on bits 0..47 |
| Addr.AlignedTruncateStaysAligned | src/addr.rs:77-81 | sign extension keeps alignments up to 2^48 |
| Addr.VirtAlignUpLeavesCanonicalForm | src/addr.rs:141-147 | rounding `0x7fff_ffff_ffff` up to 4 KiB stores the non-canonical `0x8000_0000_0000` |
| Addr.VirtAlignUp | src/addr.rs:141-147 | the corrected `align_up` sign-extends its result: it equals the as-written value whenever that is canonical, is aligned up to 2^48, and agrees with it on bits 0..47 |
| Addr.VirtIsAligned | src/addr.rs:161-166 | `is_aligned` holds exactly when the alignment divides the address |
| Addr.PageOffsetOf | src/addr.rs:170-172 | the page offset is the address modulo 4096 |
| Addr.P1Index | src/addr.rs:176-178 | the level-1 index is bits 12..20 of the address |
| Addr.P2Index | src/addr.rs:182-184 | the level-2 index is bits 21..29 |
| Addr.P3Index | src/addr.rs:188-190 | the level-3 index is bits 30..38 |
| Addr.P4Index | src/addr.rs:194-196 | the level-4 index is bits 39..47 |
| Addr.VirtAddrDecomposes | src/addr.rs:170-196 | a canonical address is the weighted sum of its four indices and its offset, plus the sign extension exactly when the level-4 index is 256 or more |
| Addr.VirtAddrFromParts | src/addr.rs:170-196 | two canonical addresses with the same four indices and offset are equal |
| Addr.VirtAdd | src/addr.rs:205-211 | `VirtAddr + u64` is `new` of the sum: the sum itself when canonical, in general its sign extension |
| Addr.VirtSub | src/addr.rs:237-243 | `VirtAddr - u64` is `new` of the difference, the difference itself when canonical |
| Addr.VirtDiff | src/addr.rs:269-275 | `VirtAddr - VirtAddr` is the distance that, added to the right operand, gives the left |
| Addr.VirtAddSubRoundTrip | src/addr.rs:205-275 | within one canonical half, adding then subtracting `n` returns the address, and the distance recovers `n` |
| Addr.VirtAddCrossesHole | src/addr.rs:205-211 | adding 1 to the last lower-half address gives the first upper-half address |
| Addr.PhysTryNew | src/addr.rs:317-322 | succeeds exactly below 2^52 with the value unchanged; otherwise reports the non-zero bits 52..63 |
| Addr.PhysNew | src/addr.rs:288-295 | on a value below 2^52, `new` returns what `try_new` returns |
| Addr.PhysNewTruncate | src/addr.rs:299-301 | the result differs from the input by a multiple of 2^52 and is the input exactly when `try_new` accepts it |
| Addr.PhysAlignDown | src/addr.rs:357-362 | the result is aligned, at most the address and less than `align` below it |
| Addr.PhysIsAligned | src/addr.rs:366-371 | holds exactly when the alignment divides the address |
| Addr.PhysAlignUpLeavesValidRange | src/addr.rs:346-351 | rounding `0x000f_ffff_ffff_f001` up to 4 KiB stores 2^52, which is not a valid physical address |
| Addr.PhysAlignUp | src/addr.rs:346-351 | the corrected `align_up` fails exactly when the rounded value leaves the 52-bit range; otherwise it is aligned and less than `align` above the address |
| Addr.PhysAdd | src/addr.rs:408-414 | `PhysAddr + u64` below 2^52 is the sum that `try_new` accepts |
| Addr.PhysSub | src/addr.rs:440-446 | `PhysAddr - u64` is the difference, which `try_new` always accepts |
| Addr.PhysDiff | src/addr.rs:472-478 | the distance that, added to the right operand, gives the left |
| Addr.PhysAddSubRoundTrip | src/addr.rs:408-478 | adding then subtracting `n` returns the address, and the distance recovers `n` |
| Pages.Size | src/structures/paging/page.rs:39-60 | the page sizes are 4 KiB, 2 MiB and 1 GiB, the span of one entry at the leaf level of each size |
| Pages.ContainingAddress | src/structures/paging/page.rs:105-110 | the page of the given size whose span holds the address |
| Pages.ContainingAddressIsGreatest | src/structures/paging/page.rs:105-110 | no page boundary lies between the containing page's start and the address |
| Pages.ContainingAligned | src/structures/paging/page.rs:105-110 | an aligned address is the start of its own containing page |
| Pages.FromStartAddress | src/structures/paging/page.rs:81-86 | succeeds exactly on addresses aligned to the page size, with the page starting there; otherwise `AddressNotAligned` |
| Pages.PageRoundTrip | src/structures/paging/page.rs:81-110 | a page's start address gives back the page through both constructors, and `containing_address` is idempotent |
| Pages.PageTableIndexOf | src/structures/paging/page.rs:129-145 | the index of a page at a level is the field of its start address that the level's entries select |
| Pages.IndicesBelowLeafAreZero | src/structures/paging/page.rs:129-145 | the indices of a huge page below its leaf level are zero |
| Pages.FromPageTableIndices1GiB | src/structures/paging/page.rs:204-212 | the 1 GiB page built from a level-4 and a level-3 index has exactly those indices |
| Pages.FromPageTableIndices2MiB | src/structures/paging/page.rs:219-229 | the 2 MiB page built from three indices has exactly those indices |
| Pages.FromPageTableIndices | src/structures/paging/page.rs:236-248 | the 4 KiB page built from four indices has exactly those indices |
| Pages.PageFromOwnIndices | src/structures/paging/page.rs:195-254 | every page is rebuilt from its own indices by the constructor of its size |
| Pages.SameFieldsSamePage | src/structures/paging/page.rs:129-254 | two pages of one size with the same four indices are equal |
| Pages.PageAdd | src/structures/paging/page.rs:267-272 | `Page + u64` moves the start `n` pages on through `VirtAddr + u64`, so it may jump the canonical hole but never moves backwards |
| Pages.PageSub | src/structures/paging/page.rs:282-287 | `Page - u64` moves the start `n` pages back |
| Pages.PageDiff | src/structures/paging/page.rs:297-302 | `Page - Page` is the number of pages between the two starts |
| Pages.PageArithmeticRoundTrip | src/structures/paging/page.rs:267-302 | within one canonical half, adding and then subtracting `n` pages returns the page, and the difference recovers `n` |
| Pages.RangeNext | src/structures/paging/page.rs:365-373 | `PageRange::next` gives `None` exactly on an empty range and leaves it unchanged; otherwise it gives the first page and moves the start one page on in canonical order |
| Pages.RangeCount | src/structures/paging/page.rs:337-373 | the number of pages a half-open range holds, counted in canonical order |
| Pages.RangeItemsEnumerate | src/structures/paging/page.rs:365-373 | the pages `next` yields are, in order, the range's pages one page apart from its start, as many as `RangeCount` says |
| Pages.RangePrefix | src/structures/paging/page.rs:365-373 | the pages yielded before the `k`-th are those of the range that ends at it |
| Pages.RangeLen | src/structures/paging/page.rs:346-352 | `PageRange::len` as written is the page difference of the two ends, zero for an empty range |
| Pages.RangeSize | src/structures/paging/page.rs:356-358 | `PageRange::size` is the byte distance between the ends, zero for an empty range |
| Pages.RangeLenWithinHalf | src/structures/paging/page.rs:346-373 | within one canonical half, `len` is the number of pages `next` yields |
| Pages.RangeLenCountsHole | src/structures/paging/page.rs:346-352 | across the hole, `len` of a range that yields one page is `0xf_fff0_0000_0001` |
| Pages.As4KiBPageRange | src/structures/paging/page.rs:379-384 | the 4 KiB range has the same bounds and holds 512 times as many pages |
| Pages.InclusiveLen | src/structures/paging/page.rs:415-421 | `PageRangeInclusive::len` is the page difference plus one, zero for an empty range |
| Pages.InclusiveSize | src/structures/paging/page.rs:425-427 | `size` is the byte distance from the start to the end of the last page, and 0 on an empty range; `SIZE * len()` reaches 2^64 exactly for the range from page 0 to the last page of the address space, which the release build wraps to 0 |
| Pages.InclusiveNext | src/structures/paging/page.rs:434-451 | `next` gives `None` exactly on an empty range; otherwise the first page, then the start moves on, except at the last page of the address space, where the end moves back and the range empties |
| Pages.InclusiveCount | src/structures/paging/page.rs:406-451 | the number of pages an inclusive range holds, counted in canonical order |
| Pages.InclusiveItemsEnumerate | src/structures/paging/page.rs:434-451 | the pages `next` yields are the range's pages in order, as many as `InclusiveCount` says, and the iteration ends |
| Pages.InclusiveLastPage | src/structures/paging/page.rs:434-451 | a range holding only the last 4 KiB page yields exactly that page, without overflowing |
| Pages.InclusiveLenWithinHalf | src/structures/paging/page.rs:415-451 | within one canonical half, `len` is the number of pages `next` yields |
| Frames.FrameContainingAddress | src/structures/paging/frame.rs:50-55 | the frame of the given size whose span holds the physical address |
| Frames.FrameContainingIsGreatest | src/structures/paging/frame.rs:50-55 | no frame boundary lies between the containing frame's start and the address |
| Frames.FrameContainingAligned | src/structures/paging/frame.rs:50-55 | an aligned address is the start of its own containing frame |
| Frames.FrameFromStartAddress | src/structures/paging/frame.rs:24-31 | succeeds exactly on addresses aligned to the frame size, with the frame starting there |
| Frames.FrameRoundTrip | src/structures/paging/frame.rs:24-55 | a frame's start address gives back the frame through both constructors, and `containing_address` is idempotent |
| Frames.FrameAdd | src/structures/paging/frame.rs:100-105 | `PhysFrame + u64` starts `n` frames further on |
| Frames.FrameSub | src/structures/paging/frame.rs:129-134 | `PhysFrame - u64` starts `n` frames back |
| Frames.FrameDiff | src/structures/paging/frame.rs:158-163 | `PhysFrame - PhysFrame` is the number of frames between the starts |
| Frames.FrameArithmeticRoundTrip | src/structures/paging/frame.rs:100-163 | adding then subtracting `n` frames returns the frame, and the difference recovers `n` |
| Frames.FrameRangeNext | src/structures/paging/frame.rs:200-208 | `PhysFrameRange::next` gives `None` exactly on an empty range; otherwise the first frame, and the start moves one frame on |
| Frames.FrameRangeCount | src/structures/paging/frame.rs:188-208 | the number of frames a half-open range holds |
| Frames.FrameRangeItemsEnumerate | src/structures/paging/frame.rs:200-208 | `next` yields the range's frames in order, one frame apart, as many as it holds |
| Frames.FrameInclusiveNextRaw | src/structures/paging/frame.rs:242-250 | `PhysFrameRangeInclusive::next` as written, where it does not panic: `None` exactly on an empty range, otherwise the first frame and the start one frame on |
| Frames.FrameInclusiveNextPanicsAtTop | src/structures/paging/frame.rs:242-250 | on the non-empty range holding only the last frame of physical memory, `next` as written panics |
| Frames.FrameInclusiveNext | src/structures/paging/frame.rs:242-250 | the corrected `next` never panics: at the last frame of physical memory it moves the end back instead, as `PageRangeInclusive::next` does |
| Frames.FrameInclusiveCount | src/structures/paging/frame.rs:230-250 | the number of frames an inclusive range holds |
| Frames.FrameInclusiveItemsEnumerate | src/structures/paging/frame.rs:242-250 | the corrected `next` yields the range's frames in order, as many as it holds, and the iteration ends |
| Frames.FrameInclusiveLastFrame | src/structures/paging/frame.rs:242-250 | the range holding only the last frame yields exactly that frame |
| Tables.FlagBits | src/structures/paging/page_table.rs:136-194 | the bits of a flag set are exactly its flags' bit positions |
| Tables.AddressMaskBits | src/structures/paging/page_table.rs:107-111 | the physical address mask `0x000f_ffff_ffff_f000` has exactly bits 12..51 |
| Tables.NewEntry | src/structures/paging/page_table.rs:40-42 | a new entry is unused |
| Tables.SetUnused | src/structures/paging/page_table.rs:52-54 | `set_unused` leaves an unused entry |
| Tables.UnusedParts | src/structures/paging/page_table.rs:46-48 | an entry is unused exactly when its address is zero and it has no flags |
| Tables.EntryAddr | src/structures/paging/page_table.rs:65-67 | `addr` is 4 KiB aligned and holds exactly the entry's bits 12..51 |
| Tables.EntryFlags | src/structures/paging/page_table.rs:59-61 | `flags` holds exactly the entry's set bits outside 12..51 |
| Tables.EntryDecomposes | src/structures/paging/page_table.rs:59-67 | an entry is its address joined with its flags |
| Tables.EntryFrame | src/structures/paging/page_table.rs:77-85 | `frame` is `FrameNotPresent` exactly without PRESENT, `HugeFrame` exactly with PRESENT and HUGE_PAGE, and otherwise the 4 KiB frame at the entry's address |
| Tables.SetAddr | src/structures/paging/page_table.rs:89-92 | after `set_addr` the entry's flags are the given ones outside the address bits, and its address is the given one when the flags stay outside them |
| Tables.SetFrame | src/structures/paging/page_table.rs:96-99 | after `set_frame` with flags outside the address bits, the entry holds the frame's address and exactly those flags |
| Tables.SetFlags | src/structures/paging/page_table.rs:103-105 | `set_flags` keeps the address and replaces the flags |
| Tables.FrameOfSetFrame | src/structures/paging/page_table.rs:77-99 | `frame` after `set_frame` returns the frame set, or `FrameNotPresent` when the flags lack PRESENT |
| Tables.SetAddrOfParts | src/structures/paging/page_table.rs:59-92 | writing an entry's own address and flags back leaves it unchanged |
| Tables.EmptyTable | src/structures/paging/page_table.rs:223-229 | `PageTable::new` has 512 unused entries |
| Tables.ZeroTable | src/structures/paging/page_table.rs:232-236 | `zero` leaves every entry unused |
| Tables.TableEmptiness | src/structures/paging/page_table.rs:267-269 | `is_empty` holds exactly for the table `new` builds, and always after `zero` |
| FrameAlloc.AllocateConsumesOne | src/structures/paging/frame_alloc.rs:10-12 | one `allocate_frame` call consumes one answer of the allocator: `None` once it has none left, otherwise its next frame |
| FrameAlloc.AllocateFrame | src/structures/paging/frame_alloc.rs:10-12 | `allocate_frame` gives the allocator's next answer; `AllocateConsumesOne` and `AllocationKeepsUnique` state what a call consumes and keeps |
| FrameAlloc.AllocationKeepsUnique | src/structures/paging/frame_alloc.rs:6-12 | an allocator whose answers are unique and unused keeps returning frames that were not handed out before |
| FrameAlloc.DeallocateFrame | src/structures/paging/frame_alloc.rs:16-23 | `deallocate_frame` appends the frame to the deallocator's record and keeps the earlier entries |
| FrameAlloc.UnusedRoundTrip | src/structures/paging/frame_alloc.rs:28-48 | `UnusedPhysFrame::new` and `frame` are inverse |
| Mapper.FlushRangeEmpty | src/structures/paging/mapper/mod.rs:720-725 | `MapperFlushRange::empty` covers no page: an empty range starting at address 0 |
| Mapper.FrameErrorConversions | src/structures/paging/mapper/mod.rs:809-841 | `FrameNotPresent` becomes `PageNotMapped` and `HugeFrame` becomes `ParentEntryHugePage`, for unmap and for flag-update errors, in both directions |
| Mapper.MappedFrameStart | src/structures/paging/mapper/mod.rs:97-103 | the start address of a mapped frame is aligned to its size |
| Mapper.MappedFrameSize | src/structures/paging/mapper/mod.rs:106-112 | the size of a mapped frame is 4 KiB, 2 MiB or 1 GiB by its variant |
| Mapper.TranslateAddr | src/structures/paging/mapper/mod.rs:51-56 | `translate_addr` is `None` exactly when `translate` does not report a mapping, and otherwise the address at the offset inside the mapped frame |
| Mapper.FrameEndFits | src/structures/paging/frame.rs:24-55 | every frame ends inside the 52-bit physical address space |
| Mapper.ParentTableFlags | src/structures/paging/mapper/mod.rs:185-206 | `map_to` gives newly created parent tables exactly PRESENT, WRITABLE and USER_ACCESSIBLE among the page's flags |
| Mapper.MapTo | src/structures/paging/mapper/mod.rs:185-204 | the default `map_to` hands `map_to_with_table_flags` the parent flags `ParentTableFlags` derives; what it then does over the mapped engine is stated by `MappedTables.DefaultMapToReturns` (it never panics with PRESENT among the flags) and `MappedTables.DefaultMapToThenTranslatePage` (the mapping it made is what `translate_page` finds) |
| Mapper.IdentityPageAddress | src/structures/paging/mapper/mod.rs:626-640 | `identity_map` accepts exactly the frames below 2^48; the page starts at the frame's address in the lower half, and at its sign extension from 2^47 on |
| Mapper.IdentityPage | src/structures/paging/mapper/mod.rs:626-640 | the page `identity_map` maps has the frame's size and starts at the sign-extended frame address |
| Mapper.IdentityAddressAligned | src/structures/paging/mapper/mod.rs:626-640 | the sign-extended frame address is aligned to the frame size, so `containing_address` keeps it |
| Mapper.IdentityMap | src/structures/paging/mapper/mod.rs:626-640 | `identity_map` is `map_to` of the page at `VirtAddr::new` of the frame's start; `Mapper.IdentityPageAddress` states which frames it accepts and where the page lies, and `MappedTables.IdentityMapThenTranslatePage` that after it succeeds the page translates back to the frame |
| Mapper.TryForEachStops | src/structures/paging/mapper/mod.rs:357-384 | `try_for_each` that fails at item `k` ran every earlier item without failure and stopped at `k` with that item's error |
| Mapper.TryForEachPrefix | src/structures/paging/mapper/mod.rs:357-384 | a run that does not fail does not fail on any prefix |
| Mapper.Zip | src/structures/paging/mapper/mod.rs:360-361 | `zip` pairs the `i`-th page with the `i`-th frame, as many pairs as the shorter input |
| Mapper.RunStops | src/structures/paging/mapper/mod.rs:357-384 | a range operation succeeds exactly when no page failed, flushing the whole range, and otherwise reports the range of the pages before the failing one |
| Mapper.MapToRangeStops | src/structures/paging/mapper/mod.rs:346-384 | `map_to_range_with_table_flags` either maps every pair and flushes the whole range, or reports the error of the first pair `map_to_with_table_flags` refused with the range of the pages mapped before it |
| Mapper.MapToRangeWithTableFlags | src/structures/paging/mapper/mod.rs:339-384 | the default `map_to_range_with_table_flags` maps the zipped page and frame items in order over `try_for_each`; its outcome, all pairs mapped with the whole range flushed or the first refused pair with the pages before it, is stated by `Mapper.MapToRangeStops` |
| Mapper.PairStepFails | src/structures/paging/mapper/mod.rs:362-381 | a failing pair step is a failing `map_to_with_table_flags` call |
| Mapper.MapRangeStops | src/structures/paging/mapper/mod.rs:397-437 | the corrected `map_range_with_table_flags` either maps every page to a fresh frame and flushes the whole range, or reports the first failure, an exhausted allocator or a refused mapping, with the flush range of the pages mapped before it |
| Mapper.MapRangeAsWrittenFlushesNothing | src/structures/paging/mapper/mod.rs:397-437 | as written, `map_range_with_table_flags` maps the same pages and fails the same way, but its flush range is always empty: the exhausted range on success, and from the page after the failing one to the failing one on an error |
| Mapper.MapRangeWithTableFlags | src/structures/paging/mapper/mod.rs:397-437 | the corrected `map_range_with_table_flags`: allocate a frame for each page in order and map the page to it; `Mapper.MapRangeStops` states its outcome |
| Mapper.MapRangeWithTableFlagsAsWritten | src/structures/paging/mapper/mod.rs:397-437 | `map_range_with_table_flags` as written, with its flush ranges built from the consumed `pages`; `Mapper.MapRangeAsWrittenFlushesNothing` proves those ranges empty |
| Mapper.UnmapRangeStops | src/structures/paging/mapper/mod.rs:487-515 | `unmap_range` either unmaps every page, deallocating each frame, or stops at the first page `unmap` refuses and reports the pages unmapped before it |
| Mapper.UnmapStepFails | src/structures/paging/mapper/mod.rs:496-509 | a failing step is a refused `unmap`, with the deallocator untouched |
| Mapper.UnmapRange | src/structures/paging/mapper/mod.rs:487-515 | the default `unmap_range`: unmap each page of a clone of the range and deallocate its frame; `Mapper.UnmapRangeStops` states its outcome |
| Mapper.UpdateFlagsRangeStops | src/structures/paging/mapper/mod.rs:545-566 | `update_flags_range` either updates every page or stops at the first page `update_flags` refuses and reports the pages updated before it |
| Mapper.UpdateFlagsRange | src/structures/paging/mapper/mod.rs:545-566 | the default `update_flags_range`: update each page of a clone of the range; `Mapper.UpdateFlagsRangeStops` states its outcome, and the huge-page override's different step is `MappedTables.UpdateFlagsRangeStepAsWritten` |
| MappedTables.SetEntry | src/structures/paging/mapper/mapped_page_table.rs:1413-1423 | writing an entry through `next_table_mut` changes that entry alone: it reads back as written and every other entry and the allocator stay |
| MappedTables.ZeroFrame | src/structures/paging/page_table.rs:232-236 | zeroing the table in a frame leaves all its entries unused and every other table as it was |
| MappedTables.WalkConversionsAgree | src/structures/paging/mapper/mapped_page_table.rs:1516-1553 | the walker's error conversions agree with the direct `FrameError` conversions and keep "not mapped" and "huge page" apart for every target error |
| MappedTables.NextTable | src/structures/paging/mapper/mapped_page_table.rs:1395-1405 | `next_table` stops with `NotMapped` exactly on a non-present entry, with `MappedToHugePage` exactly on a present huge one, and otherwise leads to the table in the entry's frame |
| MappedTables.CreateNextTable | src/structures/paging/mapper/mapped_page_table.rs:1434-1471 | `PageTableWalker::create_next_table`; its cases are stated by `CreateNextTableAllocationFails`, `CreateNextTableInstalls`, `CreateNextTableExisting`, `CreateNextTablePanics`, `CreateNextTableFrame` and `CreateNextTableConsumes` |
| MappedTables.CreateNextTableAllocationFails | src/structures/paging/mapper/mapped_page_table.rs:1434-1471 | on an unused entry with an exhausted allocator, `create_next_table` reports `FrameAllocationFailed` and changes no table |
| MappedTables.CreateNextTableInstalls | src/structures/paging/mapper/mapped_page_table.rs:1434-1471 | on an unused entry with a fresh frame, the entry maps that frame with exactly the insert flags, the new table is zeroed and returned, and nothing else changes |
| MappedTables.CreateNextTableExisting | src/structures/paging/mapper/mapped_page_table.rs:1434-1471 | on a used entry the allocator is not asked and the entry keeps its address and gains the insert flags; it panics exactly when the entry still lacks PRESENT |
| MappedTables.CreateNextTablePanics | src/structures/paging/mapper/mapped_page_table.rs:1434-1471 | `create_next_table` panics exactly when the entry it leaves is not present: a fresh entry with HUGE_PAGE or without PRESENT among the insert flags, or a used entry that stays without PRESENT |
| MappedTables.CreateNextTableFrame | src/structures/paging/mapper/mapped_page_table.rs:1434-1471 | `create_next_table` changes only its entry and the table it creates, and on success the entry leads to the returned table |
| MappedTables.CreateNextTableConsumes | src/structures/paging/mapper/mapped_page_table.rs:1434-1471 | the allocator is asked once for an unused entry and never for a used one |
| MappedTables.Depth | src/structures/paging/mapper/mapped_page_table.rs:48-143 | a 1 GiB page's entry lies one table below the level-4 table, a 2 MiB page's two, a 4 KiB page's three, in a table of the page's leaf level |
| MappedTables.Walk | src/structures/paging/mapper/mapped_page_table.rs:1395-1405 | `n` steps of `next_table` from the level-4 table; it starts at the level-4 table and every later table lies in a frame, and `WalkPrefix` and `WalkFrame` state how walks relate |
| MappedTables.WalkPrefix | src/structures/paging/mapper/mapped_page_table.rs:1395-1405 | a walk that gets somewhere got through every shorter walk |
| MappedTables.WalkFrame | src/structures/paging/mapper/mapped_page_table.rs:1395-1405 | a walk depends only on the entries it reads |
| MappedTables.CreateWalkUnfold | src/structures/paging/mapper/mapped_page_table.rs:48-143 | one more step of a successful parent-table walk is one more successful `create_next_table` |
| MappedTables.CreateWalkReaches | src/structures/paging/mapper/mapped_page_table.rs:48-143 | when the parent tables are pairwise distinct, the tables the creating walk passed through are where a plain walk of the result goes |
| MappedTables.CreateWalkConsumes | src/structures/paging/mapper/mapped_page_table.rs:48-143 | a walk of `n` `create_next_table` steps asks the allocator at most `n` times |
| MappedTables.CreateWalk | src/structures/paging/mapper/mapped_page_table.rs:48-143 | the parent-table walk of `map_to_1gib/2mib/4kib` by `create_next_table`; on success it passes one table per step, the level-4 table first, and `CreateWalkReaches`, `CreateWalkConsumes` and `CreateWalkApart` state what it does |
| MappedTables.CreateWalkApart | src/structures/paging/mapper/mapped_page_table.rs:1434-1471 | when the allocator only hands out frames new to the machine and the page's existing tables are pairwise distinct, a creating walk passes pairwise distinct tables, keeps the promise with its own frames counted as used, and keeps every used entry naming a used frame |
| MappedTables.UniqueAnswersKeepParentsApart | src/structures/paging/frame_alloc.rs:6-12 | the allocator's promise of unique, unused frames gives the distinct parent tables `MapThenTranslatePage`, `MapThenTranslate` and `MapThenUnmap` rely on |
| MappedTables.LeafEntryReads | src/structures/paging/mapper/mapped_page_table.rs:48-143 | the leaf entry `map_to` writes holds the frame's address and the leaf flags (HUGE_PAGE added for a huge page) and names the frame again |
| MappedTables.MapToWithTableFlags | src/structures/paging/mapper/mapped_page_table.rs:48-143 | `map_to_with_table_flags` returns the flush of the page on success and reports `PageAlreadyMapped` with the caller's frame |
| MappedTables.MapToConsumesAtMostDepth | src/structures/paging/mapper/mapped_page_table.rs:48-143 | `map_to` asks the allocator at most once per parent table: three frames for a 4 KiB page, two for 2 MiB, one for 1 GiB |
| MappedTables.CreateWalkNeverPanics | src/structures/paging/mapper/mapped_page_table.rs:146-157 | parent flags with PRESENT and without HUGE_PAGE never make the parent walk panic |
| MappedTables.MapToReturns | src/structures/paging/mapper/mapped_page_table.rs:48-143 | `map_to_with_table_flags` returns without panicking whenever the parent flags hold PRESENT but not HUGE_PAGE and a 4 KiB leaf's flags lack HUGE_PAGE |
| MappedTables.DefaultMapToReturns | src/structures/paging/mapper/mod.rs:185-206 | the default `map_to` with PRESENT in its flags, and no HUGE_PAGE for a 4 KiB page, never panics |
| MappedTables.MapThenTranslatePage | src/structures/paging/mapper/mapped_page_table.rs:48-143 | after `map_to` maps a page, `translate_page` finds the mapped frame, and the page's entry holds the written flags |
| MappedTables.DefaultMapToThenTranslatePage | src/structures/paging/mapper/mod.rs:185-204 | after the default `map_to` succeeds, under an allocator that keeps its uniqueness promise, `translate_page` finds the page mapped to the frame |
| MappedTables.IdentityMapThenTranslatePage | src/structures/paging/mapper/mod.rs:626-640 | after `identity_map` of a frame below 2^48 succeeds, the page at the frame's own address (sign-extended from 2^47 on) translates back to the frame |
| MappedTables.Unmap | src/structures/paging/mapper/mapped_page_table.rs:621-645 | a failed `unmap` changes nothing; a successful one returns a frame of the page's size and the page's flush |
| MappedTables.UnmapReturnsTranslatedFrame | src/structures/paging/mapper/mapped_page_table.rs:1046-1070 | `unmap` succeeds exactly on a present entry of the page's kind whose frame `translate_page` finds, returns that frame and leaves the entry unused |
| MappedTables.UnmapThenNotMapped | src/structures/paging/mapper/mapped_page_table.rs:824-851 | after a successful `unmap`, `translate_page` reports `PageNotMapped` and a second `unmap` fails with `PageNotMapped` |
| MappedTables.MapThenUnmap | src/structures/paging/mapper/mapped_page_table.rs:621-645 | unmapping a page that `map_to` just mapped returns the mapped frame and restores every entry to its state once the parent tables existed |
| MappedTables.SetEntryUndo | src/structures/paging/mapper/mapped_page_table.rs:1413-1423 | writing an entry back to what it held undoes an earlier write to it |
| MappedTables.UpdateFlags | src/structures/paging/mapper/mapped_page_table.rs:674-690 | a failed `update_flags` changes nothing; a successful one returns the page's flush |
| MappedTables.UpdateFlagsFailsLikeTranslatePage | src/structures/paging/mapper/mapped_page_table.rs:1101-1124 | `update_flags` fails exactly where `translate_page` finds no entry, with the matching error, and succeeds on every used entry, even one with a misaligned address |
| MappedTables.UpdateFlagsEffect | src/structures/paging/mapper/mapped_page_table.rs:880-900 | a successful `update_flags` keeps the walk and the entry's address and gives the entry the new flags, with HUGE_PAGE for a huge page |
| MappedTables.UpdateFlagsRangeStepAsWritten | src/structures/paging/mapper/mapped_page_table.rs:693-711 | the entry closure of the huge-page `update_flags_range` overrides: refuses an unused entry with `PageNotMapped` and changes nothing then, and otherwise flushes the page; `RangeStepAsWrittenAgrees` and `RangeStepAsWrittenDropsHugePage` relate it to `update_flags` |
| MappedTables.RangeStepAsWrittenAgrees | src/structures/paging/mapper/mapped_page_table.rs:1127-1145 | for a 4 KiB page, or flags that already hold HUGE_PAGE, the range closure does exactly what `update_flags` does |
| MappedTables.RangeStepAsWrittenDropsHugePage | src/structures/paging/mapper/mapped_page_table.rs:903-920 | on a present huge leaf with present flags lacking HUGE_PAGE, the range closure succeeds where `update_flags` does but leaves the leaf without HUGE_PAGE, so `next_table` then follows it into the huge page's frame, while after `update_flags` it still refuses with `MappedToHugePage` |
| MappedTables.SetFlagsParentEntry | src/structures/paging/mapper/mapped_page_table.rs:713-744 | a failed `set_flags_pN_entry` changes nothing, and a level at or below the page's leaf level reports `ParentEntryHugePage` |
| MappedTables.SetFlagsParentEntryEffect | src/structures/paging/mapper/mapped_page_table.rs:1147-1205 | `set_flags_p4/p3/p2_entry` succeed exactly on a used entry above the page's leaf level that the walk reaches, and then replace that entry's flags and keep its address |
| MappedTables.TranslatePage | src/structures/paging/mapper/mapped_page_table.rs:746-758 | `translate_page` finds a frame of the page's size |
| MappedTables.TranslatePageOfUsedLeaf | src/structures/paging/mapper/mapped_page_table.rs:1207-1221 | on a used entry, `translate_page` finds the frame of the page's size at the entry's address, or reports the address as misaligned |
| MappedTables.TranslatePageOfHugeLeaf | src/structures/paging/mapper/mapped_page_table.rs:968-981 | a present huge leaf gives the frame at its address when aligned, otherwise `InvalidFrameAddress` |
| MappedTables.Translate | src/structures/paging/mapper/mapped_page_table.rs:1226-1283 | every mapping `translate` reports has an offset inside its frame |
| MappedTables.TranslateFromLevel2 | src/structures/paging/mapper/mapped_page_table.rs:1250-1262 | from the level-2 table on, `translate` never finds a 1 GiB frame |
| MappedTables.TranslateFromLevel1 | src/structures/paging/mapper/mapped_page_table.rs:1265-1282 | at the level-1 table, `translate` only finds a 4 KiB frame |
| MappedTables.Level3Translation | src/structures/paging/mapper/mapped_page_table.rs:1235-1248 | at a level-3 table, `translate` finds a 1 GiB frame exactly on a present huge entry, at offset `addr & (2^30 - 1)` |
| MappedTables.Level2Translation | src/structures/paging/mapper/mapped_page_table.rs:1250-1262 | at a level-2 table, `translate` finds a 2 MiB frame exactly on a present huge entry, at offset `addr & (2^21 - 1)` |
| MappedTables.ContainedIndices | src/addr.rs:176-196 | every address inside a page selects the page's own indices down to the page's entry |
| MappedTables.TranslateAgrees4KiB | src/structures/paging/mapper/mapped_page_table.rs:1207-1283 | for a 4 KiB page, `translate` of any address inside it and `translate_page` agree: one finds the page's frame exactly when the other finds a 4 KiB frame, at the address's offset and with the entry's flags |
| MappedTables.TranslateAgrees2MiB | src/structures/paging/mapper/mapped_page_table.rs:968-981 | for a 2 MiB page, `translate` of any address inside it finds a 2 MiB frame exactly when the page's entry is present and huge, and then `translate_page` agrees on the frame |
| MappedTables.TranslateAgrees1GiB | src/structures/paging/mapper/mapped_page_table.rs:746-758 | for a 1 GiB page, `translate` of any address inside it finds a 1 GiB frame exactly when the page's entry is present and huge, and then `translate_page` agrees on the frame |
| MappedTables.TranslateOfMappedPage | src/structures/paging/mapper/mapped_page_table.rs:1226-1283 | when `translate_page` finds a frame for a present entry, `translate` of every address inside the page finds the same frame at the address's offset |
| MappedTables.MapThenTranslate | src/structures/paging/mapper/mapped_page_table.rs:48-143 | after `map_to` maps a page with PRESENT, `translate` of every address inside it finds the mapped frame, at its offset, with the written flags |
| MappedTables.LeafWriteKeepsWalk | src/structures/paging/mapper/mapped_page_table.rs:1413-1423 | writing a page's own entry leaves the walk to it as it was and the entry reads back as written |
| MappedCleanUp.PageMax | src/structures/paging/mapper/mapped_page_table.rs:1341 | `max` on pages is one of the two and starts at or above both |
| MappedCleanUp.PageMin | src/structures/paging/mapper/mapped_page_table.rs:1343 | `min` on pages is one of the two and starts at or below both |
| MappedCleanUp.TableAlignmentIsPowerOfTwo | src/structures/paging/mapper/mapped_page_table.rs:1321-1324 | the table span `align_down` receives is a power of two, so its assertion holds |
| MappedCleanUp.EntryRange | src/structures/paging/mapper/mapped_page_table.rs:1338-1343 | the part of the range one entry covers is a range of 4 KiB pages inside the original range |
| MappedCleanUp.CleanUpTable | src/structures/paging/mapper/mapped_page_table.rs:1310-1362 | the inner `clean_up` leaves the allocator alone, changes entries only to unused, and answers `true` exactly when the range is non-empty and the table is now entirely unused |
| MappedCleanUp.CleanUpEntries | src/structures/paging/mapper/mapped_page_table.rs:1328-1358 | the loop over a table's entries changes entries only to unused |
| MappedCleanUp.CleanUpEntry | src/structures/paging/mapper/mapped_page_table.rs:1334-1357 | one round of the loop changes entries only to unused |
| MappedCleanUp.CleanUpAddrRange | src/structures/paging/mapper/mapped_page_table.rs:1303-1372 | `clean_up_addr_range` does nothing on an empty range and otherwise changes entries only to unused |
| MappedCleanUp.WholeRange | src/structures/paging/mapper/mapped_page_table.rs:1288-1301 | `clean_up` covers every 4 KiB page from address 0 to `0xffff_ffff_ffff_f000`, and that range is non-empty |
| MappedCleanUp.CleanUp | src/structures/paging/mapper/mapped_page_table.rs:1288-1301 | `clean_up` is `clean_up_addr_range` over `WholeRange`, so `CleanUpAddrRangeCleansUp` and `CleanUpSettles.CleanUpAddrRangeSettles` state what it does |
| MappedCleanUp.CleansUpNothing | src/structures/paging/mapper/mod.rs:864-904 | leaving everything as it was is a clean-up |
| MappedCleanUp.CleansUpOne | src/structures/paging/mapper/mapped_page_table.rs:1350-1354 | clearing one entry that names a 4 KiB frame and deallocating that frame is a clean-up |
| MappedCleanUp.CleansUpChains | src/structures/paging/mapper/mod.rs:864-904 | two clean-ups in a row are one clean-up |
| MappedCleanUp.CleanUpTableCleansUp | src/structures/paging/mapper/mapped_page_table.rs:1310-1362 | the inner `clean_up` clears only entries that named a 4 KiB frame, and deallocates exactly the frames of the entries it cleared |
| MappedCleanUp.CleanUpEntriesCleansUp | src/structures/paging/mapper/mapped_page_table.rs:1328-1358 | the same for the loop over a table's entries |
| MappedCleanUp.CleanUpEntryCleansUp | src/structures/paging/mapper/mapped_page_table.rs:1334-1357 | the same for one round of that loop |
| MappedCleanUp.CleanUpAddrRangeCleansUp | src/structures/paging/mapper/mapped_page_table.rs:1303-1372 | `clean_up_addr_range` clears only entries that named a 4 KiB frame, hands the deallocator exactly the frames of the cleared entries, and every table frame it hands over holds no used entry |
| OffsetTables.FrameToPointer | src/structures/paging/mapper/mapped_page_table/offset_page_table.rs:73-78 | `frame_to_pointer` is the offset plus the frame's start address: the sum itself when canonical, and in general the address that agrees with the sum in bits 0..47 |
| OffsetTables.PointerNeedsLow48 | src/structures/paging/mapper/mapped_page_table/offset_page_table.rs:73-78 | only physical addresses below 2^48 have a pointer, since `VirtAddr + u64` panics otherwise |
| OffsetTables.PointerToPhys | src/structures/paging/mapper/mapped_page_table/offset_page_table.rs:5-17 | the physical address a pointer of the mapping stands for lies below 2^48 |
| OffsetTables.FrameToPointerInverse | src/structures/paging/mapper/mapped_page_table/offset_page_table.rs:73-78 | subtracting the offset from a frame's pointer gives back the frame's start address |
| OffsetTables.FrameToPointerInjective | src/structures/paging/mapper/mapped_page_table/offset_page_table.rs:73-78 | two frames get the same pointer exactly when they start at the same address, so no two page tables share one |
| OffsetTables.PhysOffsetRoundTrip | src/structures/paging/mapper/mapped_page_table/offset_page_table.rs:26-37 | `phys_offset` returns the offset given to `from_phys_offset`, and the level-4 table is the one given |
| OffsetTables.MemoryThrough | src/structures/paging/mapper/mapped_page_table/offset_page_table.rs:73-78 | the mapper sees in a frame exactly the table virtual memory holds at that frame's pointer, for every frame that has one |
| OffsetTables.MachineOf | src/structures/paging/mapper/mapped_page_table/offset_page_table.rs:26-32 | an offset page table is the mapper engine over the tables seen through the offset, with the given level-4 table and allocator |
| OffsetTables.ReadsThroughPointer | src/structures/paging/mapper/mapped_page_table.rs:1395-1405 | every table the engine reads in a frame is the one at the frame's pointer, or a zeroed table where virtual memory holds none |
| OffsetTables.WriteThroughPointer | src/structures/paging/mapper/mapped_page_table.rs:1413-1423 | a write the engine makes to a table in a frame is a write to the one table at that frame's pointer |
| Selectors.RingFromBits | src/registers/segmentation.rs:93-96 | the ring `rpl` decodes from the two low bits is the one whose number they hold, so `from_u16` never meets a value above 3 |
| Selectors.RingRoundTrip | src/registers/segmentation.rs:78-96 | encoding a ring as `rpl as u16` and decoding it with `from_u16` gives the ring back |
| Selectors.Index | src/registers/segmentation.rs:86-90 | `index` is at most 2^13 - 1, the width of the index field |
| Selectors.NewSelector | src/registers/segmentation.rs:77-80 | `new` keeps the index modulo 2^13 and the ring, and leaves the table indicator clear |
| Selectors.IndexOfNew | src/registers/segmentation.rs:77-90 | every index below 2^13 reads back unchanged from a new selector |
| Selectors.NullSelector | src/registers/segmentation.rs:84 | `NULL` is the all-zero selector, with index 0 and ring 0 |
| Selectors.SetRpl | src/registers/segmentation.rs:98-102 | `set_rpl` makes the ring the given one and keeps every bit from bit 2 up |
| Selectors.SetRplKeepsIndex | src/registers/segmentation.rs:86-102 | setting the ring keeps the index |
| Selectors.SelectorRoundTrip | src/registers/segmentation.rs:77-96 | rebuilding a selector from its index and ring gives it back exactly when its table-indicator bit is clear |
| Selectors.SetRplSame | src/registers/segmentation.rs:93-102 | setting the ring a selector already has changes nothing |
| Selectors.SetRplTwice | src/registers/segmentation.rs:98-102 | setting the ring twice has the effect of the second call alone |
| XControl.ConstantsAsWritten | src/registers/xcontrol.rs:15-53 | the flag constants, the MPX and AVX-512 groups and `all()` are the bitflags definition, and the reserved bits are the complement of `all()` |
| XControl.CheckFlags | src/registers/xcontrol.rs:106-129 | the assertions of `write` all pass exactly when x87 is on, AVX has SSE, the MPX pair goes together and the AVX-512 triple goes together with AVX; otherwise the first failing one is named |
| XControl.Write | src/registers/xcontrol.rs:101-134 | `write` panics exactly on an inconsistent combination; otherwise the stored word keeps the register's reserved bits and its flag bits are the flags |
| XControl.Read | src/registers/xcontrol.rs:71-74 | `read` keeps only defined flags, exactly those set in the register |
| XControl.WriteThenRead | src/registers/xcontrol.rs:71-134 | reading after a successful `write` of defined flags gives those flags back |
| XControl.ChecksOnExamples | src/registers/xcontrol.rs:106-129 | x87 alone and x87 with SSE and AVX are accepted; each of the four other assertions rejects a concrete combination |
| Gdt.LinuxKernelDefaults | src/structures/gdt.rs:372-382 | the six preset descriptor words are the Linux kernel's flat segment descriptors |
| Gdt.Dpl | src/structures/gdt.rs:285-293 | `dpl` is the ring whose number bits 45..46 of the descriptor's first word hold |
| Gdt.DescriptorDpl | src/structures/gdt.rs:433-444 | the kernel segments are ring 0 and the user segments ring 3 |
| Gdt.TssSegmentDecodes | src/structures/gdt.rs:343-366 | the TSS descriptor holds the pointer as its base, the TSS size less one as its limit, type 0b1001 and PRESENT, and has ring 0 |
| Gdt.NewGdt | src/structures/gdt.rs:56-61 | `new` has eight zero slots with only the null descriptor in use |
| Gdt.AsRawSlice | src/structures/gdt.rs:92-94 | `as_raw_slice` is exactly the slots in use |
| Gdt.FromRawSlice | src/structures/gdt.rs:70-86 | `from_raw_slice` panics exactly on more than eight words; otherwise the words fill the first slots, all in use, and the rest are zero |
| Gdt.RawSliceRoundTrip | src/structures/gdt.rs:70-94 | a table built from a slice of at most eight words hands that slice back |
| Gdt.FromAsRawSlice | src/structures/gdt.rs:70-94 | a table rebuilt from its own raw slice has the same slots in use and zeros after them |
| Gdt.Push | src/structures/gdt.rs:154-159 | `push` appends the word to the slots in use, keeps the later slots and returns the old length |
| Gdt.AddEntry | src/structures/gdt.rs:101-118 | `add_entry` panics exactly when the descriptor's one or two words do not fit; otherwise they follow the slots in use and the selector is `new(old length, dpl)` |
| Gdt.AddEntrySelector | src/structures/gdt.rs:101-118 | the returned selector indexes the descriptor's first word, requests its privilege level and names the GDT |
| Gdt.SixEntryGdt | src/structures/gdt.rs:385-395 | the tests' table of the null descriptor and five user segments has six slots in use |
| Gdt.PushMaxSegments | src/structures/gdt.rs:405-430 | two user segments fill a six-entry table and a third panics; a TSS fills it too, but not once only one slot is free |
| Idt.Minimal | src/structures/idt.rs:839-842 | `minimal` is a non-present gate with interrupts disabled, ring 0, no stack index and the must-be-one bits 9..11 set |
| Idt.SetPresent | src/structures/idt.rs:845-849 | `set_present` makes bit 15 the given value and keeps every other bit |
| Idt.DisableInterrupts | src/structures/idt.rs:853-857 | `disable_interrupts` clears bit 8 exactly when disabling and keeps every other bit |
| Idt.SetPrivilegeLevel | src/structures/idt.rs:861-865 | `set_privilege_level` makes bits 13..14 the ring and keeps every other bit |
| Idt.SetStackIndex | src/structures/idt.rs:880-886 | `set_stack_index` succeeds exactly for indices up to 6, stores `index + 1` in bits 0..2 and keeps every other bit; above 6 it panics |
| Idt.SetPresentKeepsFields | src/structures/idt.rs:845-849 | `set_present` leaves the interrupt, privilege and stack fields as they were |
| Idt.DisableInterruptsKeepsFields | src/structures/idt.rs:853-857 | `disable_interrupts` leaves the present, privilege and stack fields as they were |
| Idt.SetPrivilegeLevelKeepsFields | src/structures/idt.rs:861-865 | `set_privilege_level` leaves the present, interrupt and stack fields as they were |
| Idt.SetStackIndexKeepsFields | src/structures/idt.rs:880-886 | `set_stack_index` leaves the present, interrupt and privilege fields as they were |
| Idt.Missing | src/structures/idt.rs:729-739 | `missing` is a non-present entry with minimal options, a null handler, a zero selector and a zero reserved word |
| Idt.RawAddrIsSum | src/structures/idt.rs:772-779 | the address `handler_addr` joins is the low, middle and high parts weighted by 1, 2^16 and 2^32 |
| Idt.SetHandlerAddr | src/structures/idt.rs:755-768 | after `set_handler_addr`, `handler_addr` returns the address given, the selector is the CS value, the entry is present and every other option bit and the reserved word are kept |
| Idt.HandlerAddr | src/structures/idt.rs:772-779 | `handler_addr` joins the three pointer parts (`Idt.RawAddrIsSum`) and sign-extends them; `Idt.SetHandlerAddr` states that it returns the address `set_handler_addr` stored |
| Idt.SetHandlerAddrTwice | src/structures/idt.rs:755-779 | setting the handler twice has the effect of the second call alone |
| Idt.SetPresentTwice | src/structures/idt.rs:845-849 | marking an entry present twice is marking it once |
| Idt.NewTable | src/structures/idt.rs:446-477 | `new`, and so `reset`, puts a non-present entry with a null handler at every vector |
| Idt.RouteFollowsKinds | src/structures/idt.rs:576-598 | indexing reaches an entry exactly at the vectors whose field holds a plain handler or a user interrupt, and otherwise panics with the message of the vector's kind: reserved, with error code, diverging, or past the table |
| Idt.Route | src/structures/idt.rs:576-598 | the vector-to-entry `match` of `Index::index`; `Idt.RouteFollowsKinds` states that it reaches an entry exactly where the vector's field is a plain handler or a user interrupt |
| Idt.Get | src/structures/idt.rs:576-598 | `index` returns the entry at the vector exactly for plain handlers and user interrupts, and otherwise the panic of the vector's kind |
| Idt.Set | src/structures/idt.rs:608-630 | `index_mut` succeeds at exactly the vectors `index` does and panics the same way at the others |
| Idt.SetThenGet | src/structures/idt.rs:568-631 | after writing an entry through `index_mut`, `index` at that vector returns it and every other vector reads as before |
| Idt.SliceBounds | src/structures/idt.rs:526-545 | the slice bounds are accepted exactly when both ends are at most 256 and the start is at least 32, and are then the normalised ends |
| Idt.Slice | src/structures/idt.rs:550-565 | `slice` succeeds exactly on accepted bounds that do not decrease, and then returns the user entries between them |
| Idt.FullUserSlice | src/structures/idt.rs:526-555 | `slice(32..)` is every user interrupt, and `slice(..)` panics because it starts among the exception vectors |
| Idt.NewErrorCode | src/structures/idt.rs:1076-1082 | `SelectorErrorCode::new` accepts exactly the values below 2^16, unchanged |
| Idt.NewTruncateErrorCode | src/structures/idt.rs:1085-1089 | `new_truncate` keeps the low 16 bits, so it is the identity below 2^16 |
| Idt.NewTruncateAgrees | src/structures/idt.rs:1076-1089 | `new` and `new_truncate` agree wherever `new` accepts, and a truncated code is always accepted |
| Idt.ErrorIndex | src/structures/idt.rs:1109-1111 | `index` is bits 3..15 of the code, below 2^13 |
| Idt.ErrorCodeFields | src/structures/idt.rs:1093-1111 | a code is determined by its external bit, table bits and index, and any such triple is the fields of exactly the code built from it |
| Idt.IsNullFields | src/structures/idt.rs:1093-1116 | `is_null` holds exactly for an internal code naming the GDT with index 0 |
| Debug.NewRegisterNumber | src/registers/debug.rs:83-91 | `DebugAddressRegisterNumber::new` accepts exactly 0..3, and `get` of the result is the number given |
| Debug.RegisterNumberRoundTrip | src/registers/debug.rs:83-101 | `new(get(n))` is `n` for every register |
| Debug.Trap | src/registers/debug.rs:155-162 | `Dr6Flags::trap` of breakpoint `n` is bit `n` |
| Debug.TrapsPartitionTrap | src/registers/debug.rs:114-162 | the four trap flags are disjoint, together make `TRAP`, and share no bit with the other DR6 flags |
| Debug.LocalEnable | src/registers/debug.rs:224-231 | `local_breakpoint_enable` of breakpoint `n` is bit `2n` |
| Debug.GlobalEnable | src/registers/debug.rs:234-241 | `global_breakpoint_enable` of breakpoint `n` is bit `2n + 1` |
| Debug.EnablesPartition | src/registers/debug.rs:175-241 | the eight enable flags are defined, pairwise disjoint and together fill bits 0..7 |
| Debug.ConditionFromBits | src/registers/debug.rs:269-277 | `BreakpointCondition::from_bits` accepts exactly the two-bit values, and the result encodes back to the value |
| Debug.ConditionRoundTrip | src/registers/debug.rs:253-277 | decoding a condition's code gives the condition back |
| Debug.SizeFromBits | src/registers/debug.rs:315-323 | `BreakpointSize::from_bits` accepts exactly the two-bit values, and the result encodes back to the value |
| Debug.SizeRoundTrip | src/registers/debug.rs:288-323 | decoding a size's code gives the size back, with 8 bytes as code 2 and 4 bytes as code 3 |
| Debug.NewSize | src/registers/debug.rs:304-312 | `BreakpointSize::new` accepts exactly 1, 2, 4 and 8 bytes, and the result is that many bytes long |
| Debug.SizeBytesRoundTrip | src/registers/debug.rs:304-312 | `new` of a size's byte count gives the size back |
| Debug.ConditionLsb | src/registers/debug.rs:279-282 | the condition field of breakpoint `n` starts at bit `16 + 4n` |
| Debug.SizeLsb | src/registers/debug.rs:325-328 | the size field of breakpoint `n` starts at bit `18 + 4n` |
| Debug.FieldsPartition | src/registers/debug.rs:279-328 | the eight two-bit fields are pairwise disjoint and together fill bits 16..31 |
| Debug.ConstantsAsWritten | src/registers/debug.rs:347-351 | `valid_bits` is `(1 << 32) - (1 << 16)` joined with `Dr7Flags::all()`, and the two parts do not overlap |
| Debug.FromBits | src/registers/debug.rs:355-361 | `Dr7Value::from_bits` accepts exactly the words with no bit outside the valid bits, unchanged |
| Debug.FromBitsTruncate | src/registers/debug.rs:365-369 | `from_bits_truncate` gives a valid value that agrees with the word on every valid bit |
| Debug.TruncateAgrees | src/registers/debug.rs:355-369 | `from_bits` and `from_bits_truncate` agree wherever `from_bits` accepts, and a truncated word is always accepted |
| Debug.FromFlags | src/registers/debug.rs:340-344 | `From<Dr7Flags>` gives a valid value whose flags are the defined ones among the given flags |
| Debug.Flags | src/registers/debug.rs:389-391 | `flags` names only defined flags |
| Debug.InsertFlagsAsWritten | src/registers/debug.rs:395-397 | `insert_flags` as written sets every bit of the flags word, retained undefined bits included, and keeps the rest |
| Debug.ToggleFlagsAsWritten | src/registers/debug.rs:407-409 | `toggle_flags` as written flips every bit of the flags word and keeps the rest |
| Debug.RetainedFlagBreaksValue | src/registers/debug.rs:395-409 | inserting or toggling a retained undefined flag (bit 40) into a valid value makes it invalid, and `Dr7::write` then stores the bit into a reserved position |
| Debug.InsertFlags | src/registers/debug.rs:395-397 | `insert_flags` restricted to defined flags sets them, keeps every other bit and keeps a value valid |
| Debug.InsertFlagsAgrees | src/registers/debug.rs:395-397 | for flags without undefined bits the restricted `insert_flags` is the one as written |
| Debug.RemoveFlags | src/registers/debug.rs:401-403 | `remove_flags` keeps a value valid |
| Debug.RemoveFlagsClears | src/registers/debug.rs:401-403 | after `remove_flags` none of the flags' bits is set |
| Debug.RemoveFlagsKeeps | src/registers/debug.rs:401-403 | `remove_flags` keeps every bit outside the flags |
| Debug.ToggleFlags | src/registers/debug.rs:407-409 | `toggle_flags` restricted to defined flags flips them, keeps every other bit and keeps a value valid |
| Debug.ToggleFlagsAgrees | src/registers/debug.rs:407-409 | for flags without undefined bits the restricted `toggle_flags` is the one as written |
| Debug.ToggleTwice | src/registers/debug.rs:407-409 | toggling the same flags twice gives the value back |
| Debug.SetFlags | src/registers/debug.rs:413-419 | `set_flags` keeps a value valid and leaves the flags all set when inserting and all clear when removing |
| Debug.Condition | src/registers/debug.rs:422-425 | `condition` decodes the field of breakpoint `n`; its `expect` never fires |
| Debug.SetCondition | src/registers/debug.rs:428-431 | after `set_condition`, `condition` of that breakpoint is the one given and no bit outside its field changed |
| Debug.SetConditionKeepsFlags | src/registers/debug.rs:428-431 | `set_condition` keeps the flags |
| Debug.SetConditionKeepsValid | src/registers/debug.rs:428-431 | `set_condition` keeps a value valid, and an invalid one invalid |
| Debug.SetConditionKeepsSizes | src/registers/debug.rs:428-437 | `set_condition` keeps every size field |
| Debug.SetConditionKeepsConditions | src/registers/debug.rs:422-431 | `set_condition` keeps the conditions of the other breakpoints |
| Debug.Size | src/registers/debug.rs:434-437 | `size` decodes the field of breakpoint `n`; its `expect` never fires |
| Debug.SetSize | src/registers/debug.rs:440-443 | after `set_size`, `size` of that breakpoint is the one given and no bit outside its field changed |
| Debug.SetSizeKeepsFlags | src/registers/debug.rs:440-443 | `set_size` keeps the flags |
| Debug.SetSizeKeepsValid | src/registers/debug.rs:440-443 | `set_size` keeps a value valid, and an invalid one invalid |
| Debug.SetSizeKeepsConditions | src/registers/debug.rs:422-443 | `set_size` keeps every condition field |
| Debug.SetSizeKeepsSizes | src/registers/debug.rs:434-443 | `set_size` keeps the sizes of the other breakpoints |
| Debug.Write | src/registers/debug.rs:499-505 | `Dr7::write` of a valid value keeps the register's reserved bits and stores the value in the valid bits |
| Debug.WriteThenRead | src/registers/debug.rs:479-505 | reading DR7 after writing a valid value gives the value back |
| MappedIter.MappedPageAdd | src/structures/paging/mapper/mapped_page_table/iter.rs:26-60 | `MappedPageItem + n` moves page and frame on by `n` pages of the item's size and keeps the flags; a page sum that leaves the lower half is sign-extended, as `VirtAddr + u64` does |
| MappedIter.MappedPageAddCompose | src/structures/paging/mapper/mapped_page_table/iter.rs:26-60 | adding `a` and then `b` is adding `a + b`, as long as the steps stay on one side of the canonical hole |
| MappedIter.CountersAt | src/structures/paging/mapper/mapped_page_table/iter.rs:72-95 | the four index counters are the base-512 digits of a position in the address space, and every position up to the end has its counters |
| MappedIter.CountersAtPos | src/structures/paging/mapper/mapped_page_table/iter.rs:72-95 | every valid counter state is the digit form of its own position |
| MappedIter.IndexOf | src/structures/paging/mapper/mapped_page_table/iter.rs:101-140 | `p4_index` to `p1_index` answer `None` exactly at counter 512, and otherwise the counter as an index |
| MappedIter.IncP4 | src/structures/paging/mapper/mapped_page_table/iter.rs:146-158 | `increment_p4_index` moves to the start of the next level-4 slot, zeroes the lower counters and answers `None` exactly when it reaches the end |
| MappedIter.IncP3 | src/structures/paging/mapper/mapped_page_table/iter.rs:164-175 | `increment_p3_index` moves to the start of the next level-3 slot and answers `None` exactly when the level-3 counter runs out |
| MappedIter.IncP2 | src/structures/paging/mapper/mapped_page_table/iter.rs:181-191 | `increment_p2_index` moves to the start of the next level-2 slot and answers `None` exactly when the level-2 counter runs out |
| MappedIter.IncP1 | src/structures/paging/mapper/mapped_page_table/iter.rs:196-206 | `increment_p1_index` moves the position on by one slot and answers `None` exactly when the level-1 counter runs out |
| MappedIter.ItemOf | src/structures/paging/mapper/mapped_page_table/iter.rs:240-247 | the item built from a leaf entry has the page, the entry's flags and the frame containing the entry's address |
| MappedIter.Start | src/structures/paging/mapper/mapped_page_table/iter.rs:84-95 | `iter` starts with every counter at zero, position 0 |
| MappedIter.Scan1 | src/structures/paging/mapper/mapped_page_table/iter.rs:283-303 | the level-1 loop of `next_forward` always moves the position on |
| MappedIter.Scan2 | src/structures/paging/mapper/mapped_page_table/iter.rs:261-281 | the level-2 loop of `next_forward` always moves the position on |
| MappedIter.Scan3 | src/structures/paging/mapper/mapped_page_table/iter.rs:231-257 | the level-3 loop of `next_forward` always moves the position on |
| MappedIter.NextForward | src/structures/paging/mapper/mapped_page_table/iter.rs:212-304 | `next_forward` moves the position on before the end and does nothing at the end |
| MappedIter.Next | src/structures/paging/mapper/mapped_page_table/iter.rs:310-319 | `next` never moves back, moves on whenever it yields, and answers `None` only at the end |
| MappedIter.ItemAtByTables | src/structures/paging/mapper/mapped_page_table/iter.rs:212-304 | the leaf the iterator's digit walk reads at a position is the one the mapper's own walk to that position's page finds |
| MappedIter.Scan1Finds | src/structures/paging/mapper/mapped_page_table/iter.rs:283-303 | the level-1 loop yields the first present entry from the current position, skipping only empty slots |
| MappedIter.Block2Huge | src/structures/paging/mapper/mapped_page_table/iter.rs:267-279 | a huge level-2 entry is the 2 MiB item at its position and no other item lies under it |
| MappedIter.Scan2Finds | src/structures/paging/mapper/mapped_page_table/iter.rs:261-281 | the level-2 loop yields the first item from the current position, skipping only empty slots |
| MappedIter.Block3Huge | src/structures/paging/mapper/mapped_page_table/iter.rs:237-255 | a huge level-3 entry is the 1 GiB item at its position and no other item lies under it |
| MappedIter.Scan3Finds | src/structures/paging/mapper/mapped_page_table/iter.rs:231-257 | the level-3 loop yields the first item from the current position, skipping only empty slots |
| MappedIter.Block4Empty | src/structures/paging/mapper/mapped_page_table/iter.rs:215-227 | an unused or huge level-4 entry holds no item, so skipping it loses nothing |
| MappedIter.NextForwardFinds | src/structures/paging/mapper/mapped_page_table/iter.rs:212-304 | `next_forward` yields the first item from the current position, or none up to where it stops |
| MappedIter.NextFinds | src/structures/paging/mapper/mapped_page_table/iter.rs:310-319 | `next` yields the first item from the current position, and answers `None` only once no item remains |
| MappedIter.ItemsEnumerate | src/structures/paging/mapper/mapped_page_table/iter.rs:307-320 | from any reachable state the iterator yields exactly the remaining mapped leaves, in address order |
| MappedIter.Items | src/structures/paging/mapper/mapped_page_table/iter.rs:307-320 | the items `next` yields from a state until it answers `None`; `MappedIter.ItemsEnumerate` and `MappedIter.IterYieldsEveryMappedPage` state which they are |
| MappedIter.IterYieldsEveryMappedPage | src/structures/paging/mapper/mapped_page_table/iter.rs:84-320 | iterating a fresh iterator yields every page the tables map through a non-huge level-4 entry, each once, in address order |
| MappedRangeIter.ItemTryFrom | src/structures/paging/mapper/mapped_page_table/range_iter.rs:61-126 | `try_from` succeeds exactly when both ends have one size, the page range counts as many pages as the frame range counts frames, and the flags agree; the range then runs from the start page to the end page, mapped from the start frame with its flags |
| MappedRangeIter.FrameRangeAsWritten | src/structures/paging/mapper/mapped_page_table/range_iter.rs:31-35 | `frame_range` as written ends at `frame_start + len() - 1`, one frame before `frame_start + len()` |
| MappedRangeIter.FrameRange | src/structures/paging/mapper/mapped_page_table/range_iter.rs:31-35 | `frame_range` computed without the intermediate frame past the end starts at the first frame and holds as many frames as the range has pages |
| MappedRangeIter.FrameRangeAgrees | src/structures/paging/mapper/mapped_page_table/range_iter.rs:31-35 | wherever `frame_range` as written does not panic, the corrected one exists and gives the same range |
| MappedRangeIter.FrameRangePanicsAtTop | src/structures/paging/mapper/mapped_page_table/range_iter.rs:31-35 | a one-page range mapped to the last frame of physical memory panics in `frame_range` as written, while the corrected one gives that frame |
| MappedRangeIter.RunRange | src/structures/paging/mapper/mapped_page_table/range_iter.rs:61-126 | a run of contiguous items converts without error to a range as long as the run, whose frame range goes from the run's first frame to its last, and which is identity-mapped exactly when every item is |
| MappedRangeIter.PlusOneIsAdjacent | src/structures/paging/mapper/mapped_page_table/range_iter.rs:171 | `end + 1` is the item that continues `end` (next page, next frame, same size and flags), wherever the page sum stays canonical |
| MappedRangeIter.Runs | src/structures/paging/mapper/mapped_page_table/range_iter.rs:166-185 | the maximal runs of a sequence of items are non-empty and start with its first item |
| MappedRangeIter.RunsFlatten | src/structures/paging/mapper/mapped_page_table/range_iter.rs:166-185 | the runs, put back together, are the sequence of items |
| MappedRangeIter.RunsAreChains | src/structures/paging/mapper/mapped_page_table/range_iter.rs:166-185 | every run is contiguous |
| MappedRangeIter.RunsAreMaximal | src/structures/paging/mapper/mapped_page_table/range_iter.rs:166-185 | no run continues into the next one |
| MappedRangeIter.ExtendRuns | src/structures/paging/mapper/mapped_page_table/range_iter.rs:169-179 | the inner loop stops at the last item of the first run and leaves exactly the rest of the runs |
| MappedRangeIter.Next | src/structures/paging/mapper/mapped_page_table/range_iter.rs:166-185 | `next` answers `None` exactly when nothing is pending, and otherwise consumes at least one item |
| MappedRangeIter.NextRun | src/structures/paging/mapper/mapped_page_table/range_iter.rs:166-185 | `next` yields the range of the first run of what is pending and leaves the rest |
| MappedRangeIter.RangesAreRuns | src/structures/paging/mapper/mapped_page_table/range_iter.rs:166-185 | the ranges `next` yields are the ranges of the maximal runs of what is pending, in order |
| MappedRangeIter.RangeIterYieldsRuns | src/structures/paging/mapper/mapped_page_table/range_iter.rs:150-185 | `range_iter` yields exactly the ranges of the maximal contiguous runs of the mapped pages, in address order |
| MappedRangeIter.ExtendAgrees | src/structures/paging/mapper/mapped_page_table/range_iter.rs:169-179 | the inner loop as written agrees with the corrected one when no item's `+ 1` wraps |
| MappedRangeIter.NextAgrees | src/structures/paging/mapper/mapped_page_table/range_iter.rs:166-185 | `next` as written agrees with the corrected one when no pending item's `+ 1` wraps |
| MappedRangeIter.ExtendAsWritten | src/structures/paging/mapper/mapped_page_table/range_iter.rs:169-179 | the inner loop of `next` as written; `ExtendAgrees` relates it to the corrected loop and `HoleRunPanics` and `TopFrameRunPanics` show where it panics |
| MappedRangeIter.NextAsWritten | src/structures/paging/mapper/mapped_page_table/range_iter.rs:166-185 | `next` as written; `NextAgrees` relates it to the corrected `next`, which `RangeIterYieldsRuns` describes |
| MappedRangeIter.HoleRunPanics | src/structures/paging/mapper/mapped_page_table/range_iter.rs:166-185 | two consecutive mappings on either side of the canonical hole make `next` as written panic in `try_from(..).unwrap()` |
| MappedRangeIter.HoleSignExtends | src/structures/paging/mapper/mapped_page_table/range_iter.rs:171 | across the hole, `end + 1` sign-extends to the first upper-half page, so the loop continues the run |
| MappedRangeIter.HoleCountsDiffer | src/structures/paging/mapper/mapped_page_table/range_iter.rs:61-126 | across the hole, `try_from` fails: the page count spans the hole, the frame count is two |
| MappedRangeIter.HoleRunSplits | src/structures/paging/mapper/mapped_page_table/range_iter.rs:166-185 | the corrected `next` yields the two sides of the hole as two ranges |
| MappedRangeIter.HoleExample | src/structures/paging/mapper/mapped_page_table/range_iter.rs:166-185 | the last lower-half page and the first upper-half page mapped to frames 0 and 1 lie across the hole |
| MappedRangeIter.TopFrameRunPanics | src/structures/paging/mapper/mapped_page_table/range_iter.rs:166-185 | an item mapped to the last frame of physical memory makes `next` as written panic on `end + 1`, while the corrected `next` yields it as its own range |
| RecursiveTables.P3PageReaches | src/structures/paging/mapper/recursive_page_table.rs:816-823 | on a machine recursively mapped at `r`, the processor maps `p3_page` to the frame named by the page's level-4 entry, and faults when that entry is not present |
| RecursiveTables.P2PageReaches | src/structures/paging/mapper/recursive_page_table.rs:831-838 | the processor maps `p2_page` to the frame named by the level-3 entry on the page's walk, or faults when it is not present |
| RecursiveTables.P1PageReaches | src/structures/paging/mapper/recursive_page_table.rs:846-853 | the processor maps `p1_page` to the frame named by the level-2 entry on the page's walk, or faults when it is not present |
| RecursiveTables.TablePageReaches | src/structures/paging/mapper/recursive_page_table.rs:811-853 | the recursive page for level `n` reaches exactly the table that the engine's walk reaches after `n` steps |
| RecursiveTables.NewAcceptsRecursiveTable | src/structures/paging/mapper/recursive_page_table.rs:51-69 | `new` accepts a level-4 table mapped at its recursive address and returns that index, and the processor maps that address to the root frame |
| RecursiveTables.NewOkMeansRecursive | src/structures/paging/mapper/recursive_page_table.rs:51-69 | whenever `new` accepts, the machine is recursively mapped at the returned index, and the table's address is the recursive page of that index |
| RecursiveTables.New | src/structures/paging/mapper/recursive_page_table.rs:51-69 | `RecursivePageTable::new`: `NewAcceptsRecursiveTable` and `NewOkMeansRecursive` state that it accepts exactly the recursively mapped level-4 tables |
| RecursiveTables.NewUnchecked | src/structures/paging/mapper/recursive_page_table.rs:79-84 | `new_unchecked` keeps the recursive index it is given |
| RecursiveTables.CheckParent | src/structures/paging/mapper/recursive_page_table.rs:723-753 | an `is_unused` test refuses only a zero entry, with `PageNotMapped`; a `frame()` test refuses exactly the entries `frame()` rejects, with the matching walk error |
| RecursiveTables.RecWalkByFrameAgrees | src/structures/paging/mapper/recursive_page_table.rs:581-616 | walking the parents through the recursive pages with `frame()` never faults and gives the engine's walk, error for error and table for table |
| RecursiveTables.RecUnmap | src/structures/paging/mapper/recursive_page_table.rs:581-616 | an error leaves the machine unchanged; success returns a frame of the page's size and a flush of that page |
| RecursiveTables.RecUnmapAgrees | src/structures/paging/mapper/recursive_page_table.rs:581-616 | on a recursively mapped machine, `unmap` of every size returns the engine's result and makes the engine's write to the same table entry |
| RecursiveTables.RecUpdateFlags | src/structures/paging/mapper/recursive_page_table.rs:620-652 | an error is `PageNotMapped` and changes nothing; success flushes the page |
| RecursiveTables.RecUpdateFlagsAgrees | src/structures/paging/mapper/recursive_page_table.rs:620-652 | when the leaf table is reachable, `update_flags` gives the engine's result, and on success writes the new leaf flags into the leaf entry and nothing else |
| RecursiveTables.RecSetFlagsParentEntry | src/structures/paging/mapper/recursive_page_table.rs:654-721 | an error changes nothing, and a level at or below the page's own level is refused with `ParentEntryHugePage` |
| RecursiveTables.RecSetFlagsParentEntryAgrees | src/structures/paging/mapper/recursive_page_table.rs:654-721 | `set_flags_p4/p3/p2_entry` give the engine's result and, on success, set the flags of the one parent entry at that level |
| RecursiveTables.RecTranslatePage | src/structures/paging/mapper/recursive_page_table.rs:723-753 | `translate_page` never changes the machine, and a found frame has the page's size |
| RecursiveTables.RecTranslatePageAgrees | src/structures/paging/mapper/recursive_page_table.rs:723-753 | when every parent of the page is a table, `translate_page` gives the engine's answer |
| RecursiveTables.RecTranslate | src/structures/paging/mapper/recursive_page_table.rs:758-807 | `translate` never changes the machine; a found frame has the size its variant names and the offset lies inside it |
| RecursiveTables.RecTranslateAgrees | src/structures/paging/mapper/recursive_page_table.rs:758-807 | when every used entry on the path is present, `translate` gives the engine's answer for every address |
| RecursiveTables.CreatedFlags | src/structures/paging/mapper/recursive_page_table.rs:127-128 | a created parent entry carries `PRESENT`, `WRITABLE` and the insert flags, and nothing more |
| RecursiveTables.RecCreateNextTable | src/structures/paging/mapper/recursive_page_table.rs:101-152 | `create_next_table` keeps the root, and never reports `PageAlreadyMapped` |
| RecursiveTables.RecCreateNextTableAllocates | src/structures/paging/mapper/recursive_page_table.rs:101-152 | one frame is consumed exactly when the entry was unused; `FrameAllocationFailed` exactly when the entry was unused and the allocator was empty, with only the allocator's state changed |
| RecursiveTables.RecCreateNextTablePanics | src/structures/paging/mapper/recursive_page_table.rs:126-132 | the call panics exactly when it must create a table and the insert flags hold `HUGE_PAGE`, which `set_frame` refuses |
| RecursiveTables.RecMapTo | src/structures/paging/mapper/recursive_page_table.rs:234-283 | success flushes the page; `PageAlreadyMapped` names the frame that was asked for |
| RecursiveTables.RecMapToAgrees | src/structures/paging/mapper/recursive_page_table.rs:234-283 | when the parents already exist with the parent flags, `map_to` never faults, panics exactly when the engine panics, returns the engine's result, and on success writes the engine's leaf entry |
| RecursiveTables.RecCreateWalkConsumes | src/structures/paging/mapper/recursive_page_table.rs:234-283 | creating the parents of a page consumes at most one frame per step |
| RecursiveTables.RecMapToConsumesAtMostDepth | src/structures/paging/mapper/recursive_page_table.rs:234-283 | `map_to` consumes at most as many frames as the page has parent tables |
| RecursiveTables.RecCreateWalkNeverPanics | src/structures/paging/mapper/recursive_page_table.rs:101-152 | without `HUGE_PAGE` in the insert flags, creating the parents never panics |
| RecursiveTables.RecMapToPanicsOnlyOnHuge | src/structures/paging/mapper/recursive_page_table.rs:234-283 | `map_to` panics only when `HUGE_PAGE` is among the parent flags, or among the flags of a 4 KiB page |
| RecursiveTables.RecTranslatePageMissesHugeParent | src/structures/paging/mapper/recursive_page_table.rs:723-753 | as written, `translate_page` of a 4 KiB page under a huge level-3 entry reads inside the huge page and answers `PageNotMapped`, while the engine answers `ParentEntryHugePage` |
| RecursiveTables.RecTranslatePageHugeParentExample | src/structures/paging/mapper/recursive_page_table.rs:723-753 | a concrete recursively mapped machine with one huge level-3 entry over a zeroed frame: the processor maps the page, the engine answers `ParentEntryHugePage`, and `translate_page` as written answers `PageNotMapped` |
| RecursiveTables.RecTranslatePageChecked | src/structures/paging/mapper/recursive_page_table.rs:723-753 | with its parents decoded by `frame()`, `translate_page` still leaves the machine unchanged and finds frames of the page's size |
| RecursiveTables.RecTranslatePageCheckedAgrees | src/structures/paging/mapper/recursive_page_table.rs:723-753 | the checked `translate_page` gives the engine's answer on every recursively mapped machine, huge parents included |
| CleanUpSettles.CleanUpAddrRangeSettles | src/structures/paging/mapper/mod.rs:865-904 | when every table below the range is used once, as the safety note demands, `clean_up_addr_range` leaves no empty table to remove, so a second call changes nothing and frees nothing |
| CleanUpSettles.CleanUpAddrRangeFreesNothing | src/structures/paging/mapper/mapped_page_table.rs:1303-1373 | `clean_up_addr_range` frees no frame exactly when the range holds no empty table to remove, and then it leaves the tables and deallocator as they were |
| CleanUpSettles.FreeingNothingChangesNothing | src/structures/paging/mapper/mod.rs:864-904 | a clean-up that frees no frame changes no entry |
| CleanUpSettles.CleanUpTableSettles | src/structures/paging/mapper/mapped_page_table.rs:1310-1362 | on tables used once, the inner `clean_up` leaves no empty table below it in the range |
| CleanUpSettles.CleanUpEntriesSettle | src/structures/paging/mapper/mapped_page_table.rs:1328-1358 | the loop over a table's entries leaves no empty table below the entries it visited |
| CleanUpSettles.CleanUpEntrySettles | src/structures/paging/mapper/mapped_page_table.rs:1334-1357 | one round of the loop leaves the entry either unused or pointing at a non-empty table with nothing to clean below it |
| CleanUpSettles.LeftAloneWhenClean | src/structures/paging/mapper/mapped_page_table.rs:1310-1362 | the inner `clean_up` changes nothing when there is nothing to clean, and answers whether its own table is empty |
| CleanUpSettles.FreesNothingOnlyWhenClean | src/structures/paging/mapper/mapped_page_table.rs:1310-1362 | the inner `clean_up` frees no frame only when there was nothing to clean |
| CleanUpSettles.CleanUpTableWrites | src/structures/paging/mapper/mapped_page_table.rs:1310-1362 | the inner `clean_up` writes only to its own table and to the tables below it in the range |
| CleanUpSettles.TablesBelowShrink | src/structures/paging/mapper/mapped_page_table.rs:1310-1362 | clearing entries never adds a table below a table |
| CleanUpSettles.AgreeingTables | src/structures/paging/mapper/mapped_page_table.rs:1310-1362 | two machines that agree on a table and the tables below it see the same tables below, the same sharing and the same clean state |
| Pages.RangeAdvanceItems | src/structures/paging/page.rs:365-373 | the range an iterator is left as after `k` calls to `next` yields exactly the pages not yet yielded |

## Left out

- Addr.VirtNew: `VirtAddr::new` panics on a value with data in bits 48..63; the model requires an accepted value instead, and `Addr.VirtTryNew` states the check.
- Addr.VirtAdd: models a debug build. `VirtAddr + u64` (addr.rs:205-211) panics when `self.0 + rhs` overflows 64 bits, which a release build instead wraps (`0xffff_ffff_ffff_f000 + 0x2000` gives `0x1000` and succeeds), and `VirtAddr::new` panics when the sum carries data in bits 48..63 (a sum in 2^47..2^48 is sign-extended); both panics are preconditions.
- Addr.VirtSub: `VirtAddr - u64` (addr.rs:237-243) panics in every build when `checked_sub` underflows, and `VirtAddr::new` panics when the difference carries data in bits 48..63 (a difference in 2^47..2^48 is sign-extended); both panics are preconditions.
- Addr.VirtDiff: `VirtAddr - VirtAddr` panics when the right operand is larger; that is a precondition.
- Addr.PhysNew: `PhysAddr::new` panics on a value of 2^52 or more; the model requires a valid value, and `Addr.PhysTryNew` states the check.
- Addr.PhysAdd: models a debug build. `PhysAddr + u64` (addr.rs:408-414) panics when `self.0 + rhs` overflows 64 bits, which a release build instead wraps to a small sum that `PhysAddr::new` accepts, and `PhysAddr::new` panics when the sum leaves the 52-bit range; both panics are preconditions.
- Addr.PhysSub: `PhysAddr - u64` panics on underflow; that is a precondition.
- Addr.PhysDiff: `PhysAddr - PhysAddr` panics when the right operand is larger; that is a precondition.
- Addr.AlignDown: the assertion that the alignment is a power of two is a precondition.
- Addr.AlignUp: the power-of-two assertion and the overflow of the round-up past 2^64 are preconditions.
- TableIndex.IndexNew: `PageTableIndex::new` panics on an index of 512 or more (page_table.rs:326-331); the model requires a smaller index, and `TableIndex.IndexNewTruncate` covers every `u16`.
- TableIndex.OffsetNew: `PageOffset::new` panics on an offset of 4096 or more (page_table.rs:402-407); the model requires a smaller offset, and `TableIndex.OffsetNewTruncate` covers every `u16`.
- Tables.SetAddr: the undocumented `assert!` that the address is 4 KiB aligned (page_table.rs:90) is a precondition.
- Tables.SetFrame: the undocumented `assert!` that the flags hold no HUGE_PAGE (page_table.rs:97) is a precondition; `MappedTables.CreateNextTablePanics` models that panic as an outcome where the mapper reaches it.
- Mapper.MapToRangeWithTableFlags: the `assert_eq!` that the page and frame ranges hold as many items (mod.rs:339-358) is a precondition.
- Mapper.IdentityPage: `VirtAddr::new` in `identity_map` panics for a frame at or above 2^48 (mod.rs:638); the model requires a frame below it, and `Mapper.IdentityPageAddress` states exactly which frames pass.
- Mapper.IdentityMap: the same `VirtAddr::new` panic for a frame at or above 2^48 is a precondition.
- Gdt.Push: the private `push` indexes past the table when every slot is in use; the model requires a free slot, and `Gdt.AddEntry`, the only caller, models the panic it checks for first.
- MappedIter.MappedPageAdd: `MappedPageItem + u64` panics through `VirtAddr + u64` and `PhysFrame + u64`; `AddDefined` is a precondition.
- Pages.InclusiveSize: models a release build. `SIZE * len()` (page.rs:425-427) reaches 2^64 exactly for the range of every page of the address space; a release build wraps it to 0, which the model returns and its contract states, while a debug build panics there.
- Idt.SetStackIndex: models a debug build. For index 0xffff, `index + 1` (idt.rs:884) overflows and panics, which the model answers with `None` like every index above 6; a release build wraps the sum to 0, `set_bits(0..3, 0)` succeeds and the entry loses its stack index.
- Pages.PageAdd: models a debug build. `Page + u64` (page.rs:267-273) panics when `rhs * S::SIZE` or the `VirtAddr + u64` sum overflows 64 bits, which a release build instead wraps, and when the sum carries data in bits 48..63 (a sum in 2^47..2^48 is sign-extended); these panics are preconditions.
- Pages.PageSub: models a debug build. `Page - u64` (page.rs:282-288) panics when `rhs * S::SIZE` overflows 64 bits, which a release build instead wraps, when the `checked_sub` of `VirtAddr - u64` underflows (in every build), and when the difference carries data in bits 48..63; these panics are preconditions.
- Pages.PageDiff: `Page - Page` panics when the right page is higher; that is a precondition.
- Frames.FrameAdd: models a debug build. `PhysFrame + u64` (frame.rs:100-106) panics when `rhs * S::SIZE` or the `PhysAddr + u64` sum overflows 64 bits, which a release build instead wraps, and when the sum reaches 2^52; a sum below 2^52 is a precondition.
- Frames.FrameSub: models a debug build. `PhysFrame - u64` (frame.rs:129-135) panics when `rhs * S::SIZE` overflows 64 bits, which a release build instead wraps, and on the `checked_sub` underflow of `PhysAddr - u64` in every build; these panics are preconditions.
- Frames.FrameDiff: `PhysFrame - PhysFrame` panics when the right frame is higher; that is a precondition.
- MappedTables.Translate: `translate` panics on a huge level-4 entry (mapped_page_table.rs:1231-1232); the model requires the entry not to be huge. `RecursiveTables.RecTranslate` does model that case, as a fault of the processor's walk.
- MappedTables.Walk: the level-4 table is a separate `Root` that no frame address reaches. A recursive level-4 entry in a `MappedPageTable` therefore reads a frame's copy of the table in the model, where the crate reads the level-4 table itself. The recursive strategy is modelled on its own, over one physical memory, for that reason.
- Tables.EntryAddr: the address mask is fixed at `0x000f_ffff_ffff_f000`. The crate clears a memory-encryption bit from it at run time through global atomics, CPUID and MSRs.
- OffsetTables.MachineOf: a frame whose address plus the offset has no virtual pointer reads as a zeroed table, where the crate panics in `VirtAddr::new`. `OffsetPageTable::from_phys_offset` demands that the complete physical memory is mapped at the offset (offset_page_table.rs:12-23), and under that demand every frame has a pointer.
- RecursiveTables.RecMapToAgrees: the agreement with the engine is proved only when the parent tables already exist with the parent flags (`ParentsInPlace`). Where `map_to` creates a table, agreement would also need the allocator to hand out a frame the walk does not already read: a fresh frame equal to the root, for one, zeroes the level-4 table itself here but only a separate copy in the engine. `RecCreateNextTableAllocates` and `RecCreateNextTablePanics` state what a creating step does.
- RecursiveTables.NewAcceptsRecursiveTable: `Cr3::read` in `RecursivePageTable::new` is a parameter, the root frame.
- Idt.SetHandlerAddr: `set_handler_addr` reads CS with `CS::get_reg`; the selector is a parameter.
- Mapper.MapRangeStops: `MappedPageTable` overrides the four range operations with the `modify_range_1gib/2mib/4kib` walkers (mapped_page_table.rs:168-555, 575-1145), which visit the table slots a range covers and run a closure on each entry; the walkers' own slot arithmetic and parent-table errors are not modelled, and the range operations are modelled as the trait defaults in `mapper/mod.rs`, page by page. The one closure whose effect differs from the single-page operation, the huge-page `update_flags_range` one, is modelled on its own as `MappedTables.UpdateFlagsRangeStepAsWritten`.
- Mapper.UpdateFlagsRange: over a `MappedPageTable` of 1 GiB or 2 MiB pages, the overrides at mapped_page_table.rs:693-711 and 903-920 write `flags` without HUGE_PAGE into each huge entry, where `update_flags` (674-690) writes `flags | HUGE_PAGE`. The model's range operation runs the corrected step `MappedTables.UpdateFlags`; the as-written step is `MappedTables.UpdateFlagsRangeStepAsWritten`, and `MappedTables.RangeStepAsWrittenDropsHugePage` shows the dropped HUGE_PAGE (see "## Findings").
- Mapper.FlushRangeEmpty: `MapperFlush::flush`, `MapperFlushAll::flush_all` and `MapperFlushRange::flush_range` run `invlpg` or reload CR3; flush tokens are plain values here.
- Pages.RangeNext: the `Step` impls of `Page` and the checked arithmetic of `PhysFrame` (page.rs:162-188, 305-325; frame.rs:115-176) rest on address helpers that are not part of this model.
- Selectors.RingFromBits: `PrivilegeLevel` is defined in `lib.rs`, which is not part of this model; it is re-stated as a four-value datatype.
- XControl.Write: reading and writing XCR0 (`xgetbv`/`xsetbv`) is inline assembly; the register is a value passed in and returned.
- Debug.Write: reading and writing DR7 is inline assembly; the register is a value passed in and returned.
- The `iter_mut` end-pointer workaround for a table at `0xffff_ffff_ffff_f000`, the `repr`/`size_of` assertions, `VirtPtr`, the `Debug`/`Display` impls and the handler macros are pointer layout or formatting and are not modelled.

## Findings

| source | as written | input that shows it | evidently intended | confidence | as-written member | corrected member |
|---|---|---|---|---|---|---|
| src/addr.rs:152-158 | `VirtAddr::align_down` stores the aligned value without sign-extending it again | `0xffff_8000_0000_0000` aligned down to 2^48 gives the non-canonical `0xffff_0000_0000_0000` | a canonical result, sign-extended like every other `VirtAddr` constructor | not executed | Addr.VirtAlignDownLeavesCanonicalForm | Addr.VirtAlignDown |
| src/addr.rs:141-147 | `VirtAddr::align_up` stores the rounded value unchecked | `0x7fff_ffff_ffff` aligned up to 4 KiB gives the non-canonical `0x8000_0000_0000` | a canonical result | not executed | Addr.VirtAlignUpLeavesCanonicalForm | Addr.VirtAlignUp |
| src/addr.rs:346-351 | `PhysAddr::align_up` stores the rounded value unchecked | `0x000f_ffff_ffff_f001` aligned up to 4 KiB gives 2^52, not a valid physical address | a round-up past the 52-bit range is reported, as `try_new` reports it | not executed | Addr.PhysAlignUpLeavesValidRange | Addr.PhysAlignUp |
| src/structures/paging/page.rs:346-352 | `PageRange::len` subtracts the raw start addresses | the range from page `0x7fff_ffff_f000` to page `0xffff_8000_0000_0000` yields one page, and `len` reports `0xf_fff0_0000_0001` | the number of pages the range yields | not executed | Pages.RangeLenCountsHole | Pages.RangeCount |
| src/structures/paging/frame.rs:242-250 | `PhysFrameRangeInclusive::next` moves the start one frame on after yielding the end | the range holding only the frame at `0x000f_ffff_ffff_f000` panics on its first `next` | yield the last frame and end, as `PageRangeInclusive::next` does | not executed | Frames.FrameInclusiveNextPanicsAtTop | Frames.FrameInclusiveNext |
| src/structures/paging/mapper/recursive_page_table.rs:723-753 | `translate_page` for 4 KiB pages tests parents with `is_unused` only | a 4 KiB page under a present huge level-3 entry whose huge page starts with zeroed memory answers `PageNotMapped` | `ParentEntryHugePage`, as `unmap` and the mapped strategy answer | not executed | RecursiveTables.RecTranslatePageMissesHugeParent | RecursiveTables.RecTranslatePageChecked |
| src/structures/paging/mapper/mapped_page_table/range_iter.rs:166-185 | `next` joins an item to the run when it equals `end + 1` | two mappings on either side of the non-canonical hole with consecutive frames make one run whose page and frame counts differ, and `try_from(..).unwrap()` panics | two separate ranges | not executed | MappedRangeIter.HoleRunPanics | MappedRangeIter.HoleRunSplits |
| src/structures/paging/mapper/mapped_page_table/range_iter.rs:166-185 | `next` computes `end + 1` before comparing | a run whose frame ends at 2^52 followed by any item panics in `PhysFrame + 1` | end the run there and keep the next item | not executed | MappedRangeIter.TopFrameRunPanics | MappedRangeIter.Next |
| src/structures/paging/mapper/mapped_page_table/range_iter.rs:31-35 | `frame_range` computes `start + len` and then subtracts one | a one-page range mapped to the frame at `0x000f_ffff_ffff_f000` panics | the inclusive range of that one frame | not executed | MappedRangeIter.FrameRangePanicsAtTop | MappedRangeIter.FrameRange |
| src/registers/debug.rs:395-409 | `insert_flags` and `toggle_flags` use every bit of the flags word | inserting a retained flag at bit 40 into the zero value leaves a value with a reserved bit set, which `Dr7::write` stores | only defined flags change the value | not executed | Debug.RetainedFlagBreaksValue | Debug.InsertFlags |
| src/structures/paging/mapper/mod.rs:397-437 | `map_range_with_table_flags` builds its flush ranges from `pages` after `try_for_each` has consumed it | mapping two pages with enough frames flushes the empty range at their end | flush the pages that were mapped, as `map_to_range_with_table_flags` does | not executed | Mapper.MapRangeAsWrittenFlushesNothing | Mapper.MapRangeStops |
| src/structures/paging/mapper/mapped_page_table.rs:693-711 | the 1 GiB and 2 MiB overrides of `update_flags_range` (also 903-920) write `flags` into each huge entry without adding HUGE_PAGE, which `update_flags` adds | a 2 MiB page mapped by a present huge level-2 entry, updated through `update_flags_range` with PRESENT and WRITABLE: the entry loses HUGE_PAGE, and walks then read the 2 MiB page's data as a level-1 table | the entry keeps mapping the huge page, with `flags \| HUGE_PAGE` as `update_flags` writes | not executed | MappedTables.RangeStepAsWrittenDropsHugePage | MappedTables.UpdateFlagsEffect |
