# SampoOS boot memory, in Dafny

This project models how SampoOS gets from a firmware memory map to a running
kernel address space, and proves what each layer promises to the one above it:

1. **The region allocator** (`Kickstart/Multiboot/pmm.c`): `memory_regions`, an
   array of typed ranges that is split, re-typed, coalesced and re-sorted in
   place. Its meaning is `Regions.TypeAt`, a map from addresses to types.
2. **The pager** (`Kickstart/Multiboot/pager.c`): four-level page tables in raw
   physical bytes. Their meaning is `PageTables.Walk`, the translation of the
   Intel SDM, volume 3A, section 4.5.
3. **The ELF loader** (`Kickstart/Multiboot/elf.c`, `util.h`): headers in both
   classes and byte orders, then allocate, clear, map and copy per segment.
4. **The kernel's memory manager** (`Kernel/Arch/x86_64/memory-manager.c`): the
   recursive page-table window, mapping through it, and the layout of `physmap`.

Code that changes state is a class whose methods work in place: `Pmm.RegionTable`
(the region array), `Pager.PagingMachine` (4 GiB of bytes and the table root),
`ElfLoader.Loader` (the static header record) and `MemoryManager.KernelMemory`
(bytes, `kernel_end_addr`, `physmap`). Each method is tied by its contract to a
function of the old state, and the laws below are about those functions. Words
are natural numbers with the wrap-around written out; bit operations are defined
bit by bit in `Bits` and turned into division and remainder by lemmas.

| layer | modules |
|---|---|
| words and bytes | `Options`, `Bits`, `Bytes`, `Memory` |
| allocator | `Regions`, `TombstoneSort`, `RegionOps`, `RegionLaws`, `RegionEdges`, `Release`, `Runs`, `PageBudget`, `Pmm` |
| pager | `PageTables`, `Paging`, `PagingLaws`, `MapRuns`, `PagerInit`, `Pager` |
| loader | `Elf`, `ElfLoad`, `ElfExpand`, `ElfLoader`, `LoaderSlots`, `Boot`, `Headroom`, `Kickstart`, `BootRuns`, `HighMemory`, `SmallKernel` |
| kernel | `Window`, `KernelMap`, `Handover`, `Physmap`, `Handoff`, `ManagerInit`, `MemoryManager` |

`dafny verify dfyconfig.toml` checks everything.

## What turned out false of the code

- **The sort is not always right.** It compares starts without asking whether the
  right neighbour is a zero-length entry, so a live entry can overtake one and be
  cut off. `TombstoneSort.SortExact` gives the exact condition. Not every call
  meets it; `Runs.LegalExactly` says exactly which calls leave the array in order:
  - an add, if the rounded range is not empty and clear of the map (and, free or
    reserved, below 2^52), or empty with no entry starting above it. A free range
    that is part of one page rounds to nothing if one of its bounds is on a page
    boundary, and otherwise backwards, which never does (`RegionEdges.AddAlways`,
    `RegionEdges.PartOfPage`, failing input `RegionEdges.AddFails`);
  - a reservation, if no free entry contains the rounded range, or it runs
    forward, or it is empty with no entry starting above it
    (`RegionEdges.ReserveAlways`, `RegionEdges.ReserveFails`: a zero-length module
    on a page boundary);
  - an allocation, if no entry has room, or the lowest one with room does not
    start at a multiple of 4 GiB and, for page counts that are multiples of 2^20,
    nothing starts above it. Such a count has byte length zero in 32 bits: the
    call records an empty range and returns its address
    (`RegionEdges.AllocateAlways`, `RegionEdges.AllocateFails`). From an entry at
    exactly 4 GiB it returns NULL and leaves the list unsorted with the page gone
    (`RegionEdges.AllocateLoses`);
  - a release, always.
- **A 64-bit address is returned as a 32-bit pointer.** The caller is given the
  memory that was taken exactly when the entry starts below 4 GiB and the page
  count is below 2^20 (`Runs.ReturnedExactly`). With free memory above 4 GiB two
  live allocations can be handed the same pointer (`Runs.SamePointerTwice`); with
  none, all callers have disjoint memory over the whole run (`Runs.LowRunDisjoint`).
  Allocating as RESERVED and freeing undo each other exactly below 4 GiB
  (`Release.RoundTrip`). The boot itself is safe whatever is free above, as long as
  one entry below 4 GiB could hold all of it (`HighMemory.HighLoads`).
- **A reservation can free memory above 4 GiB for the pager**, out of an entry
  that started below 1 MiB; `Kickstart.ReserveReady` says exactly when, and
  `Kickstart.ReserveExposes` gives a map where it does.
- **An empty PT_LOAD segment is refused**, and with it the file; otherwise a segment
  is refused exactly when no free entry has room (`Headroom.LoadRoom`). **Sizes from
  just above 0xFFFFF000 up to 4 GiB** are not refused: they ask for 2^20 pages, whose
  byte length is zero, and 2^20 pages are then mapped from an address that was
  returned for none (`Headroom.SizesAbove`).
- **Class-32 files for x86-64 are accepted and misread.** Program headers are read
  back for class 64 and no other class (`ElfLoad.ReadBackExactly`,
  `ElfLoad.SegmentMisread`).
- **Only RESERVED ranges can be freed**, while the default allocation type is
  ALLOCATED; freeing anything else changes nothing, except that an address above
  every start joins free neighbours (`Release.DeallocateMiss`).
- **Absent middle-level tables are not refused** by `virt_map_pages_kernel_end`:
  it goes on and its next access does not translate (`KernelMap.MapEndLaw`; with
  an empty PDPT, `KernelMap.AbsentDirectory`).
- **`init_memory_manager` does not test what the mapping returns.** Where a page
  behind the kernel is taken it clears the lowest pages of memory and keeps its
  bitmaps and records there (`ManagerInit.RefusedClearsLow`); where none is, all is
  well (`ManagerInit.ManagerStands`).
- **The two layout loops round differently.** They agree on the bitmap bytes
  exactly when no run is short by a part of a page after a multiple of eight
  pages (`Physmap.LoopsAgree`). Maps made by Kickstart never have such a run
  (`Handoff.HandoffFits`).
- **Marking a page busy finds the wrong record** for every page outside the first
  record of the map (`Physmap.MarkHits`; with two banks, `Physmap.MarkMisses`).

## Model

| member | source | states |
|---|---|---|
| Bytes.ReadersAreLe | Kickstart/Multiboot/util.h:53-113 | each little-endian OR-of-shifts reader is the positional sum of its bytes |
| Bytes.BigIsReversedLittle | Kickstart/Multiboot/util.h:63-130 | each big-endian reader is the little-endian reader of the reversed bytes |
| Bytes.OrLittleIsLe | Kickstart/Multiboot/util.h:99-113 | accumulating bytes by OR and shift equals the positional sum, for any number of bytes |
| Bytes.OrBigIsReversedLe | Kickstart/Multiboot/util.h:115-130 | the same most significant byte first |
| Bytes.LeToLe | Kickstart/Multiboot/util.h:53-130 | reading inverts writing the low bytes of a word that fits |
| Memory.WordBytes | Kickstart/Multiboot/pager.c:79 | which byte of memory gets which bits of a stored word, and that no other byte changes |
| RegionOps.PageFloor | Kickstart/Multiboot/pmm.c:16-42 | the 64-bit mask rounds down to a page |
| RegionOps.PageCeil | Kickstart/Multiboot/pmm.c:16-42 | add-and-mask rounds up to a page, or wraps to zero above the last page |
| RegionOps.PageFloor32 | Kickstart/Multiboot/pmm.c:57-65 | the 32-bit mask rounds down to a page |
| RegionOps.PageCeil32 | Kickstart/Multiboot/pmm.c:57-65 | the 32-bit rounding up, with its wrap |
| TombstoneSort.SortExact | Kickstart/Multiboot/pmm.c:279-319 | the counted prefix is a start-sorted permutation of exactly the non-empty entries if and only if before each empty entry no more live entries with a larger start stand than empty entries stand after it |
| TombstoneSort.NothingOvertakes | Kickstart/Multiboot/pmm.c:279-319 | arrays where no live entry before an empty one starts above it meet that condition, whatever the number of empty entries |
| TombstoneSort.CompactTo | Kickstart/Multiboot/pmm.c:279-319 | under the condition the result is the one strictly ordered list of the live entries |
| TombstoneSort.SortMultiset | Kickstart/Multiboot/pmm.c:295-316 | the sweeps permute the array, always |
| Pmm.RegionTable.SortRegions | Kickstart/Multiboot/pmm.c:279-319 | the in-place sort and cut leave `Compact` of the old list |
| Pmm.RegionTable.SweepAll | Kickstart/Multiboot/pmm.c:295-316 | the nested loops compute `BubbleSort` of the array |
| Pmm.RegionTable.Sweep | Kickstart/Multiboot/pmm.c:297-315 | one inner loop is one `Pass` over the first m entries and leaves the rest |
| Pmm.RegionTable.CountInvalid | Kickstart/Multiboot/pmm.c:282-290 | the count is the number of zero-length entries |
| Pmm.RegionTable.constructor | Kickstart/Multiboot/pmm.c:6-7 | the table starts with no counted entry |
| Pmm.RegionTable.AddRegion | Kickstart/Multiboot/pmm.c:11-52 | the new list is `Add` of the old one |
| Pmm.RegionTable.RoundRange | Kickstart/Multiboot/pmm.c:15-42 | free ranges shrink to whole pages, reserved ones grow, others stay |
| RegionLaws.RoundedMeans | Kickstart/Multiboot/pmm.c:15-42 | for every range: free memory keeps the whole pages inside it, reserved memory takes every page it touches, other kinds stay as reported, and rounding up from the last page wraps to zero |
| RegionLaws.AddLaw | Kickstart/Multiboot/pmm.c:11-52 | a range not empty after rounding and clear of the map is put in order and types exactly its addresses |
| RegionEdges.AddAlways | Kickstart/Multiboot/pmm.c:11-52 | for every range: the add leaves a map if and only if the rounded range is not empty and clear of it, or empty with nothing above it; then it types exactly its addresses. Backward and overlapping ranges never do |
| RegionEdges.EmptyExact | Kickstart/Multiboot/pmm.c:44-50 | recording an empty range leaves the list alone, or, if and only if an entry starts above it, spoils it |
| RegionEdges.BackwardsStays | Kickstart/Multiboot/pmm.c:279-319 | an entry that ends before it starts is never cut off, so no map holds after it |
| RegionEdges.OverlapStays | Kickstart/Multiboot/pmm.c:44-51 | nor is one of two overlapping entries |
| RegionEdges.PartOfPage | Kickstart/Multiboot/pmm.c:15-42 | a free range that is part of one page rounds to nothing if one bound is on a page boundary, backwards if neither is |
| RegionEdges.AddFails | Kickstart/Multiboot/pmm.c:15-42 | the free range from 0x1001 to 0x1FFF rounds backwards and leaves no map |
| Pmm.RegionTable.ReserveMemoryRegion | Kickstart/Multiboot/pmm.c:54-135 | the new list is `Reserve` of the old one |
| Pmm.RegionTable.SplitContaining | Kickstart/Multiboot/pmm.c:98-132 | the three overlap cases, before sorting |
| RegionLaws.ReserveSplits | Kickstart/Multiboot/pmm.c:98-134 | in every overlap case, exact cover included, the containing entry is replaced by what is left, right and inside of the range |
| RegionEdges.ReserveAlways | Kickstart/Multiboot/pmm.c:54-135 | for every request: a map remains if and only if no free entry contains it, or it runs forward, or it is empty with nothing above it; contained, it becomes ALLOCATED and no other address changes type; not contained, nothing changes |
| RegionEdges.ReserveNothing | Kickstart/Multiboot/pmm.c:105-134 | a contained request whose rounded bounds coincide, in all overlap cases: types stay if and only if nothing starts above it, and an entry cut in its middle becomes two |
| RegionEdges.ReserveFails | Kickstart/Multiboot/pmm.c:54-135 | reserving a zero-length page-aligned range below another entry leaves no map |
| Pmm.RegionTable.AllocateRegionWithType | Kickstart/Multiboot/pmm.c:137-198 | list and pointer are `Allocate` of the old list |
| Pmm.RegionTable.FindFree | Kickstart/Multiboot/pmm.c:155-175 | the first entry with room by the code's own 64-bit test |
| Pmm.RegionTable.CarveFrom | Kickstart/Multiboot/pmm.c:177-186 | the first bytes of the entry recorded at the end, the entry shortened |
| RegionEdges.AllocateAlways | Kickstart/Multiboot/pmm.c:144-198 | for every page count, m being its low 20 bits: lowest first fit from 1 MiB on, NULL with unchanged state if and only if no entry has room for m, the pointer's exact value, exactly when a map remains, and then exactly m pages change type |
| RegionEdges.AllocateWraps | Kickstart/Multiboot/pmm.c:153 | only the low 20 bits of a page count reach the 32-bit byte length |
| RegionEdges.AllocateNothing | Kickstart/Multiboot/pmm.c:153-195 | a count whose byte length is zero is not refused: the lowest free entry's address is returned, and the list stays if and only if nothing starts above |
| RegionEdges.AllocateFails | Kickstart/Multiboot/pmm.c:144-198 | 2^20 pages below another entry: a pointer that is not NULL, and no map left |
| RegionEdges.AllocateLoses | Kickstart/Multiboot/pmm.c:177-198 | one page out of an entry at exactly 4 GiB: NULL is returned, the page is gone and no map is left |
| RegionLaws.ChosenIsLowest | Kickstart/Multiboot/pmm.c:155-175 | whenever an entry has room the chosen one exists and starts no higher |
| RegionLaws.PointerIsTrue | Kickstart/Multiboot/pmm.c:184 | the returned pointer is the entry's address if and only if that lies below 4 GiB |
| Pmm.RegionTable.DeallocateRegion | Kickstart/Multiboot/pmm.c:200-277 | the new list is `Deallocate` of the old one |
| Pmm.RegionTable.CoalesceFree | Kickstart/Multiboot/pmm.c:238-273 | the nested joining loops compute `Coalesce` in place |
| Release.CoalesceCompact | Kickstart/Multiboot/pmm.c:236-276 | joining, then sorting, turns every run of touching free entries into one entry |
| Release.MergedFacts | Kickstart/Multiboot/pmm.c:236-276 | merging keeps the map ordered and disjoint and leaves no two touching free entries |
| Release.MergedTypes | Kickstart/Multiboot/pmm.c:236-276 | merging changes the type of no address |
| Release.DeallocateLaw | Kickstart/Multiboot/pmm.c:200-277 | on every valid map: freeing inside the first page of a RESERVED entry makes exactly its addresses AVAILABLE, leaving no touching free entries |
| Release.DeallocateMiss | Kickstart/Multiboot/pmm.c:209-234 | without a RESERVED entry at the page nothing is freed, and joining happens only above every start |
| Release.RoundTrip | Kickstart/Multiboot/pmm.c:144-277 | allocating as RESERVED and freeing the pointer gives the list back entry for entry if and only if the entry taken starts below 4 GiB, on maps without touching free entries and for every page count with a byte length |
| Runs.StepKeeps | Kickstart/Multiboot/pmm.c:44-277 | every legal call keeps the array ordered, disjoint, free of empty entries and its free and reserved memory in whole pages, and grows it by at most 1, 2, 1 or 0 |
| Runs.LegalExactly | Kickstart/Multiboot/pmm.c:44-277 | and no other call does: legality is exactly what keeps the array in order |
| Runs.RunKeepsSound | Kickstart/Multiboot/pmm.c:44-277 | the same at every point of every run of legal adds, reservations, allocations and any releases |
| Runs.SlotsSuffice | Kickstart/Multiboot/pmm.c:6-7 | a run whose slots add up to at most 1024 never writes past `memory_regions` |
| Runs.GrantTakes | Kickstart/Multiboot/pmm.c:54-198 | the memory a call records as taken was free before and is not free after |
| Runs.ReturnedExactly | Kickstart/Multiboot/pmm.c:153-197 | the pages from the returned pointer on are the memory that was taken if and only if the count is below 2^20 and the entry starts below 4 GiB |
| Runs.RunKeepsTaken | Kickstart/Multiboot/main.c:149-176 | while nothing is freed, taken memory stays taken over the whole run |
| Runs.GrantsDisjoint | Kickstart/Multiboot/main.c:149-176 | all memory recorded as taken is disjoint from all taken later |
| Runs.ReturnsDisjoint | Kickstart/Multiboot/main.c:149-176 | what two callers are given is disjoint, if their counts did not wrap and their entries start below 4 GiB |
| Runs.SamePointerTwice | Kickstart/Multiboot/pmm.c:184 | without that, two live allocations can be handed the same pointer |
| Runs.RunKeepsLow | Kickstart/Multiboot/pmm.c:44-198 | a run that starts with no free memory above 4 GiB and adds none never has any |
| Runs.LowRunDisjoint | Kickstart/Multiboot/main.c:149-176 | so on every such run all callers are given disjoint memory |
| PageBudget.GrantLaw | Kickstart/Multiboot/pmm.c:144-198 | below 4 GiB an allocation either takes exactly its pages or changes nothing, and one page is granted if and only if a free page is left |
| PageTables.WalkIsLeaf | Kickstart/Multiboot/pager.c:54-153 | on a well-formed tree the processor's walk reads off the one page-table entry of the page |
| PageTables.LeafWrite | Kickstart/Multiboot/pager.c:122-151 | writing a present entry keeps the tree well formed and changes that page's entry only |
| PageTables.TreeGrows | Kickstart/Multiboot/pager.c:73-80 | linking a cleared page that no table owns keeps every table owned by exactly one slot |
| PageTables.SlotsApart | Kickstart/Multiboot/pager.c:54-153 | two different slots of the tree never share memory |
| PageTables.TreeUnique | Kickstart/Multiboot/pager.c:54-153 | memory and root alone determine which tables a well-formed tree has and where they lie |
| Paging.IndexShift | Kickstart/Multiboot/pager.c:62-65 | the four shift-and-mask indices are the base-512 digits of the page number |
| Paging.PteMeans | Kickstart/Multiboot/pager.c:137-149 | the composed entry means the frame, writable as asked, no-execute unless asked |
| PagingLaws.EnsureTableLaw | Kickstart/Multiboot/pager.c:67-84 | one table step reaches the table the tree has there, or a cleared page taken from the allocator, and keeps all other memory in use |
| PagingLaws.DownLaw | Kickstart/Multiboot/pager.c:67-120 | the three table steps together reach the page table at the cost of exactly the missing tables |
| PagingLaws.MapPageLaw | Kickstart/Multiboot/pager.c:54-153 | tree stays well formed, owned by the allocator's records, private memory untouched, entry of the page written unless it was there |
| PagingLaws.MapPageWalks | Kickstart/Multiboot/pager.c:54-153 | the walk of the mapped page yields the frame and permissions if it was unmapped, and every other walk is unchanged |
| Pager.PagingMachine.LoadWord | Kickstart/Multiboot/pager.c:67-69 | a 64-bit load from memory |
| Pager.PagingMachine.PutWord | Kickstart/Multiboot/pager.c:79 | a 64-bit store to memory |
| Pager.PagingMachine.Memset | Kickstart/Multiboot/pager.c:31 | clears its bytes and no others |
| Pager.PagingMachine.Memcpy | Kickstart/Multiboot/elf.c:318-319 | copies forward byte by byte, source pointer wrapping at 4 GiB |
| Pager.PagingMachine.Ensure | Kickstart/Multiboot/pager.c:67-84 | one table step in place is `EnsureTable` |
| Pager.PagingMachine.Descend | Kickstart/Multiboot/pager.c:62-120 | the three steps in place are `Down` |
| Pager.PagingMachine.MapPage | Kickstart/Multiboot/pager.c:54-153 | memory and allocator afterwards are `Paging.MapPage` of those before; array slots bounded |
| Pager.AddsIsMissing | Kickstart/Multiboot/pager.c:73-115 | the code allocates exactly the tables that the tree lacks |
| MapRuns.MapAllLaw | Kickstart/Multiboot/pager.c:54-153 | any sequence of requests keeps the tree and private memory, at a cost of exactly the tables needed |
| MapRuns.MapAllWalks | Kickstart/Multiboot/pager.c:126-151 | the final walk of each page is what it was if mapped before, else its first request: an established translation never changes |
| MapRuns.RepeatIsNoOp | Kickstart/Multiboot/pager.c:126-135 | a request for a page mapped before, or anywhere in the run, changes neither memory nor allocator |
| MapRuns.TableBound | Kickstart/Multiboot/pager.c:73-115 | n contiguous pages take at most floor((n+510)/512)+1 page tables, and at most the same expression at spans 512^2 and 512^3 of page directories and PDPTs, each level by itself |
| MapRuns.ContiguousMaps | Kickstart/Multiboot/pager.c:62-151 | with that many free pages no table allocation fails: every page of the range ends translated |
| Pager.PagingMachine.InitializePager | Kickstart/Multiboot/pager.c:9-52 | refuses 32-bit paging; otherwise state and root are `InitializePager` of the old state |
| Pager.PagingMachine.ChainFirstTables | Kickstart/Multiboot/pager.c:30-43 | the four cleared tables, chained |
| Pager.PagingMachine.MapIdentity | Kickstart/Multiboot/pager.c:45-48 | the 512-step loop is the run of identity requests |
| PagerInit.InitializePagerLaw | Kickstart/Multiboot/pager.c:23-48 | the walk is the identity, writable and executable, below 2 MiB and undefined above; exactly four pages left the allocator and the loop took none |
| Headroom.PagerStarts | Kickstart/Multiboot/pager.c:23-28 | it succeeds if and only if some free entry has room for four pages |
| Elf.HeaderRoundTrip | Kickstart/Multiboot/elf.c:133-220 | decoding any encoded header, in both classes and byte orders, accepts exactly ET_EXEC for 386 or x86-64 and recovers entry, phoff, phentsize and phnum |
| Elf.EveryFile | Kickstart/Multiboot/elf.c:140-215 | bytes with a known identification are the encoding of some header |
| Elf.AcceptedExactly | Kickstart/Multiboot/elf.c:133-220 | a memory is accepted if and only if it holds the encoding of a runnable header |
| Elf.AcceptedBytes | Kickstart/Multiboot/elf.c:140-190 | the same by the bytes: accepted if and only if the file begins 7F 45 4C 46, class and byte order are 1 or 2, and in that byte order the words at 16 and 18 are 2, and 3 or 62 |
| Elf.DecodeField | Kickstart/Multiboot/elf.c:44-131 | each reader inverts the encoding of its field in both byte orders |
| ElfLoad.SegmentRoundTrip | Kickstart/Multiboot/elf.c:245-280 | every field of an encoded class-64 program header is read back, in both byte orders |
| ElfLoad.SegmentMisread | Kickstart/Multiboot/elf.c:245-280 | what each field is read as from an encoded class-32 program header: p_filesz from two fields, p_memsz from the last field and the four bytes behind the header |
| ElfLoad.ReadBackExactly | Kickstart/Multiboot/elf.c:245-280 | all encoded program headers of a class are read back if and only if it is class 64 |
| ElfExpand.HeaderAddress | Kickstart/Multiboot/elf.c:236-245 | the 32-bit pointer arithmetic reaches program header i when the header lies inside the file |
| ElfLoader.Loader.ReadHalf | Kickstart/Multiboot/elf.c:125-131 | value and advanced cursor |
| ElfLoader.Loader.ReadWord | Kickstart/Multiboot/elf.c:117-123 | value and advanced cursor |
| ElfLoader.Loader.ReadAddr | Kickstart/Multiboot/elf.c:83-115 | value and advanced cursor, by file class |
| ElfLoader.Loader.Initialize | Kickstart/Multiboot/elf.c:133-220 | result and header record are those of `ParseHeader` |
| ElfLoader.Loader.ReadFields | Kickstart/Multiboot/elf.c:170-219 | type and machine decide; the record is filled |
| ElfLoader.Loader.ReadRest | Kickstart/Multiboot/elf.c:192-215 | the fields behind e_machine, in order |
| ElfLoader.Loader.ReadSegment | Kickstart/Multiboot/elf.c:245-280 | one program header, in order |
| ElfLoader.Loader.MapSegment | Kickstart/Multiboot/elf.c:313-316 | the inner loop is the run of the segment's requests |
| ElfLoader.Loader.LoadOne | Kickstart/Multiboot/elf.c:290-319 | one segment in place is `LoadSegment` |
| ElfLoader.Loader.Expand | Kickstart/Multiboot/elf.c:228-331 | memory, allocator and result are `Expand` of the old state; the entry point is set if and only if it succeeds; for a 386 file nothing else changes |
| ElfExpand.SegmentLaw | Kickstart/Multiboot/elf.c:290-319 | a loaded segment's pages lead to consecutive private frames holding the file's bytes and zeros; everything else keeps its translation and value |
| ElfExpand.ExpandLaw | Kickstart/Multiboot/elf.c:243-320 | from any header on: all later segments loaded into frames nothing private stood in, no two sharing a frame, all earlier ones and the file undisturbed |
| ElfExpand.LoaderCorrect | Kickstart/Multiboot/elf.c:228-331 | if expansion succeeds, walking p_vaddr+k gives the file's byte k below p_filesz and zero behind, writable and executable as p_flags says |
| ElfExpand.LoaderFrames | Kickstart/Multiboot/elf.c:228-331 | the file keeps its bytes and pages outside the segments keep their translation |
| Headroom.LoadRoom | Kickstart/Multiboot/elf.c:290-303 | a segment of any size the loader can handle, none included, is loaded if and only if it is not empty and some free entry has room for its pages |
| Headroom.SizesAbove | Kickstart/Multiboot/elf.c:290-316 | sizes above 0xFFFFF000 and below 4 GiB ask for 2^20 pages of byte length zero: wherever some memory is free the start of a free entry is returned, and 2^20 pages are to be mapped from there |
| Headroom.LoaderSucceeds | Kickstart/Multiboot/elf.c:228-331 | expansion succeeds when one free entry could hold all segments and tables |
| LoaderSlots.ExpandSlotsLaw | Kickstart/Multiboot/elf.c:243-320 | the loader takes no more slots of `memory_regions` than the pages it needs |
| Boot.BootReady | Kickstart/Multiboot/main.c:170-176 | starting the pager over taken memory leaves everything the loader relies on, and that memory as it was |
| Boot.ReadyAfterStart | Kickstart/Multiboot/main.c:170-176 | over a taken file the memory as the pager leaves it meets everything the loader is promised for, and shows the segments that were there before |
| Boot.BootLoads | Kickstart/Multiboot/main.c:170-180 | with the file's memory taken: start the pager, expand, and every byte of every segment reads back |
| Headroom.BootSucceeds | Kickstart/Multiboot/main.c:170-180 | the same succeeds when one free entry could hold all of it |
| Kickstart.ReserveReady | Kickstart/Multiboot/pmm.c:54-135 | a reservation leaves the allocator with low free memory only, if and only if its entry ends by 4 GiB or the range ends below 1 MiB |
| Kickstart.ReserveExposes | Kickstart/Multiboot/pmm.c:54-135 | out of one free entry from 0 to 8 GiB a reservation at 1 MiB exposes memory above 4 GiB |
| Kickstart.ReserveKeepsLow | Kickstart/Multiboot/pmm.c:54-135 | where nothing above 4 GiB is free it always does |
| Kickstart.StillContained | Kickstart/Multiboot/main.c:148-151 | a range clear of the first reservation is still inside one free entry after it |
| Kickstart.BothTaken | Kickstart/Multiboot/main.c:148-151 | both reservations are legal, and take every address of both ranges |
| Kickstart.KickstartLoads | Kickstart/Multiboot/main.c:148-180 | with no free memory above 4 GiB: reserve the image and the module, decode the module's header, start the pager, expand; if that succeeds every byte of every segment reads back at its virtual address with its permissions |
| Kickstart.KickstartSucceeds | Kickstart/Multiboot/main.c:148-180 | and all of it succeeds when one free entry left could hold all segments and tables |
| Kickstart.ImagesLeftAlone | Kickstart/Multiboot/main.c:148-180 | whole-boot separation: every byte of the image and of the module keeps its value, in no page table and in no frame of any segment; no two segments share a frame, no frame has a byte of a table, and no two tables share a page |
| BootRuns.MapPageServed | Kickstart/Multiboot/pager.c:54-153 | the allocator calls of mapping a page, one per missing table: all legal, all served, and each new table of the tree is the page its call returned |
| BootRuns.PagerServed | Kickstart/Multiboot/pager.c:9-52 | the calls of the pager's start: the first returns the four tables from the root on |
| BootRuns.SegmentServed | Kickstart/Multiboot/elf.c:290-319 | the calls of loading a segment: the first returns just its frames, the others its new tables |
| BootRuns.ExpandServed | Kickstart/Multiboot/elf.c:243-320 | the calls of the loader's loop, and for every segment and every new table the call that returned it |
| BootRuns.UsesDisjoint | Kickstart/Multiboot/main.c:148-180 | over a run of such calls no two callers use the same memory |
| BootRuns.FreeAfter | Kickstart/Multiboot/main.c:148-180 | conservation: what is free after such a run is what was free before it less what the callers use |
| BootRuns.BootIsOneRun | Kickstart/Multiboot/main.c:148-180 | the calls of the whole boot, both reservations first, are one such run that leads to the final region list; when the kernel is loaded every page table is one of the first four pages or the page of its own call, and every segment's frames are its call's |
| HighMemory.BootMasked | Kickstart/Multiboot/main.c:170-180 | whatever is free above 4 GiB, with one entry below that could hold everything pager and loader succeed and leave the same memory, and otherwise the same list, as if all above were broken |
| HighMemory.HighLoads | Kickstart/Multiboot/main.c:148-180 | so from any such map: reserve both, decode, start, expand succeeds, and every byte of every segment reads back |
| HighMemory.HighLeftAlone | Kickstart/Multiboot/main.c:148-180 | with the same whole-boot separation |
| SmallKernel.SmallKernelBoots | Kickstart/Multiboot/main.c:148-180 | for every memory holding an image and a one-segment class-64 module of at most a page: both are reserved, the header is accepted, all succeeds, and every byte reads back. What the theorems above ask for can be had |
| Window.BasesAre | Kernel/Arch/x86_64/memory-manager.c:27-31 | the window's bases are the sums of the shifted slot number |
| Window.WindowAddress | Kernel/Arch/x86_64/memory-manager.c:33-62 | each shift-and-mask address is page-aligned and lies in the page made of slot 510 and the shifted indices |
| Window.WindowIndices | Kernel/Arch/x86_64/memory-manager.c:33-62 | the indices of the window pages |
| Window.WindowWalk | Kernel/Arch/x86_64/memory-manager.c:33-62 | in any memory with the recursive slot, the window address of a level translates to the frame named by the entry the ordinary walk reads one level up, and to nothing where that walk does not get so far |
| Window.WindowIsTable | Kernel/Arch/x86_64/memory-manager.c:33-62 | where the upper levels are present that is precisely the table the ordinary walk uses |
| Window.FractalEntryIs | Kernel/Arch/x86_64/memory-manager.c:83-84 | the composed entry is no-execute, writable, present, and names the table |
| Window.InstallSlot | Kernel/Arch/x86_64/memory-manager.c:82-84 | filling an empty slot 510 keeps the tree well formed and changes no walk outside that slot |
| KernelMap.TreeWindow | Kernel/Arch/x86_64/memory-manager.c:407-432 | on a well-formed tree the window page of each level is the writable table of that level, absent where there is none |
| KernelMap.WindowAccess | Kernel/Arch/x86_64/memory-manager.c:407-453 | loads and stores through the window are loads and stores in the table |
| KernelMap.MapOneIs | Kernel/Arch/x86_64/memory-manager.c:396-458 | one turn writes the entry exactly when the page has a page table and an empty entry, and otherwise changes nothing |
| KernelMap.WindowStable | Kernel/Arch/x86_64/memory-manager.c:452-454 | a page-table write changes no walk of the window it was made through |
| KernelMap.MapEndLaw | Kernel/Arch/x86_64/memory-manager.c:389-461 | however the call ends: the free pages up to the first obstacle map to consecutive frames, the end of the kernel moved past just those, no other walk and no memory outside tables changed, and the result names the obstacle |
| KernelMap.MapEndMaps | Kernel/Arch/x86_64/memory-manager.c:389-461 | success if and only if every page is free; then old_end+i pages go to phys+i frames with the permissions, and all other walks, the window's among them, are unchanged |
| KernelMap.AbsentDirectory | Kernel/Arch/x86_64/memory-manager.c:415-433 | on a tree whose PDPT is empty the code does not stop at the absent entry: the next access faults |
| Handover.InstalledIs | Kernel/Arch/x86_64/memory-manager.c:79-84 | in the loader's tree, with nothing under slot 510, installing the slot keeps every entry and all memory outside the tables |
| Handover.KernelKeepsImage | Kernel/Arch/x86_64/memory-manager.c:79-84 | load, install the window, map at the end of the kernel, however that ends: every byte of every segment still reads as the file says |
| Handover.KernelMapsBehindImage | Kernel/Arch/x86_64/memory-manager.c:389-461 | pages beside the kernel's segments take the mapping, and each then translates to its frame |
| Handover.BootKeepsImage | Kickstart/Multiboot/main.c:148-180 | the same from the firmware's map on: both reservations, pager, loader, window, mapping, and every byte still reads as the module says |
| Handover.BootMapsBehindImage | Kernel/Arch/x86_64/memory-manager.c:389-461 | from the firmware's map on, pages beside the module's segments take the mapping |
| MemoryManager.KernelMemory.constructor | Kernel/Arch/x86_64/memory-manager.c:76-77 | the end of the kernel is rounded up to a page |
| MemoryManager.KernelMemory.InstallFractalMap | Kernel/Arch/x86_64/memory-manager.c:79-84 | one word of memory changes, to the recursive entry |
| MemoryManager.KernelMemory.LoadVirtual | Kernel/Arch/x86_64/memory-manager.c:407-433 | a load through the processor's walk |
| MemoryManager.KernelMemory.StoreVirtual | Kernel/Arch/x86_64/memory-manager.c:453 | a store through the processor's walk |
| MemoryManager.KernelMemory.MapAtEnd | Kernel/Arch/x86_64/memory-manager.c:396-457 | one turn in place is `MapOne` |
| MemoryManager.KernelMemory.VirtMapPagesKernelEnd | Kernel/Arch/x86_64/memory-manager.c:389-461 | memory, end of the kernel and outcome are `MapEnd` of the old state; the old end is returned exactly on success |
| Physmap.RunIsMaximal | Kernel/Arch/x86_64/memory-manager.c:108-136 | a run is a chain of touching AVAILABLE or ALLOCATED entries that cannot be made longer |
| Physmap.RecordsAre | Kernel/Arch/x86_64/memory-manager.c:99-301 | both loops make one record for each entry that is neither AVAILABLE nor ALLOCATED or does not start where such an entry before it ends, in order, reaching to the next such entry, with its first start, length and type |
| Physmap.OwnRecord | Kernel/Arch/x86_64/memory-manager.c:216-301 | every entry neither AVAILABLE nor ALLOCATED has a record of its own with its start, length and type, and no other record reaches into it |
| Physmap.LoopsAgree | Kernel/Arch/x86_64/memory-manager.c:101-164 | both loops find the same number of runs; the bitmaps take exactly one byte more than counted per short run, so they agree if and only if there is none, and fit their pages if and only if the surplus does |
| Physmap.LayoutFits | Kernel/Arch/x86_64/memory-manager.c:161-169 | on page-aligned maps every bitmap has a bit per page and no byte more than that takes, bitmaps are disjoint and before the records, and all lies inside `phys_manager_page_count` pages |
| Physmap.PagesExactly | Kernel/Arch/x86_64/memory-manager.c:161-169 | that count from both sides: whole pages for the bitmap bytes counted, and for 32 bytes a record, each one more than the full ones |
| Physmap.RecordsPacked | Kernel/Arch/x86_64/memory-manager.c:255-267 | each bitmap starts where the one before it ends |
| Physmap.PackedApart | Kernel/Arch/x86_64/memory-manager.c:265-267 | consecutive bitmaps never overlap and stay inside what they use in all |
| Physmap.CountersFit | Kernel/Arch/x86_64/memory-manager.c:92-169 | bounds that keep the 64-bit counters from wrapping |
| Physmap.MapConserved | Kernel/Arch/x86_64/memory-manager.c:216-301 | every address keeps its type: AVAILABLE exactly where it was AVAILABLE or ALLOCATED, reserved exactly where RESERVED or KERNEL, the three other types one to one, uncovered where uncovered |
| Physmap.RecordsTidy | Kernel/Arch/x86_64/memory-manager.c:216-301 | records are ordered, disjoint, not empty, no two AVAILABLE ones touch, and exactly the AVAILABLE ones have a bitmap |
| Physmap.MarkHits | Kernel/Arch/x86_64/memory-manager.c:331-358 | the lookup finds the record that holds the page if and only if that is the first record |
| Physmap.MarkMisses | Kernel/Arch/x86_64/memory-manager.c:331-358 | with two banks of free memory the first page of the second is looked up in the first one's record |
| Handoff.StepHands | Kickstart/Multiboot/pmm.c:11-277 | every allocator call keeps free and allocated entries in whole pages |
| Handoff.HandoffFits | Kernel/Arch/x86_64/memory-manager.c:141-169 | after any run of Kickstart's allocator the kernel's layout is exact, disjoint and inside its pages, and the pages are no more than that takes |
| MemoryManager.KernelMemory.CountRuns | Kernel/Arch/x86_64/memory-manager.c:92-157 | the counting loop counts the entries that begin a record, and the bits |
| MemoryManager.KernelMemory.FindRoom | Kernel/Arch/x86_64/memory-manager.c:171-197 | on ordered maps below 2^52: the lowest start of an AVAILABLE entry from 1 MiB on that has the pages, zero if and only if there is none |
| ManagerInit.RoomIsLowest | Kernel/Arch/x86_64/memory-manager.c:171-197 | the same of the search as a function |
| ManagerInit.SuitableIsFree | Kernel/Arch/x86_64/memory-manager.c:178-190 | all pages the manager takes there are AVAILABLE |
| ManagerInit.BootedTaken | Kickstart/Multiboot/main.c:170-180 | as Kickstart leaves it, every table of the tree lies in ALLOCATED memory |
| ManagerInit.ManagerStands | Kernel/Arch/x86_64/memory-manager.c:74-211 | from the loader's tree: the manager starts if and only if an AVAILABLE entry from 1 MiB on has its pages; then every byte behind the old end of the kernel is a writable, zeroed byte of the lowest such entry, and no other walk outside the window changes |
| ManagerInit.ManagerHolds | Kernel/Arch/x86_64/memory-manager.c:210-301 | the 32 bytes of every record and all bytes of every bitmap are such bytes |
| ManagerInit.RefusedClearsLow | Kernel/Arch/x86_64/memory-manager.c:205-214 | where the mapping is refused the manager clears the lowest pages of memory and goes on there |
| MemoryManager.KernelMemory.Populate | Kernel/Arch/x86_64/memory-manager.c:212-301 | the populating loop leaves `Records` in the array, without leaving its bounds: one record for each entry that begins one |
| MemoryManager.KernelMemory.ClearVirtual | Kernel/Arch/x86_64/memory-manager.c:210 | clearing pages through the walk is `ClearPages` |
| MemoryManager.KernelMemory.InitMemoryManager | Kernel/Arch/x86_64/memory-manager.c:79-301 | window, counts, search, mapping, clearing and populating, in order: memory, end of the kernel and outcome are `InitManager`, and the records those for the address it starts at |

## Left out

- Serial output, number formatting, port I/O, CPUID, all assembly and `string.c`: device code and plain routines; `memset` and `memcpy` appear as the loops `Memset` and `Memcpy` with their effect on memory.
- The Multiboot tag walk of `main.c`: only the order reserve, parse, start the pager, expand is used.
- 32-bit paging and the X86 branch of `elf_expand`: the code does nothing there, and neither does the model.
- Overlapping firmware maps: the code declares them unhandled; `RegionEdges.AddAlways` proves that an overlapping add never leaves a map, and no run contains one.
- TLB behaviour and `invlpg`: walks read memory directly.
- The end of `init_memory_manager`: the loops that mark pages busy; of `pmm_mark_page_busy` only the lookup is modelled, and `pmm_free_page` uses the same one.
- Large pages: the walk treats an upper entry with the PS bit as no 4 KiB translation, and user, accessed and dirty bits are not modelled.
- How Kickstart reaches physical addresses: it runs with paging off, so its loads and stores are on physical memory.
- `memory_regions` lies in Kickstart's own image; the model keeps it apart from the byte memory, so loads and stores never alias it.
- PagingLaws.MapPageLaw: requires one free page per missing table and AVAILABLE memory from 1 MiB on to lie below 4 GiB, because the code does not test the allocator's result and keeps 32 bits of it.
- Kickstart.KickstartLoads: asks for no free memory above 4 GiB (`HighMemory.HighLoads` asks for one free entry below it with room for everything instead), image and module apart, each inside one free entry and ending by 0xFFFFF000, and segments above the identity map.
- Pager.PagingMachine.InitializePager: requires the four pages the allocator returns to end by 4 GiB, as they always do in low memory; past that the code's 32-bit addresses wrap.
- ElfExpand.LoaderCorrect: requires 0 < p_memsz < 4 GiB and p_filesz <= p_memsz for each loaded segment, page-aligned addresses, pages no two segments share, and a class-64 AMD64 file; the code checks none of this but the machine.
- ElfLoader.Loader.Initialize: what the header record holds after a failed call is not specified.
- ElfLoader.Loader.Expand: requires sizes the loader can handle, frames that end by 4 GiB and enough array slots at the start; `LoaderSlots.ExpandSlotsLaw` and `ElfExpand.ExpandLaw` derive all of it for good images in low memory.
- KernelMap.MapEndLaw: requires a range that does not wrap and stays clear of slot 510, and frames below 2^52; canonical-address checks are not modelled, and a store to a read-only page always faults.
- MemoryManager.KernelMemory.Populate: the records are an array object of the size the mapped pages hold, not bytes behind the window, and bitmap addresses are unbounded numbers.
- MemoryManager.KernelMemory.InitMemoryManager: memory is not specified after a fault, and its `memset` clears a page at a time.
- MemoryManager.KernelMemory.CountRuns: its counters are unbounded numbers; `Physmap.CountersFit` bounds them.
