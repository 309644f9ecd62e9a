/** The whole boot on a family of concrete inputs: free memory from 1 MiB to
    1 GiB, Kickstart's image, and a module with one segment of at most one page.
    It shows that what the boot theorems ask for can be had. */
module SmallKernel {
  import opened Bits
  import opened Options
  import opened Bytes
  import opened Memory
  import opened PageTables
  import opened Regions
  import opened RegionOps
  import opened RegionLaws
  import opened PageBudget
  import opened Paging
  import opened PagingLaws
  import opened MapRuns
  import opened PagerInit
  import opened Elf
  import opened ElfLoad
  import opened ElfExpand
  import opened Boot
  import opened Headroom
  import opened Kickstart
  import Runs

  const IMAGE: u32 := 0x10_0000
  const IMAGE_END: u32 := 0x11_0000
  const BASE: u32 := 0x20_0000
  const END: u32 := 0x20_2000
  const VADDR: nat := 0x4000_0000

  function Map(): seq<Region> {
    [Region(0x10_0000, 0x4000_0000, Available)]
  }

  /** An executable for x86-64 with one program header behind the file header. */
  predicate OneSegment(raw: RawHeader) {
    raw.kind == 2 && raw.machine == 62 && raw.phoff == 64 && raw.phentsize == 56 && raw.phnum == 1
  }

  function Phdr(flags: u32, filesz: nat, memsz: nat): ProgramHeader {
    ProgramHeader(1, flags, 0x1000, VADDR, 0, filesz, memsz, 0x1000)
  }

  /** The memory holds such a file at BASE. */
  ghost predicate HoldsModule(m: Mem, raw: RawHeader, pad: seq<byte>, flags: u32, filesz: nat, memsz: nat) {
    && |m| == 0x1_0000_0000 && filesz <= memsz && 0 < memsz <= 0x1000
    && OneSegment(raw) && IsHeader(m, BASE, raw, Class64, Little, pad)
    && HoldsFile(m, BASE + 64, EncodeFields(PhdrFields(Phdr(flags, filesz, memsz), Class64), Little))
  }

  function FileHeader(raw: RawHeader): Header {
    Header(BASE, Class64, Little, Amd64, raw.entry, 64, 56, 1)
  }

  function TheSegment(flags: u32, filesz: nat, memsz: nat): Segment {
    Segment(true, flags, 0x1000, VADDR, filesz, memsz)
  }

  lemma FieldsFit(flags: u32, filesz: nat, memsz: nat)
    requires filesz <= memsz <= 0x1000
    ensures forall i :: 0 <= i < 8 ==> FieldOk(PhdrFields(Phdr(flags, filesz, memsz), Class64)[i])
  {
    hide Pow2;
    Pow2Values();
    ThirtyTwo();
  }

  lemma HeaderIs(m: Mem, raw: RawHeader, pad: seq<byte>, flags: u32, filesz: nat, memsz: nat)
    requires HoldsModule(m, raw, pad, flags, filesz, memsz)
    ensures ParseHeader(m, BASE) == Some(FileHeader(raw))
  {
    hide EncodeHeader, EncodeFields, HoldsFile, RawOk, ParseHeader;
    HeaderRoundTrip(m, BASE, raw, Class64, Little, pad);
  }

  lemma SegmentIs(m: Mem, raw: RawHeader, pad: seq<byte>, flags: u32, filesz: nat, memsz: nat)
    requires HoldsModule(m, raw, pad, flags, filesz, memsz)
    ensures SegmentAt(m, FileHeader(raw), 0) == TheSegment(flags, filesz, memsz)
  {
    hide EncodeFields, HoldsFile, FieldOk, ParseSegment, IsHeader;
    FieldsFit(flags, filesz, memsz);
    HeaderAddress(FileHeader(raw), 0x2000, 0);
    SegmentRoundTrip(m, BASE + 64, Little, Phdr(flags, filesz, memsz));
  }

  lemma ModuleIsGood(m: Mem, raw: RawHeader, pad: seq<byte>, flags: u32, filesz: nat, memsz: nat)
    requires HoldsModule(m, raw, pad, flags, filesz, memsz)
    ensures GoodModule(m, BASE, END, FileHeader(raw))
  {
    hide SegmentAt, HoldsFile, EncodeFields, IsHeader, ParseHeader;
    HeaderIs(m, raw, pad, flags, filesz, memsz);
    SegmentIs(m, raw, pad, flags, filesz, memsz);
    var g := TheSegment(flags, filesz, memsz);
    assert GoodSegment(g, 0x2000);
    OnlyPage(g);
  }

  lemma OnlyPage(g: Segment)
    requires g.vaddr == VADDR && 0 < g.memsz <= 0x1000
    ensures PagesNeeded(g.memsz) == 1
    ensures forall u: nat :: PageOfSegment(g, u) ==> u == 0x4_0000
  {
    PagesCover(g.memsz);
    assert PageOf(VADDR + 0) == 0x4_0000;
  }

  // ----- the map -----

  lemma BoundsAre()
    ensures PageFloor32(IMAGE) == IMAGE && PageCeil32(IMAGE_END) == IMAGE_END
    ensures PageFloor32(BASE) == BASE && PageCeil32(END) == END
    ensures PageFloor32(0x3000_0000) == 0x3000_0000 && PageCeil32(0x3001_0000) == 0x3001_0000
  {
    hide And;
  }

  lemma FreeIs()
    ensures forall a :: TypeAt(Map(), a) == Some(Available) ==> 0x10_0000 <= a < 0x4000_0000
  {
    var s := Map();
    forall a | TypeAt(s, a) == Some(Available) ensures 0x10_0000 <= a < 0x4000_0000 {
      var i := TypeAtWitness(s, a);
      assert s[i] == s[0];
    }
  }

  lemma AllContained()
    ensures Sound(Map()) && Runs.LowFree(Map())
    ensures Contained(Map(), IMAGE, IMAGE_END) && Contained(Map(), BASE, END)
    ensures Contained(Map(), 0x3000_0000, 0x3001_0000)
  {
    hide And, PageFloor32, PageCeil32;
    BoundsAre();
    var s := Map();
    assert Holds(s[0], IMAGE, IMAGE_END) && Holds(s[0], BASE, END) && Holds(s[0], 0x3000_0000, 0x3001_0000);
    FreeIs();
  }

  lemma MapIsStart()
    ensures StartMap(Map(), IMAGE, IMAGE_END, BASE, END)
  {
    hide Contained, Sound, Runs.LowFree;
    BoundsAre();
    AllContained();
  }

  function Taken(): seq<Region> { BothReserved(Map(), IMAGE, IMAGE_END, BASE, END) }

  /** The memory at 0x3000_0000 is still in one free entry. */
  lemma RoomLeft()
    ensures Contained(Taken(), 0x3000_0000, 0x3001_0000)
    ensures Valid(Taken()) && forall a :: a < 0x10_0000 ==> TypeAt(Taken(), a) != Some(Available)
  {
    hide Contained, Sound, Runs.LowFree, Reserve, TypeAt, And, Ready;
    var s := Map();
    BoundsAre();
    AllContained();
    FreeIs();
    StillContained(s, IMAGE, IMAGE_END, 0x3000_0000, 0x3001_0000);
    StillContained(s, IMAGE, IMAGE_END, BASE, END);
    ReserveKeepsLow(s, IMAGE, IMAGE_END);
    var r1 := Reserve(s, IMAGE, IMAGE_END);
    StillContained(r1, BASE, END, 0x3000_0000, 0x3001_0000);
    ReserveKeepsLow(r1, BASE, END);
    SoundIsValid(Taken());
    ReserveLaw(s, IMAGE, IMAGE_END);
    ReserveLaw(r1, BASE, END);
  }

  lemma Roomy(m: nat)
    requires m <= 8
    ensures RoomFor(Taken(), m)
  {
    hide Taken, TypeAt, And, PageFloor32, PageCeil32;
    RoomLeft();
    BoundsAre();
    var t := Taken();
    var i: nat :| i < |t| && t[i].kind == Available && t[i].start <= 0x3000_0000 && 0x3001_0000 <= t[i].end;
    TypeAtEntry(t, i, t[i].start);
    assert TypeAt(t, t[i].start) == Some(Available);
    assert t[i].start >= 0x10_0000;
    assert HasRoom(t[i], m);
  }

  lemma DemandIsSmall(m: Mem, raw: RawHeader, pad: seq<byte>, flags: u32, filesz: nat, memsz: nat)
    requires HoldsModule(m, raw, pad, flags, filesz, memsz)
    ensures BootDemand(m, FileHeader(raw)) <= 4
  {
    hide SegmentAt, HoldsFile, EncodeFields, Path, IsHeader;
    var h, g := FileHeader(raw), TheSegment(flags, filesz, memsz);
    var have := FirstKeys(0).Keys;
    SegmentIs(m, raw, pad, flags, filesz, memsz);
    DemandUnfolds(have, m, h, 0);
    OnlyPage(g);
    var r := SegReqs(0, g);
    assert |r| == 1 && r[1..] == [];
    assert Need(have + Path(r[0].Page()), r[1..]) == 0;
    assert Missing(have, r[0].Page()) <= 3;
    assert Demand(Covered(have, r), m, h, 1) == 0;
  }

  // ----- the boot -----

  /** Such a kernel boots: both ranges are reserved, the header is accepted, the
      pager starts, the file is expanded, and each byte of its segment reads back
      where the program header says. */
  lemma SmallKernelBoots(m: Mem, raw: RawHeader, pad: seq<byte>, flags: u32, filesz: nat, memsz: nat, k: nat)
    requires HoldsModule(m, raw, pad, flags, filesz, memsz) && k < memsz
    ensures PagerFits(Sys(m, Taken())) && ParseHeader(m, BASE) == Some(FileHeader(raw))
    ensures var (s1, top) := InitializePager(Sys(m, Taken()));
            && top.Some? && PagerReady(s1, top.value) && Loadable(s1, top.value, FileHeader(raw), 0)
            && var (s2, ok) := Expand(s1, top.value, FileHeader(raw));
               ok && ReadsAs(s2.mem, top.value, VADDR + k, flags / 2 % 2 == 1, flags % 2 == 1,
                             if k < filesz then m[BASE + 0x1000 + k] else 0)
  {
    hide *;
    var s, h := Map(), FileHeader(raw);
    MemoryThere(m, raw, pad, flags, filesz, memsz);
    MapIsStart();
    HeaderIs(m, raw, pad, flags, filesz, memsz);
    ModuleIsGood(m, raw, pad, flags, filesz, memsz);
    SegmentIs(m, raw, pad, flags, filesz, memsz);
    DemandIsSmall(m, raw, pad, flags, filesz, memsz);
    TakenIs();
    Roomy(4 + BootDemand(m, h));
    RoomIsFree(Taken(), 4 + BootDemand(m, h));
    HeaderParts(raw);
    KickstartSucceeds(m, s, IMAGE, IMAGE_END, BASE, END, h);
    StartedIs(m, s, IMAGE, IMAGE_END, BASE, END);
    ImageIs(m, flags, filesz, memsz, k);
    KickstartLoads(m, s, IMAGE, IMAGE_END, BASE, END, h, 0, k);
  }

  lemma TakenIs()
    ensures Taken() == BothReserved(Map(), IMAGE, IMAGE_END, BASE, END)
  {
  }

  lemma MemoryThere(m: Mem, raw: RawHeader, pad: seq<byte>, flags: u32, filesz: nat, memsz: nat)
    requires HoldsModule(m, raw, pad, flags, filesz, memsz)
    ensures |m| == 0x1_0000_0000 && BASE + 0x2000 <= |m| && filesz <= memsz <= 0x1000
  {
  }

  lemma HeaderParts(raw: RawHeader)
    ensures FileHeader(raw).base == BASE && FileHeader(raw).phnum == 1
  {
  }

  lemma ImageIs(m: Mem, flags: u32, filesz: nat, memsz: nat, k: nat)
    requires |m| == 0x1_0000_0000 && k < memsz <= 0x1000
    ensures var g := TheSegment(flags, filesz, memsz);
            && g.load && g.vaddr == VADDR && g.flags == flags && g.memsz == memsz
            && ImageByte(m, BASE, g, k) == if k < filesz then m[BASE + 0x1000 + k] else 0
  {
  }
}
