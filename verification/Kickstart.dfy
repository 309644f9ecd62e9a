/** The boot of Kickstart/Multiboot/main.c:148-180 from a map of free memory:
    reserve Kickstart's image and the kernel module, decode the module's header,
    start the pager, expand. */
module Kickstart {
  import opened Bits
  import opened Options
  import opened Memory
  import opened PageTables
  import opened Regions
  import opened RegionOps
  import opened RegionLaws
  import opened RegionEdges
  import opened PageBudget
  import opened Paging
  import opened PagerInit
  import opened Elf
  import opened ElfLoad
  import opened ElfExpand
  import opened Boot
  import opened Headroom
  import Runs
  import TombstoneSort

  // ----- reservations -----

  /** Some one free entry contains the pages of [start, end). */
  predicate Contained(s: seq<Region>, start: u32, end: u32) {
    exists i :: 0 <= i < |s| && s[i].kind == Available
                && s[i].start <= PageFloor32(start) && PageCeil32(end) <= s[i].end
  }

  /** A reservation keeps the allocator fit for the pager exactly when what it
      leaves behind the range, if that starts at 1 MiB or above, ends by 4 GiB:
      free memory that started below 1 MiB may not have. */
  lemma ReserveReady(s: seq<Region>, start: u32, end: u32)
    requires Ready(s) && PageFloor32(start) < PageCeil32(end) && Contained(s, start, end)
    ensures var to := PageCeil32(end);
            var i := Container(s, PageFloor32(start), to);
            i < |s| && (Ready(Reserve(s, start, end)) <==> s[i].end <= 0x1_0000_0000 || to < ONE_MIB)
  {
    hide And, TypeAt, TombstoneSort.Compact;
    var from, to := PageFloor32(start), PageCeil32(end);
    ReserveLaw(s, start, end);
    var i := Container(s, from, to);
    ReserveSplits(s, i, from, to);
    InsideLow(s, i, from, to);
  }

  lemma InsideLow(s: seq<Region>, i: nat, from: u32, to: u32)
    requires Runs.Low(s) && i < |s| && Holds(s[i], from, to) && from < to
    ensures Runs.Low(Splice(s, i, Inside(s[i], from, to))) <==> s[i].end <= 0x1_0000_0000 || to < ONE_MIB
  {
    var mid, t := Inside(s[i], from, to), Splice(s, i, Inside(s[i], from, to));
    var last := |mid| - 1;
    if s[i].end <= 0x1_0000_0000 || to < ONE_MIB {
      forall k | 0 <= k < |t| && t[k].kind == Available && ONE_MIB <= t[k].start ensures t[k].end <= 0x1_0000_0000 {
        assert t[k] == if k < i then s[k] else if k < i + |mid| then mid[k - i] else s[k - |mid| + 1];
      }
    } else {
      assert mid[last] == Region(to, s[i].end, Available) && t[i + last] == mid[last];
    }
  }

  /** One free entry from address zero to 8 GiB gives the allocator nothing, as it
      starts below 1 MiB; reserving 1 MiB out of it exposes what lies above 4 GiB. */
  lemma ReserveExposes()
    ensures var s := [Region(0, 0x2_0000_0000, Available)];
            Ready(s) && !Ready(Reserve(s, 0x10_0000, 0x20_0000))
  {
    hide And, Reserve;
    var s := [Region(0, 0x2_0000_0000, Available)];
    assert PageFloor32(0x10_0000) == 0x10_0000 && PageCeil32(0x20_0000) == 0x20_0000;
    assert Holds(s[0], 0x10_0000, 0x20_0000);
    ReserveReady(s, 0x10_0000, 0x20_0000);
  }

  /** Where no free memory reaches above 4 GiB reservations always keep it. */
  lemma ReserveKeepsLow(s: seq<Region>, start: u32, end: u32)
    requires Sound(s) && Runs.LowFree(s) && PageFloor32(start) < PageCeil32(end)
    ensures var t := Reserve(s, start, end); Sound(t) && Runs.LowFree(t) && Ready(t)
  {
    hide Sound, Runs.LowFree, Runs.Low, And, Reserve;
    assert Runs.Legal(s, Runs.DoReserve(start, end));
    Runs.StepKeeps(s, Runs.DoReserve(start, end));
    Runs.StepKeepsLow(s, Runs.DoReserve(start, end));
    SoundIsValid(Reserve(s, start, end));
    Runs.LowByTypes(Reserve(s, start, end));
  }

  lemma SoundIsValid(s: seq<Region>)
    requires Sound(s)
    ensures Valid(s)
  {
  }

  /** A range clear of the first one is still contained after it is reserved. */
  lemma StillContained(s: seq<Region>, ks: u32, ke: u32, ms: u32, me: u32)
    requires Sound(s) && Contained(s, ks, ke) && Contained(s, ms, me)
    requires PageFloor32(ks) < PageCeil32(ke) && PageFloor32(ms) < PageCeil32(me)
    requires PageCeil32(ke) <= PageFloor32(ms) || PageCeil32(me) <= PageFloor32(ks)
    ensures Contained(Reserve(s, ks, ke), ms, me)
  {
    hide And, TypeAt, TombstoneSort.Compact, Sound, Splice, Inside, ReserveRaw, PageFloor32, PageCeil32;
    var from, to := PageFloor32(ks), PageCeil32(ke);
    SoundIsValid(s);
    var i := Container(s, from, to);
    ReserveSplits(s, i, from, to);
    var j: nat :| j < |s| && Holds(s[j], PageFloor32(ms), PageCeil32(me));
    if j == i {
      SecondInside(s, i, from, to, PageFloor32(ms), PageCeil32(me));
    } else {
      OtherStays(s, i, Inside(s[i], from, to), j);
      var t := Splice(s, i, Inside(s[i], from, to));
      var k :| 0 <= k < |t| && t[k] == s[j];
      assert Holds(t[k], PageFloor32(ms), PageCeil32(me));
    }
  }

  lemma OtherStays(s: seq<Region>, i: nat, mid: seq<Region>, j: nat)
    requires i < |s| && j < |s| && i != j
    ensures var t := Splice(s, i, mid); exists k :: 0 <= k < |t| && t[k] == s[j]
  {
    var k := if j < i then j else j + |mid| - 1;
    assert Splice(s, i, mid)[k] == s[j];
  }

  lemma SecondInside(s: seq<Region>, i: nat, from: u32, to: u32, from2: u32, to2: u32)
    requires i < |s| && Holds(s[i], from, to) && Holds(s[i], from2, to2) && from < to && from2 < to2
    requires to <= from2 || to2 <= from
    ensures var t := Splice(s, i, Inside(s[i], from, to)); exists k :: 0 <= k < |t| && Holds(t[k], from2, to2)
  {
    var mid := Inside(s[i], from, to);
    var k := if to <= from2 then |mid| - 1 else 0;
    assert Holds(mid[k], from2, to2);
    assert Splice(s, i, mid)[i + k] == mid[k];
  }

  /** Everything reserved so far. */
  function BothReserved(s: seq<Region>, ks: u32, ke: u32, ms: u32, me: u32): seq<Region> {
    Reserve(Reserve(s, ks, ke), ms, me)
  }

  /** Kickstart's image and the module apart and each inside one free entry. */
  predicate Bounds(s: seq<Region>, ks: u32, ke: u32, ms: u32, me: u32) {
    && ks < ke && ms < me && Contained(s, ks, ke) && Contained(s, ms, me)
    && (PageCeil32(ke) <= PageFloor32(ms) || PageCeil32(me) <= PageFloor32(ks))
  }

  lemma RoundedBounds(start: u32, end: u32)
    requires start < end
    ensures PageFloor32(start) <= start
    ensures PageFloor32(start) < PageCeil32(end) ==> end <= PageCeil32(end)
    ensures PageCeil32(end) == 0 || PageFloor32(start) < PageCeil32(end)
  {
    hide And;
  }

  /** What main.c starts from: firmware memory in order, with room for both. */
  ghost predicate FirmwareMap(s: seq<Region>, ks: u32, ke: u32, ms: u32, me: u32) {
    Sound(s) && Bounds(s, ks, ke, ms, me) && PageCeil32(ke) > 0 && PageCeil32(me) > 0
  }

  /** ... and none of it free above 4 GiB. */
  ghost predicate StartMap(s: seq<Region>, ks: u32, ke: u32, ms: u32, me: u32) {
    FirmwareMap(s, ks, ke, ms, me) && Runs.LowFree(s)
  }

  lemma StartParts(s: seq<Region>, ks: u32, ke: u32, ms: u32, me: u32)
    requires FirmwareMap(s, ks, ke, ms, me)
    ensures ks < ke && ms < me
  {
  }

  lemma FirmwareStart(s: seq<Region>, ks: u32, ke: u32, ms: u32, me: u32)
    requires StartMap(s, ks, ke, ms, me)
    ensures FirmwareMap(s, ks, ke, ms, me)
  {
  }

  /** Both reservations are legal calls, and afterwards all of both ranges is taken. */
  lemma BothTaken(m: Mem, s: seq<Region>, ks: u32, ke: u32, ms: u32, me: u32)
    requires |m| == 0x1_0000_0000 && FirmwareMap(s, ks, ke, ms, me)
    ensures Runs.Legal(s, Runs.DoReserve(ks, ke)) && Runs.Legal(Reserve(s, ks, ke), Runs.DoReserve(ms, me))
    ensures var s0 := Sys(m, BothReserved(s, ks, ke, ms, me));
            Sound(s0.regions) && TakenRange(s0, ks, ke - ks) && TakenRange(s0, ms, me - ms)
  {
    hide Sound, Reserve, And, TypeAt, Contained, Retypes;
    RoundedBounds(ks, ke);
    RoundedBounds(ms, me);
    var r1 := Reserve(s, ks, ke);
    ReserveLaw(s, ks, ke);
    StillContained(s, ks, ke, ms, me);
    ReserveLaw(r1, ms, me);
    TakenByReserve(s, ks, ke);
    TakenByReserve(r1, ms, me);
    TakenStays(r1, ms, me, ks, ke);
  }

  /** Where nothing above 4 GiB is free the pager can then start. */
  lemma StartIsLow(m: Mem, s: seq<Region>, ks: u32, ke: u32, ms: u32, me: u32)
    requires |m| == 0x1_0000_0000 && StartMap(s, ks, ke, ms, me)
    ensures var s0 := Sys(m, BothReserved(s, ks, ke, ms, me)); LowMachine(s0) && PagerFits(s0)
  {
    hide Sound, Runs.LowFree, Reserve, And, TypeAt, Ready, Contained, PagerFits, FreeAligned;
    RoundedBounds(ks, ke);
    RoundedBounds(ms, me);
    var r2 := BothReserved(s, ks, ke, ms, me);
    ReserveKeepsLow(s, ks, ke);
    ReserveKeepsLow(Reserve(s, ks, ke), ms, me);
    SoundAligned(r2);
    LowPagerFits(Sys(m, r2));
  }

  lemma TakenByReserve(s: seq<Region>, start: u32, end: u32)
    requires Sound(s) && PageFloor32(start) < PageCeil32(end) && Contained(s, start, end) && start < end
    ensures forall a: nat :: start <= a < end ==> Runs.TakenAt(Reserve(s, start, end), a)
  {
    hide Sound, Reserve, And, TypeAt;
    ReserveLaw(s, start, end);
    RoundedBounds(start, end);
  }

  lemma TakenStays(s: seq<Region>, start: u32, end: u32, lo: nat, hi: nat)
    requires Sound(s) && PageFloor32(start) < PageCeil32(end)
    requires forall a: nat :: lo <= a < hi ==> Runs.TakenAt(s, a)
    ensures forall a: nat :: lo <= a < hi ==> Runs.TakenAt(Reserve(s, start, end), a)
  {
    hide Sound, Reserve, And;
    forall a: nat | lo <= a < hi ensures Runs.TakenAt(Reserve(s, start, end), a) {
      Runs.ReserveKeepsTaken(s, start, end, a);
    }
  }

  // ----- the boot -----

  /** A module whose header is accepted, and is a good image, above the identity map. */
  ghost predicate GoodModule(m: Mem, ms: u32, me: u32, h: Header) {
    && |m| == 0x1_0000_0000 && ms < me && ParseHeader(m, ms) == Some(h)
    && GoodImage(m, h, me - ms) && HighImage(m, h)
  }

  lemma ParsedBase(m: Mem, base: u32)
    requires |m| > 0 && ParseHeader(m, base).Some?
    ensures ParseHeader(m, base).value.base == base
  {
    hide Half, Word32, Addr;
  }

  lemma ModuleParts(m: Mem, ms: u32, me: u32, h: Header)
    requires GoodModule(m, ms, me, h)
    ensures |m| == 0x1_0000_0000 && ms < me && h.base == ms && GoodImage(m, h, me - ms) && HighImage(m, h)
  {
    hide GoodImage, HighImage;
    ParsedBase(m, ms);
  }

  /** State after both reservations and the pager's start, and the table root. */
  function Started(m: Mem, s: seq<Region>, ks: u32, ke: u32, ms: u32, me: u32): (r: (Sys, Option<nat>))
    requires PagerFits(Sys(m, BothReserved(s, ks, ke, ms, me)))
  {
    InitializePager(Sys(m, BothReserved(s, ks, ke, ms, me)))
  }

  /** Reserve twice, decode, start the pager, expand: when that succeeds, every
      byte of every segment reads back at its virtual address with its permissions. */
  lemma KickstartLoads(m: Mem, s: seq<Region>, ks: u32, ke: u32, ms: u32, me: u32, h: Header, i: nat, k: nat)
    requires StartMap(s, ks, ke, ms, me) && GoodModule(m, ms, me, h)
    requires FreePages(BothReserved(s, ks, ke, ms, me)) >= 4 + BootDemand(m, h)
    requires i < h.phnum && SegmentAt(m, h, i).load && k < SegmentAt(m, h, i).memsz
    ensures PagerFits(Sys(m, BothReserved(s, ks, ke, ms, me)))
    ensures var (s1, top) := Started(m, s, ks, ke, ms, me);
            top.Some? ==>
              && PagerReady(s1, top.value) && Loadable(s1, top.value, h, 0)
              && var g := SegmentAt(m, h, i);
                 var (s2, ok) := Expand(s1, top.value, h);
                 ok ==> ReadsAs(s2.mem, top.value, g.vaddr + k, g.flags / 2 % 2 == 1, g.flags % 2 == 1,
                                ImageByte(m, ms, g, k))
  {
    hide *;
    ModuleParts(m, ms, me, h);
    FirmwareStart(s, ks, ke, ms, me);
    BothTaken(m, s, ks, ke, ms, me);
    StartIsLow(m, s, ks, ke, ms, me);
    StartedIs(m, s, ks, ke, ms, me);
    BootLoads(Sys(m, BothReserved(s, ks, ke, ms, me)), h, me - ms, i, k);
  }

  lemma StartedIs(m: Mem, s: seq<Region>, ks: u32, ke: u32, ms: u32, me: u32)
    requires PagerFits(Sys(m, BothReserved(s, ks, ke, ms, me)))
    ensures Started(m, s, ks, ke, ms, me) == InitializePager(Sys(m, BothReserved(s, ks, ke, ms, me)))
  {
  }

  /** And it succeeds when one free entry is left that could hold all of it. */
  lemma KickstartSucceeds(m: Mem, s: seq<Region>, ks: u32, ke: u32, ms: u32, me: u32, h: Header)
    requires StartMap(s, ks, ke, ms, me) && GoodModule(m, ms, me, h)
    requires RoomFor(BothReserved(s, ks, ke, ms, me), 4 + BootDemand(m, h))
    ensures PagerFits(Sys(m, BothReserved(s, ks, ke, ms, me)))
    ensures var (s1, top) := Started(m, s, ks, ke, ms, me);
            top.Some? && PagerReady(s1, top.value) && Loadable(s1, top.value, h, 0) && Expand(s1, top.value, h).1
  {
    hide *;
    ModuleParts(m, ms, me, h);
    FirmwareStart(s, ks, ke, ms, me);
    BothTaken(m, s, ks, ke, ms, me);
    StartIsLow(m, s, ks, ke, ms, me);
    StartedIs(m, s, ks, ke, ms, me);
    BootSucceeds(Sys(m, BothReserved(s, ks, ke, ms, me)), h, me - ms);
  }

  // ----- separation -----

  /** The page u translates to a frame that holds byte a. */
  predicate FrameHolds(m: Mem, root: nat, u: nat, a: nat) {
    match Walk(m, root, 4, u)
    case None => false
    case Some(t) => t.frame <= a < t.frame + 0x1000
  }

  lemma SegmentFrame(s: Sys, root: nat, tabs: Tables, m0: Mem, base: nat, g: Segment, len: nat, u: nat, a: nat)
    requires Booted(s, root, tabs) && Loaded(s, tabs, m0, base, g) && GoodSegment(g, len) && PageOfSegment(g, u)
    ensures Walk(s.mem, root, 4, u).Some?
    ensures FrameHolds(s.mem, root, u, a) ==> InFrames(s, tabs, g, a)
  {
    hide Walk, Leaf, Booted, Private, Pte, SegmentPerm;
    var j: nat :| j < PagesNeeded(g.memsz) && SegPage(g, j) == u;
    var p := FirstFrame(s, tabs, g);
    GoodFacts(g, len);
    FrameFits(p, j, PagesNeeded(g.memsz));
    PagesOn(p, j);
    PteMeans(p + j * 0x1000, SegmentPerm(g.flags));
    TreeOf(s, root, tabs);
    WalkIsLeaf(s.mem, tabs, root, false, u);
    assert Leaf(s.mem, tabs, SegPage(g, j)) == Pte(Wrap64(p + j * 0x1000), SegmentPerm(g.flags));
    FrameInside(p, j, PagesNeeded(g.memsz), a);
  }

  lemma FrameInside(p: nat, j: nat, n: nat, a: nat)
    requires j < n
    ensures p + j * 0x1000 <= a < p + j * 0x1000 + 0x1000 ==> p <= a < p + n * 0x1000
  {
  }

  /** What whole-boot separation says of byte a: it keeps its value, lies in no
      page table, and in no frame of a page of any segment. */
  ghost predicate LeftAlone(m: Mem, s: Sys, root: nat, tabs: Tables, h: Header, a: nat)
    requires |m| > 0
  {
    && a < |s.mem| == |m| && s.mem[a] == m[a]
    && (forall k {:trigger OutOfTable(tabs, k, a)} :: k in tabs ==> OutOfTable(tabs, k, a))
    && (forall u: nat {:trigger SomeSegments(m, h, 0, u)} :: SomeSegments(m, h, 0, u) ==>
          Walk(s.mem, root, 4, u).Some? && !FrameHolds(s.mem, root, u, a))
  }

  lemma PrivateLeftAlone(s1: Sys, tabs: Tables, s2: Sys, tabs': Tables, root: nat, m: Mem, h: Header, len: nat, a: nat)
    requires Expanded(s1, tabs, s2, tabs', root, m, h, 0) && GoodImage(m, h, len) && |s1.mem| == |m|
    requires Private(s1, tabs, a) && s1.mem[a] == m[a]
    ensures LeftAlone(m, s2, root, tabs', h, a)
  {
    hide SegmentAt, Loaded, Walk, InFrames, GoodSegment, PageOfSegment, HeaderInside, Booted, FrameHolds;
    assert Private(s2, tabs', a);
    forall u: nat {:trigger SomeSegments(m, h, 0, u)} | SomeSegments(m, h, 0, u)
      ensures Walk(s2.mem, root, 4, u).Some? && !FrameHolds(s2.mem, root, u, a)
    {
      var j: nat :| 0 <= j < h.phnum && SegmentAt(m, h, j).load && PageOfSegment(SegmentAt(m, h, j), u);
      var g := SegmentAt(m, h, j);
      assert GoodAt(m, h, len, j);
      assert FreshFrames(s1, tabs, s2, tabs', g);
      SegmentFrame(s2, root, tabs', m, h.base, g, len, u, a);
    }
  }

  /** No frame of a segment holds a byte of a page table. */
  ghost predicate FramesOffTables(s: Sys, tabs: Tables, m: Mem, h: Header)
    requires |m| > 0
  {
    forall j: nat :: j < h.phnum && SegmentAt(m, h, j).load ==> FrameOffTables(s, tabs, SegmentAt(m, h, j))
  }

  ghost predicate FrameOffTables(s: Sys, tabs: Tables, g: Segment) {
    forall a: nat, k {:trigger InFrames(s, tabs, g, a), k in tabs} ::
      InFrames(s, tabs, g, a) && k in tabs ==> OutOfTable(tabs, k, a)
  }

  lemma LoadedOffTables(s: Sys, tabs: Tables, m0: Mem, base: nat, g: Segment)
    requires Loaded(s, tabs, m0, base, g)
    ensures FrameOffTables(s, tabs, g)
  {
    hide MappedTo, Leaf, FrameOf, PagesNeeded;
    forall a: nat, k {:trigger InFrames(s, tabs, g, a), k in tabs} | InFrames(s, tabs, g, a) && k in tabs
      ensures OutOfTable(tabs, k, a)
    {
      assert Private(s, tabs, a);
    }
  }

  /** The frames of the segments lie apart from each other and from the tables. */
  lemma FramesSeparate(s: Sys, tabs: Tables, s': Sys, tabs': Tables, root: nat, m: Mem, h: Header)
    requires Expanded(s, tabs, s', tabs', root, m, h, 0)
    ensures FramesApart(s', tabs', m, h, 0) && FramesOffTables(s', tabs', m, h)
  {
    hide Booted, KeepsPrivate, Loaded, RestKept, AllFresh, TopsForSegments, FramesApart, SegmentAt, FrameOffTables;
    forall j: nat | j < h.phnum && SegmentAt(m, h, j).load ensures FrameOffTables(s', tabs', SegmentAt(m, h, j)) {
      LoadedOffTables(s', tabs', m, h.base, SegmentAt(m, h, j));
    }
  }

  /** What pager and loader leave behind when both succeed, for the file and any
      other taken range [lo, lo + size). */
  lemma TakenLeftAlone(s: Sys, h: Header, len: nat, lo: nat, size: nat) returns (tabs: Tables)
    requires LowMachine(s) && |s.mem| > 0 && GoodImage(s.mem, h, len) && HighImage(s.mem, h)
    requires TakenRange(s, h.base, len) && TakenRange(s, lo, size)
    requires FreePages(s.regions) >= 4 + BootDemand(s.mem, h)
    ensures PagerFits(s)
    ensures var (s1, top) := InitializePager(s);
            top.Some? ==>
              && PagerReady(s1, top.value) && Loadable(s1, top.value, h, 0)
              && var (s2, ok) := Expand(s1, top.value, h);
                 ok ==> Separate(s.mem, s2, top.value, tabs, h, lo, lo + size, h.base, h.base + len)
                        && Booted(s2, top.value, tabs)
  {
    hide *;
    tabs := map[];
    var tabs1 := BootReady(s, h, len, lo, size);
    var (s1, top) := InitializePager(s);
    if top.Some? {
      var root := top.value;
      tabs := ExpandLaw(s1, root, tabs1, h, s.mem, len, 0);
      ExpandIs(s1, root, h, s.mem, len);
      var (s2, ok) := Expand(s1, root, h);
      if ok {
        RangeLeftAlone(s1, tabs1, s2, tabs, root, s.mem, h, len, lo, size);
        RangeLeftAlone(s1, tabs1, s2, tabs, root, s.mem, h, len, h.base, len);
        ExpandedTree(s1, tabs1, s2, tabs, root, s.mem, h);
        FramesSeparate(s1, tabs1, s2, tabs, root, s.mem, h);
        TreeOf(s2, root, tabs);
        SeparateIs(s.mem, s2, root, tabs, h, lo, lo + size, h.base, h.base + len);
      }
    }
  }

  /** Whole-boot separation: no two tables share a page, being a well-formed tree;
      no two segments share a frame; no frame has a byte of a table; and the bytes
      of both ranges are as before, in no table and no frame. */
  ghost predicate Separate(m: Mem, s: Sys, root: nat, tabs: Tables, h: Header, ks: nat, ke: nat, ms: nat, me: nat) {
    && |m| > 0 && Tree(s.mem, tabs, root, false)
    && FramesApart(s, tabs, m, h, 0) && FramesOffTables(s, tabs, m, h)
    && forall a: nat :: ks <= a < ke || ms <= a < me ==> LeftAlone(m, s, root, tabs, h, a)
  }

  lemma SeparateIs(m: Mem, s: Sys, root: nat, tabs: Tables, h: Header, ks: nat, ke: nat, ms: nat, me: nat)
    requires |m| > 0 && Tree(s.mem, tabs, root, false)
    requires FramesApart(s, tabs, m, h, 0) && FramesOffTables(s, tabs, m, h)
    requires forall a: nat :: ks <= a < ke ==> LeftAlone(m, s, root, tabs, h, a)
    requires forall a: nat :: ms <= a < me ==> LeftAlone(m, s, root, tabs, h, a)
    ensures Separate(m, s, root, tabs, h, ks, ke, ms, me)
  {
    hide Tree, FramesApart, FramesOffTables, LeftAlone;
  }

  /** After the two reservations nothing the pager or the loader does touches a
      byte of Kickstart's image or of the module, and all they set up is separate. */
  lemma ImagesLeftAlone(m: Mem, s: seq<Region>, ks: u32, ke: u32, ms: u32, me: u32, h: Header) returns (tabs: Tables)
    requires StartMap(s, ks, ke, ms, me) && GoodModule(m, ms, me, h)
    requires FreePages(BothReserved(s, ks, ke, ms, me)) >= 4 + BootDemand(m, h)
    ensures PagerFits(Sys(m, BothReserved(s, ks, ke, ms, me)))
    ensures var (s1, top) := Started(m, s, ks, ke, ms, me);
            top.Some? ==>
              && PagerReady(s1, top.value) && Loadable(s1, top.value, h, 0)
              && var (s2, ok) := Expand(s1, top.value, h);
                 ok ==> Separate(m, s2, top.value, tabs, h, ks, ke, ms, me) && Booted(s2, top.value, tabs)
  {
    hide *;
    ModuleParts(m, ms, me, h);
    FirmwareStart(s, ks, ke, ms, me);
    StartParts(s, ks, ke, ms, me);
    BothTaken(m, s, ks, ke, ms, me);
    StartIsLow(m, s, ks, ke, ms, me);
    StartedIs(m, s, ks, ke, ms, me);
    tabs := TakenLeftAlone(Sys(m, BothReserved(s, ks, ke, ms, me)), h, me - ms, ks, ke - ks);
  }

  lemma RangeLeftAlone(s1: Sys, tabs: Tables, s2: Sys, tabs': Tables, root: nat, m: Mem, h: Header, len: nat,
                       lo: nat, size: nat)
    requires Expanded(s1, tabs, s2, tabs', root, m, h, 0) && GoodImage(m, h, len)
    requires FileHeld(s1, tabs, m, lo, size) && |m| > 0
    ensures forall a: nat :: lo <= a < lo + size ==> LeftAlone(m, s2, root, tabs', h, a)
  {
    hide Expanded, GoodImage, LeftAlone;
    forall a: nat | lo <= a < lo + size ensures LeftAlone(m, s2, root, tabs', h, a) {
      PrivateLeftAlone(s1, tabs, s2, tabs', root, m, h, len, a);
    }
  }
}
