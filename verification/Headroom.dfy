/** When the loader cannot fail: one free entry with room for everything it
    will ever ask for is enough, whichever entries it takes its pages from. */
module Headroom {
  import opened Bits
  import opened Memory
  import opened PageTables
  import opened Regions
  import opened RegionOps
  import opened RegionLaws
  import opened PageBudget
  import opened Paging
  import opened PagingLaws
  import opened MapRuns
  import opened PagerInit
  import opened Elf
  import opened ElfLoad
  import opened ElfExpand
  import opened Boot
  import RegionEdges

  /** Some free entry from 1 MiB on has m pages. */
  ghost predicate RoomFor(r: seq<Region>, m: nat) {
    m == 0 || exists i :: 0 <= i < |r| && HasRoom(r[i], m)
  }

  /** From r to t no entry's room shrank by more than the pages taken in all. */
  ghost predicate RoomKept(r: seq<Region>, t: seq<Region>) {
    FreePages(t) <= FreePages(r)
    && forall m: nat {:trigger RoomFor(t, m)} :: RoomFor(r, m + (FreePages(r) - FreePages(t))) ==> RoomFor(t, m)
  }

  lemma RoomKeptTwice(r: seq<Region>, t: seq<Region>, u: seq<Region>)
    requires RoomKept(r, t) && RoomKept(t, u)
    ensures RoomKept(r, u)
  {
    hide RoomFor, FreePages;
    forall m: nat {:trigger RoomFor(u, m)} | RoomFor(r, m + (FreePages(r) - FreePages(u))) ensures RoomFor(u, m) {
      var m' := m + (FreePages(t) - FreePages(u));
      assert m + (FreePages(r) - FreePages(u)) == m' + (FreePages(r) - FreePages(t));
      assert RoomFor(t, m');
    }
  }

  lemma RoomStays(r: seq<Region>)
    ensures RoomKept(r, r)
  {
    hide RoomFor, FreePages;
  }

  lemma CarvedRoom(s: seq<Region>, i: nat, n: nat, k: Kind, m: nat)
    requires i < |s| && 0 < n && HasRoom(s[i], n) && RoomFor(s, m + n)
    ensures RoomFor(Carved(s, i, n, k), m)
  {
    if m > 0 {
      var j :| 0 <= j < |s| && HasRoom(s[j], m + n);
      var t, mid := Carved(s, i, n, k), Cut(s[i], n, k);
      if j == i {
        assert t[i + 1] == mid[1] && HasRoom(mid[1], m);
      } else {
        var j' := if j < i then j else j + |mid| - 1;
        assert t[j'] == s[j] && HasRoom(t[j'], m);
      }
    }
  }

  /** An allocation fails exactly when no entry has room. */
  lemma AllocateRoom(s: seq<Region>, n: u32, k: Kind)
    requires Ready(s) && 0 < n < 0x10_0000 && k != Available
    ensures var (t, p) := Allocate(s, n, k);
            (p != 0 <==> RoomFor(s, n)) && RoomKept(s, t) && Ready(t)
  {
    hide FreePages;
    ChosenHasRoom(s, n);
    if RoomFor(s, n) {
      var j: nat :| j < |s| && HasRoom(s[j], n);
      ChosenIsLowest(s, n, j);
    }
    var i := Chosen(s, n);
    if i < |s| {
      assert HasRoom(s[i], n);
      AllocateCarves(s, n, k);
      CarvedReady(s, i, n, k);
      var t := Carved(s, i, n, k);
      forall m: nat {:trigger RoomFor(t, m)} | RoomFor(s, m + n) ensures RoomFor(t, m) {
        CarvedRoom(s, i, n, k, m);
      }
    } else {
      RoomStays(s);
    }
  }

  lemma EnsureRoom(s: Sys, slot: nat)
    requires LowMachine(s) && slot + 8 <= |s.mem|
    ensures RoomKept(s.regions, EnsureTable(s, slot).0.regions) && LowMachine(EnsureTable(s, slot).0)
  {
    hide RoomKept, RoomFor, Allocate, Or, Word, StoreWord, Zeroed, PageFloor32;
    AllocateRoom(s.regions, 1, Allocated);
    RoomStays(s.regions);
  }

  lemma DownRoom(s: Sys, root: nat, i4: nat, i3: nat, i2: nat)
    requires LowMachine(s) && root % 0x1000 == 0 && root + 0x1000 <= |s.mem| && i4 < 512 && i3 < 512 && i2 < 512
    ensures RoomKept(s.regions, Down(s, root, i4, i3, i2).0.regions) && LowMachine(Down(s, root, i4, i3, i2).0)
  {
    hide RoomKept, EnsureTable, FreeAligned;
    var (s1, pdp) := EnsureTable(s, root + 8 * i4);
    var (s2, pd) := EnsureTable(s1, pdp + 8 * i3);
    EnsureRoom(s, root + 8 * i4);
    EnsureRoom(s1, pdp + 8 * i3);
    EnsureRoom(s2, pd + 8 * i2);
    RoomKeptTwice(s.regions, s1.regions, s2.regions);
    RoomKeptTwice(s.regions, s2.regions, EnsureTable(s2, pd + 8 * i2).0.regions);
  }

  lemma MapPageRoom(s: Sys, root: nat, phys: u64, virt: u64, perm: Perm)
    requires LowMachine(s) && root % 0x1000 == 0 && root + 0x1000 <= |s.mem|
    ensures RoomKept(s.regions, MapPage(s, root, phys, virt, perm).regions)
    ensures LowMachine(MapPage(s, root, phys, virt, perm))
  {
    hide RoomKept, Down, FreeAligned, ShiftIndex, Pte;
    DownRoom(s, root, ShiftIndex(virt, 39), ShiftIndex(virt, 30), ShiftIndex(virt, 21));
  }

  lemma {:induction false} MapAllRoom(s: Sys, root: nat, reqs: seq<Req>)
    requires LowMachine(s) && root % 0x1000 == 0 && root + 0x1000 <= 0x1_0000_0000
    ensures RoomKept(s.regions, MapAll(s, root, reqs).regions) && LowMachine(MapAll(s, root, reqs))
    decreases |reqs|
  {
    hide RoomKept, MapPage, FreeAligned;
    if reqs == [] {
      RoomStays(s.regions);
    } else {
      var r := reqs[0];
      var s1 := MapPage(s, root, r.phys, r.virt, r.perm);
      MapPageRoom(s, root, r.phys, r.virt, r.perm);
      MapAllRoom(s1, root, reqs[1..]);
      RoomKeptTwice(s.regions, s1.regions, MapAll(s1, root, reqs[1..]).regions);
    }
  }

  /** A segment is loaded exactly when it is not empty and one entry has room for
      its pages: an empty one is always refused, and with it the file. */
  lemma LoadRoom(s: Sys, root: nat, h: Header, g: Segment)
    requires LowMachine(s) && root % 0x1000 == 0 && root + 0x1000 <= 0x1_0000_0000 && SizesOk(g)
    ensures Placeable(s, g)
    ensures var (s', ok) := LoadSegment(s, root, h, g);
            && (ok <==> g.memsz > 0 && RoomFor(s.regions, PagesNeeded(g.memsz)))
            && RoomKept(s.regions, s'.regions) && LowMachine(s')
  {
    hide *;
    LowPlaceable(s, g);
    MachineReady(s);
    PagesOrNone(g);
    var n := PagesNeeded(g.memsz);
    if n == 0 {
      NoRoomNeeded(s.regions);
      NothingLoaded(s, root, h, g);
      RoomStays(s.regions);
    } else {
      var (regions, p) := Allocate(s.regions, n, Kernel);
      AllocateRoom(s.regions, n, Kernel);
      LoadUnfolds(s, root, h, g, regions, p);
      if p != 0 {
        MachineFits(s, p, g);
        var s1 := Sys(Zeroed(s.mem, p, n * 0x1000), regions);
        LowParts(s1);
        MapAllRoom(s1, root, SegReqs(p, g));
        var s2 := MapAll(s1, root, SegReqs(p, g));
        RoomKeptTwice(s.regions, regions, s2.regions);
        CopyLow(s2, p, Wrap32(h.base + g.offset), g);
      } else {
        LowRegions(s, regions);
      }
    }
  }

  lemma PagesOrNone(g: Segment)
    requires SizesOk(g)
    ensures PagesNeeded(g.memsz) < 0x10_0000 && (PagesNeeded(g.memsz) == 0 <==> g.memsz == 0)
  {
    PagesCover(g.memsz);
  }

  lemma NothingLoaded(s: Sys, root: nat, h: Header, g: Segment)
    requires Machine(s) && root % 0x1000 == 0 && root + 0x1000 <= 0x1_0000_0000
    requires Placeable(s, g) && PagesNeeded(g.memsz) == 0
    ensures LoadSegment(s, root, h, g) == (s, false)
  {
    hide FreeAligned, SegmentReqs, MapAll, CopyForward;
  }

  lemma LowParts(s: Sys)
    requires Machine(s) && Ready(s.regions)
    ensures LowMachine(s)
  {
  }

  lemma LowRegions(s: Sys, regions: seq<Region>)
    requires LowMachine(s) && Ready(regions)
    ensures LowMachine(s.(regions := regions))
  {
    SoundAligned(regions);
  }

  lemma CopyLow(s: Sys, p: nat, src: nat, g: Segment)
    requires LowMachine(s) && Fits(p, g) && g.filesz <= PagesNeeded(g.memsz) * 0x1000
    ensures |s.mem| > 0 && p + g.filesz <= |s.mem| && LowMachine(s.(mem := CopyForward(s.mem, p, src, g.filesz)))
  {
    hide CopyForward, PagesNeeded;
  }

  /** Sizes from just above 0xFFFFF000 up to 4 GiB ask for 2^20 pages, whose byte
      length is zero in 32 bits: wherever some free memory is left the loader is
      given an address for no memory at all and goes on to map 2^20 pages from it. */
  lemma SizesAbove(s: seq<Region>, g: Segment, p: u32)
    requires Sound(s) && 0xFFFF_F000 < g.memsz < 0x1_0000_0000
    requires p == Allocate(s, PagesNeeded(g.memsz), Kernel).1
    ensures PagesNeeded(g.memsz) == 0x10_0000 && ByteLength(PagesNeeded(g.memsz)) == 0
    ensures |SegReqs(p, g)| == 0x10_0000
    ensures p == if Chosen(s, 0x10_0000) < |s| then s[Chosen(s, 0x10_0000)].start % 0x1_0000_0000 else 0
    ensures Chosen(s, 0x10_0000) < |s| <==> exists j :: 0 <= j < |s| && HasRoom(s[j], 0)
  {
    hide Allocate, SegmentReqs;
    AllTheWay(g.memsz);
    RegionEdges.AllocateNothing(s, 0x10_0000, Kernel);
  }

  lemma AllTheWay(memsz: nat)
    requires 0xFFFF_F000 < memsz < 0x1_0000_0000
    ensures PagesNeeded(memsz) == 0x10_0000
  {
  }

  lemma NoRoomNeeded(r: seq<Region>)
    ensures RoomFor(r, 0)
  {
  }

  lemma MachineReady(s: Sys)
    requires LowMachine(s)
    ensures Machine(s) && Ready(s.regions)
  {
  }

  lemma MachineFits(s: Sys, p: nat, g: Segment)
    requires Machine(s) && Fits(p, g)
    ensures p + PagesNeeded(g.memsz) * 0x1000 <= |s.mem|
  {
  }

  lemma SmallerRoom(r: seq<Region>, m: nat, n: nat)
    requires RoomFor(r, m) && n <= m
    ensures RoomFor(r, n)
  {
    if n > 0 {
      var i :| 0 <= i < |r| && HasRoom(r[i], m);
      assert HasRoom(r[i], n);
    }
  }

  lemma RoomIsFree(r: seq<Region>, m: nat)
    requires RoomFor(r, m)
    ensures FreePages(r) >= m
  {
    if m > 0 {
      var i :| 0 <= i < |r| && HasRoom(r[i], m);
      RoomIsUsable(r, i, m);
    }
  }

  lemma RoomAfter(r: seq<Region>, t: seq<Region>, m: nat, n: nat)
    requires RoomKept(r, t) && RoomFor(r, m) && n + (FreePages(r) - FreePages(t)) == m
    ensures RoomFor(t, n)
  {
    hide FreePages, RoomFor;
  }

  lemma GoodSize(g: Segment, len: nat)
    requires GoodSegment(g, len)
    ensures g.memsz > 0
  {
  }

  /** The loop runs to its end. */
  lemma {:induction false} ExpandRoom(s: Sys, root: nat, tabs: Tables, h: Header, m0: Mem, len: nat, i: nat)
    requires Booted(s, root, tabs) && GoodImage(m0, h, len) && |m0| > 0
    requires FileHeld(s, tabs, m0, h.base, len) && Pending(s, tabs, m0, h, i)
    requires RoomFor(s.regions, Demand(tabs.Keys, m0, h, i))
    ensures PagerReady(s, root) && Loadable(s, root, h, i) && ExpandFrom(s, root, h, i).1
    decreases h.phnum - i
  {
    hide *;
    ReadyRoot(s, root, tabs);
    if i >= h.phnum {
      ExpandedNothing(s, root, tabs, m0, h, i);
    } else {
      RoomIsFree(s.regions, Demand(tabs.Keys, m0, h, i));
      ImageAt(s, tabs, m0, h, len, i);
      ExpandUnfolds(s, root, h, i);
      DemandUnfolds(tabs.Keys, m0, h, i);
      SkipPending(s, tabs, m0, h, i);
      var g := SegmentAt(m0, h, i);
      if !g.load {
        ExpandRoom(s, root, tabs, h, m0, len, i + 1);
      } else {
        RootFits(s, root, tabs);
        GoodFacts(g, len);
        GoodSize(g, len);
        LoadRoom(s, root, h, g);
        SmallerRoom(s.regions, Demand(tabs.Keys, m0, h, i), PagesNeeded(g.memsz));
        var tabs1 := SegmentLaw(s, root, tabs, h, g, m0, len);
        var s1 := LoadSegment(s, root, h, g).0;
        DoneParts(s, tabs, s1, tabs1, root, m0, h.base, g);
        StillPending(s, tabs, s1, tabs1, m0, h, len, i);
        FileKept(s, tabs, s1, tabs1, m0, h.base, len);
        RoomAfter(s.regions, s1.regions, Demand(tabs.Keys, m0, h, i), Demand(tabs1.Keys, m0, h, i + 1));
        ExpandRoom(s1, root, tabs1, h, m0, len, i + 1);
      }
    }
  }

  /** `elf_expand` succeeds on a good image when one free entry could hold all
      the pages of all segments and tables. */
  lemma LoaderSucceeds(s: Sys, root: nat, tabs: Tables, h: Header, len: nat)
    requires ReadyToLoad(s, root, tabs, h, len) && RoomFor(s.regions, Demand(tabs.Keys, s.mem, h, 0))
    ensures PagerReady(s, root) && Loadable(s, root, h, 0) && Expand(s, root, h).1
  {
    hide *;
    LoadParts(s, root, tabs, h, len, 0);
    ExpandRoom(s, root, tabs, h, s.mem, len, 0);
    ExpandIs(s, root, h, s.mem, len);
  }

  /** The pager starts exactly when some entry has room for its four tables. */
  lemma PagerStarts(s: Sys)
    requires LowMachine(s)
    ensures PagerFits(s)
    ensures var (s', top) := InitializePager(s);
            (top.Some? <==> RoomFor(s.regions, 4)) && RoomKept(s.regions, s'.regions)
  {
    hide *;
    MachineReady(s);
    FourPages(s);
    var (regions, p) := Allocate(s.regions, 4, Allocated);
    PagerUnfolds(s, regions, p);
    AllocateRoom(s.regions, 4, Allocated);
    if p != 0 {
      var s1 := Sys(FirstTables(s.mem, p), regions);
      LowParts(s1);
      MapAllRoom(s1, p, IdentityReqs(0));
      RoomKeptTwice(s.regions, regions, MapAll(s1, p, IdentityReqs(0)).regions);
    }
  }

  lemma StartsOn(s: Sys, n: nat)
    requires LowMachine(s) && RoomFor(s.regions, 4 + n)
    ensures PagerFits(s)
    ensures var (s', top) := InitializePager(s); top.Some? && RoomFor(s'.regions, n)
  {
    hide *;
    PagerStarts(s);
    SmallerRoom(s.regions, 4 + n, 4);
    var tabs := InitializePagerLaw(s);
    RoomAfter(s.regions, InitializePager(s).0.regions, 4 + n, n);
  }

  /** Starting the pager and expanding a good, reserved image succeeds from
      first to last when one free entry could hold all of it. */
  lemma BootSucceeds(s: Sys, h: Header, len: nat)
    requires LowMachine(s) && |s.mem| > 0 && GoodImage(s.mem, h, len) && HighImage(s.mem, h)
    requires TakenRange(s, h.base, len) && RoomFor(s.regions, 4 + BootDemand(s.mem, h))
    ensures PagerFits(s)
    ensures var (s1, top) := InitializePager(s);
            top.Some? && PagerReady(s1, top.value) && Loadable(s1, top.value, h, 0) && Expand(s1, top.value, h).1
  {
    hide *;
    RoomIsFree(s.regions, 4 + BootDemand(s.mem, h));
    StartsOn(s, BootDemand(s.mem, h));
    var tabs := BootReady(s, h, len, h.base, len);
    var (s1, top) := InitializePager(s);
    ExpandRoom(s1, top.value, tabs, h, s.mem, len, 0);
    ExpandIs(s1, top.value, h, s.mem, len);
  }
}
