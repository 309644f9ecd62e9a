/** Machines with free memory on both sides of 4 GiB: first fit takes the lowest
    entry with room, so as long as one entry below 4 GiB has room for everything
    the boot asks for, it goes as if all memory above were broken. */
module HighMemory {
  import opened Bits
  import opened Options
  import opened Memory
  import opened PageTables
  import opened Regions
  import opened RegionOps
  import opened RegionLaws
  import opened PageBudget
  import opened Paging
  import opened PagingLaws
  import opened MapRuns
  import opened Pager
  import opened PagerInit
  import opened Elf
  import opened ElfLoad
  import opened ElfExpand
  import opened Boot
  import opened Headroom
  import opened Kickstart
  import LoaderSlots
  import Runs

  /** A free entry within the allocator's reach that ends above 4 GiB. */
  predicate High(r: Region) { r.kind == Available && ONE_MIB <= r.start && r.end > 0x1_0000_0000 }

  function Broken(r: Region): Region { if High(r) then r.(kind := BadMem) else r }

  /** The list with every such entry out of order. */
  function Masked(s: seq<Region>): (t: seq<Region>)
    ensures |t| == |s| && forall i :: 0 <= i < |s| ==> t[i] == Broken(s[i])
  {
    seq(|s|, i requires 0 <= i < |s| => Broken(s[i]))
  }

  lemma MaskedReady(s: seq<Region>)
    requires Sound(s)
    ensures Ready(Masked(s))
  {
    var t := Masked(s);
    forall i | 0 <= i < |t| && Paged(t[i].kind) ensures WholePages(t[i]) { assert t[i] == s[i]; }
  }

  /** Only free addresses change their type. */
  lemma {:induction false} MaskedTypes(s: seq<Region>, a: int)
    ensures TypeAt(Masked(s), a) == TypeAt(s, a)
            || (TypeAt(s, a) == Some(Available) && TypeAt(Masked(s), a) == Some(BadMem))
  {
    if s != [] {
      assert Masked(s)[1..] == Masked(s[1..]);
      MaskedTypes(s[1..], a);
    }
  }

  lemma MaskedTaken(s: seq<Region>, a: int)
    requires Runs.TakenAt(s, a)
    ensures Runs.TakenAt(Masked(s), a)
  {
    MaskedTypes(s, a);
  }

  /** Some free entry below 4 GiB has m pages. */
  predicate LowEntry(s: seq<Region>, m: nat) {
    exists i :: 0 <= i < |s| && HasRoom(s[i], m) && s[i].end <= 0x1_0000_0000
  }

  lemma LowEntryRoom(s: seq<Region>, m: nat)
    requires LowEntry(s, m)
    ensures RoomFor(Masked(s), m)
  {
    var i :| 0 <= i < |s| && HasRoom(s[i], m) && s[i].end <= 0x1_0000_0000;
    assert HasRoom(Masked(s)[i], m);
  }

  // ----- one allocation -----

  lemma SpliceMasked(s: seq<Region>, i: nat, mid: seq<Region>)
    requires i < |s| && forall j :: 0 <= j < |mid| ==> !High(mid[j])
    ensures Splice(Masked(s), i, mid) == Masked(Splice(s, i, mid))
  {
    var t, u := Splice(Masked(s), i, mid), Masked(Splice(s, i, mid));
    forall k | 0 <= k < |t| ensures t[k] == u[k] {
      if i <= k < i + |mid| { assert t[k] == mid[k - i]; }
    }
  }

  /** The entry chosen while a low one has room is itself low, and the choice does
      not depend on what is high. */
  lemma ChosenMasked(s: seq<Region>, n: u32) returns (i: nat)
    requires Sound(s) && 0 < n < 0x10_0000 && RoomFor(Masked(s), n)
    ensures i < |s| && HasRoom(s[i], n) && s[i].end <= 0x1_0000_0000 && Masked(s)[i] == s[i]
    ensures forall j :: 0 <= j < i ==> !HasRoom(s[j], n) && !HasRoom(Masked(s)[j], n)
  {
    hide Masked, Chosen, HasRoom, Sound;
    var low := LowestRoom(s, n);
    RoomBroken(s[low], n);
    ChosenHasRoom(s, n);
    i := Chosen(s, n);
    ChosenIsLowest(s, n, low);
    BelowLow(s, i, low);
    RoomBroken(s[i], n);
    forall j | 0 <= j < i ensures !HasRoom(Masked(s)[j], n) { RoomBroken(s[j], n); }
  }

  lemma LowestRoom(s: seq<Region>, n: nat) returns (low: nat)
    requires 0 < n && RoomFor(Masked(s), n)
    ensures low < |s| && HasRoom(Broken(s[low]), n)
  {
    low :| low < |s| && HasRoom(Masked(s)[low], n);
  }

  lemma RoomBroken(r: Region, n: nat)
    ensures HasRoom(Broken(r), n) <==> HasRoom(r, n) && r.end <= 0x1_0000_0000
    ensures r.end <= 0x1_0000_0000 ==> Broken(r) == r
  {
  }

  lemma BelowLow(s: seq<Region>, i: nat, j: nat)
    requires Sound(s) && i < |s| && j < |s| && s[i].start <= s[j].start && s[j].end <= 0x1_0000_0000
    ensures s[i].end <= 0x1_0000_0000
  {
    if i < j { assert s[i].end <= s[j].start < s[j].end; }
  }

  lemma AllocateMasked(s: seq<Region>, n: u32, k: Kind)
    requires Sound(s) && 0 < n < 0x10_0000 && k != Available && RoomFor(Masked(s), n)
    ensures var (t, p) := Allocate(s, n, k);
            Sound(t) && p != 0 && Allocate(Masked(s), n, k) == (Masked(t), p)
  {
    hide Allocate, Chosen, FreeSlot, Masked, RoomFor, Carved, TypeAt;
    var i := ChosenMasked(s, n);
    MaskedReady(s);
    Runs.ChosenAt(s, n, i);
    Runs.ChosenAt(Masked(s), n, i);
    AllocateCarves(s, n, k);
    AllocateCarves(Masked(s), n, k);
    CarvedSound(s, i, n, k);
    CarvedMasked(s, i, n, k);
  }

  lemma CarvedMasked(s: seq<Region>, i: nat, n: nat, k: Kind)
    requires i < |s| && 0 < n && HasRoom(s[i], n) && s[i].end <= 0x1_0000_0000 && k != Available
    ensures Masked(s)[i] == s[i] && Carved(Masked(s), i, n, k) == Masked(Carved(s, i, n, k))
  {
    SpliceMasked(s, i, Cut(s[i], n, k));
  }

  // ----- the pager -----

  function MaskedSys(s: Sys): Sys { Sys(s.mem, Masked(s.regions)) }

  /** 4 GiB of memory, and low entries with room for m pages. */
  ghost predicate Roomy(s: Sys, m: nat) {
    |s.mem| == 0x1_0000_0000 && Sound(s.regions) && RoomFor(Masked(s.regions), m)
  }

  lemma RoomyParts(s: Sys, m: nat)
    requires Roomy(s, m)
    ensures Machine(s) && LowMachine(MaskedSys(s)) && Machine(MaskedSys(s)) && Sound(s.regions)
    ensures RoomFor(MaskedSys(s).regions, m) && MaskedSys(s).regions == Masked(s.regions)
    ensures MaskedSys(s).mem == s.mem && |s.mem| == 0x1_0000_0000
  {
    SoundAligned(s.regions);
    MaskedReady(s.regions);
    SoundAligned(Masked(s.regions));
  }

  lemma RoomyLess(s: Sys, m: nat, n: nat)
    requires Roomy(s, m) && n <= m
    ensures Roomy(s, n)
  {
    hide RoomFor, Sound;
    SmallerRoom(Masked(s.regions), m, n);
  }

  /** An allocation out of low memory, and the room it leaves. */
  lemma TakeMasked(s: Sys, n: u32, k: Kind, m: nat)
    requires Roomy(s, m) && 0 < n < 0x10_0000 && n <= m && k != Available
    ensures var (t, p) := Allocate(s.regions, n, k);
            && Allocate(Masked(s.regions), n, k) == (Masked(t), p) && p != 0
            && Roomy(s.(regions := t), m - n) && Placed(s.regions, n, k)
  {
    hide Allocate, RoomFor, Sound, FreePages, Masked;
    SmallerRoom(Masked(s.regions), m, n);
    AllocateMasked(s.regions, n, k);
    RoomyParts(s, m);
    MachineReady(MaskedSys(s));
    AllocateRoom(Masked(s.regions), n, k);
    GrantLaw(Masked(s.regions), n, k);
    RoomAfter(Masked(s.regions), Allocate(Masked(s.regions), n, k).0, m, m - n);
    ReadyPlaces(Masked(s.regions), n, k);
  }

  lemma EnsureMasked(s: Sys, slot: nat, m: nat)
    requires Roomy(s, m) && slot + 8 <= |s.mem| && (Word(s.mem, slot) == 0 ==> m >= 1)
    ensures Machine(s) && Machine(MaskedSys(s))
    ensures var (s', t) := EnsureTable(s, slot);
            && EnsureTable(MaskedSys(s), slot) == (MaskedSys(s'), t)
            && (if Word(s.mem, slot) == 0 then Roomy(s', m - 1) else s' == s)
  {
    hide Allocate, RoomFor, Sound, Masked, Word, StoreWord, Zeroed, Or, PageFloor32, FreeAligned, Placed;
    RoomyParts(s, m);
    if Word(s.mem, slot) == 0 { TakeMasked(s, 1, Allocated, m); }
  }

  lemma MapPageMasked(s: Sys, root: nat, phys: u64, virt: u64, perm: Perm)
    requires PagerReady(s, root) && Roomy(s, Adds(s, root, virt))
    ensures PagerReady(MaskedSys(s), root)
    ensures MapPage(MaskedSys(s), root, phys, virt, perm) == MaskedSys(MapPage(s, root, phys, virt, perm))
    ensures Roomy(MapPage(s, root, phys, virt, perm), 0)
  {
    hide Roomy, EnsureTable, ShiftIndex, Word, PageFloor32, Pte, FreeAligned, Masked, Adds, Down;
    RoomyParts(s, Adds(s, root, virt));
    DownMasked(s, root, virt);
    var (s3, pt) := Down(s, root, ShiftIndex(virt, 39), ShiftIndex(virt, 30), ShiftIndex(virt, 21));
    RoomyElsewhere(s3, MapPage(s, root, phys, virt, perm).mem, 0);
  }

  lemma RoomyElsewhere(s: Sys, m: Mem, n: nat)
    requires Roomy(s, n) && |m| == |s.mem|
    ensures Roomy(s.(mem := m), n)
  {
  }

  lemma DownMasked(s: Sys, root: nat, virt: u64)
    requires PagerReady(s, root) && Roomy(s, Adds(s, root, virt)) && Machine(MaskedSys(s))
    ensures var (i4, i3, i2) := (ShiftIndex(virt, 39), ShiftIndex(virt, 30), ShiftIndex(virt, 21));
            var (s3, pt) := Down(s, root, i4, i3, i2);
            Down(MaskedSys(s), root, i4, i3, i2) == (MaskedSys(s3), pt) && Roomy(s3, 0)
  {
    hide Roomy, EnsureTable, ShiftIndex, Word, PageFloor32, FreeAligned, Masked, Sound;
    var slot4 := root + 8 * ShiftIndex(virt, 39);
    var m := Adds(s, root, virt);
    EnsureMasked(s, slot4, m);
    EnsureFollows(s, slot4);
    var (s1, pdp) := EnsureTable(s, slot4);
    var slot3 := pdp + 8 * ShiftIndex(virt, 30);
    var m1 := if Word(s.mem, slot4) == 0 then 2 else m;
    EnsureMasked(s1, slot3, m1);
    EnsureFollows(s1, slot3);
    var (s2, pd) := EnsureTable(s1, slot3);
    var slot2 := pd + 8 * ShiftIndex(virt, 21);
    var m2 := if Word(s1.mem, slot3) == 0 then m1 - 1 else m1;
    EnsureMasked(s2, slot2, m2);
    EnsureFollows(s2, slot2);
    RoomyLess(EnsureTable(s2, slot2).0, if Word(s2.mem, slot2) == 0 then m2 - 1 else m2, 0);
  }

  /** A run of pages on a tree that is well formed as if high memory were broken. */
  lemma {:induction false} MapAllMasked(s: Sys, root: nat, tabs: Tables, reqs: seq<Req>)
    requires Booted(MaskedSys(s), root, tabs) && WholeFrames(reqs) && Roomy(s, Need(tabs.Keys, reqs))
    ensures PagerReady(s, root) && PagerReady(MaskedSys(s), root)
    ensures var s' := MapAll(s, root, reqs); MapAll(MaskedSys(s), root, reqs) == MaskedSys(s') && Roomy(s', 0)
    decreases |reqs|
  {
    hide *;
    var k := MaskedSys(s);
    RoomyParts(s, Need(tabs.Keys, reqs));
    ReadyRoot(k, root, tabs);
    ReadyHere(s, root);
    RoomIsFree(k.regions, Need(tabs.Keys, reqs));
    if reqs == [] {
      MapNothing(s, root, reqs);
      MapNothing(k, root, reqs);
      RoomyLess(s, Need(tabs.Keys, reqs), 0);
    } else {
      var r := reqs[0];
      TailFrames(reqs);
      LoaderSlots.NeedUnfolds(k, tabs, reqs);
      AddsIsMissing(k, root, tabs, r.virt);
      AddsMasked(s, root, r.virt);
      RoomyLess(s, Need(tabs.Keys, reqs), Adds(s, root, r.virt));
      MapPageMasked(s, root, r.phys, r.virt, r.perm);
      var tabs1 := MapPageLaw(k, root, tabs, r.phys, r.virt, r.perm);
      var s1, k1 := MapPage(s, root, r.phys, r.virt, r.perm), MapPage(k, root, r.phys, r.virt, r.perm);
      LoaderSlots.AfterFirst(k, tabs, k1, tabs1, root, reqs);
      MapPageRoom(k, root, r.phys, r.virt, r.perm);
      MappedCost(k, tabs, k1, tabs1, root, PageOf(r.virt), Pte(r.phys, r.perm));
      RoomAfter(k.regions, k1.regions, Need(tabs.Keys, reqs), Need(tabs1.Keys, reqs[1..]));
      RoomyAgain(s1, 0, Need(tabs1.Keys, reqs[1..]));
      MapAllMasked(s1, root, tabs1, reqs[1..]);
      MapUnfolds(s, root, reqs);
      MapUnfolds(k, root, reqs);
    }
  }

  lemma ReadyHere(s: Sys, root: nat)
    requires PagerReady(MaskedSys(s), root) && Machine(s)
    ensures PagerReady(s, root) && root + 0x1000 <= |s.mem|
  {
    hide FreeAligned;
  }

  lemma MapNothing(s: Sys, root: nat, reqs: seq<Req>)
    requires PagerReady(s, root) && reqs == []
    ensures MapAll(s, root, reqs) == s
  {
    hide FreeAligned;
  }

  lemma MapUnfolds(s: Sys, root: nat, reqs: seq<Req>)
    requires PagerReady(s, root) && reqs != []
    ensures var s1 := MapPage(s, root, reqs[0].phys, reqs[0].virt, reqs[0].perm);
            PagerReady(s1, root) && MapAll(s, root, reqs) == MapAll(s1, root, reqs[1..])
  {
    hide FreeAligned, MapPage;
  }

  lemma AddsMasked(s: Sys, root: nat, virt: u64)
    requires PagerReady(s, root) && PagerReady(MaskedSys(s), root)
    ensures Adds(MaskedSys(s), root, virt) == Adds(s, root, virt)
  {
    hide FreeAligned, Word, ShiftIndex, PageFloor32, Masked;
  }

  lemma MappedCost(s: Sys, tabs: Tables, s': Sys, tabs': Tables, root: nat, v: nat, e: nat)
    requires Mapped(s, tabs, s', tabs', root, v, e)
    ensures FreePages(s.regions) == FreePages(s'.regions) + Missing(tabs.Keys, v)
    ensures tabs'.Keys == tabs.Keys + Path(v)
  {
    hide Booted, KeepsPrivate, Leaf, FreePages, Missing, Path;
  }

  lemma RoomyAgain(s: Sys, m: nat, n: nat)
    requires Roomy(s, m) && RoomFor(MaskedSys(s).regions, n)
    ensures Roomy(s, n)
  {
    hide RoomFor, Sound, Masked;
  }

  /** The pager's start. */
  lemma PagerMasked(s: Sys)
    requires Roomy(s, 4)
    ensures PagerFits(s) && PagerFits(MaskedSys(s))
    ensures var (s', top) := InitializePager(s);
            InitializePager(MaskedSys(s)) == (MaskedSys(s'), top) && top.Some? && Roomy(s', 0)
  {
    hide *;
    var k := MaskedSys(s);
    RoomyParts(s, 4);
    TakeMasked(s, 4, Allocated, 4);
    var (regions, p) := Allocate(s.regions, 4, Allocated);
    FourPages(k);
    PagerUnfolds(k, Masked(regions), p);
    HereFits(s);
    var s0 := Sys(FirstTables(s.mem, p), regions);
    StartUnfolds(s, regions, p);
    FirstBooted(k, Masked(regions), p);
    AsMasked(s0);
    IdentityFrames();
    FirstKeysHave(p);
    IdentityNeedsNothing(FirstKeys(p).Keys, 0);
    RoomyElsewhere(s.(regions := regions), s0.mem, 0);
    MapAllMasked(s0, p, FirstKeys(p), IdentityReqs(0));
  }

  lemma HereFits(s: Sys)
    requires Machine(s) && Placed(s.regions, 4, Allocated)
    ensures PagerFits(s)
  {
    hide FreeAligned, Allocate;
  }

  lemma AsMasked(s: Sys)
    ensures MaskedSys(s) == Sys(s.mem, Masked(s.regions))
  {
  }

  lemma StartUnfolds(s: Sys, regions: seq<Region>, p: u32)
    requires PagerFits(s) && Allocate(s.regions, 4, Allocated) == (regions, p) && p != 0
    ensures p + 0x4000 <= |s.mem| && PagerReady(Sys(FirstTables(s.mem, p), regions), p)
    ensures InitializePager(s) == (MapAll(Sys(FirstTables(s.mem, p), regions), p, IdentityReqs(0)), Some(p))
  {
    hide Allocate, MapAll, FirstTables, IdentityReqs, FreeAligned;
    assert AllocateFirst(s) == (regions, p);
  }

  // ----- the loader -----

  lemma LoadMasked(s: Sys, root: nat, tabs: Tables, h: Header, g: Segment, len: nat)
    requires Booted(MaskedSys(s), root, tabs) && GoodSegment(g, len)
    requires Roomy(s, PagesNeeded(g.memsz) + Need(tabs.Keys, SegReqs(0, g)))
    ensures PagerReady(s, root) && PagerReady(MaskedSys(s), root)
    ensures Placeable(s, g) && Placeable(MaskedSys(s), g)
    ensures var (s', ok) := LoadSegment(s, root, h, g);
            LoadSegment(MaskedSys(s), root, h, g) == (MaskedSys(s'), ok) && ok && Roomy(s', 0)
  {
    hide *;
    var k := MaskedSys(s);
    var n, need := PagesNeeded(g.memsz), Need(tabs.Keys, SegReqs(0, g));
    GoodFacts(g, len);
    RoomyParts(s, n + need);
    ReadyRoot(k, root, tabs);
    ReadyHere(s, root);
    LowPlaceable(k, g);
    TakeMasked(s, n, Kernel, n + need);
    PlaceableHere(s, g);
    var (regions, p) := Allocate(s.regions, n, Kernel);
    SegmentGrant(k, g, len);
    ClearedStage(k, root, tabs, Masked(regions), p, n);
    var s1 := Sys(Zeroed(s.mem, p, n * 0x1000), regions);
    AsMasked(s1);
    LoadUnfolds(s, root, h, g, regions, p);
    LoadUnfolds(k, root, h, g, Masked(regions), p);
    SegReqsFrames(p, g, len);
    SegReqsNeed(tabs.Keys, p, g, len);
    RoomyElsewhere(s.(regions := regions), s1.mem, need);
    MapAllMasked(s1, root, tabs, SegReqs(p, g));
    var s2 := MapAll(s1, root, SegReqs(p, g));
    AsMasked(s2);
    CopyFits(s2, p, g);
    var m := CopyForward(s2.mem, p, Wrap32(h.base + g.offset), g.filesz);
    AsMasked(s2.(mem := m));
    RoomyElsewhere(s2, m, 0);
  }

  lemma PlaceableHere(s: Sys, g: Segment)
    requires SizesOk(g) && Placed(s.regions, PagesNeeded(g.memsz), Kernel)
    ensures Placeable(s, g)
  {
    hide Placed, PagesNeeded, SizesOk;
  }

  lemma CopyFits(s: Sys, p: nat, g: Segment)
    requires Machine(s) && Fits(p, g) && g.filesz <= PagesNeeded(g.memsz) * 0x1000
    ensures |s.mem| > 0 && p + g.filesz <= |s.mem|
  {
    hide PagesNeeded, FreeAligned;
  }

  /** The loader's loop. */
  lemma {:induction false} ExpandMasked(s: Sys, root: nat, tabs: Tables, h: Header, m0: Mem, len: nat, i: nat)
    requires Booted(MaskedSys(s), root, tabs) && GoodImage(m0, h, len) && |m0| > 0
    requires FileHeld(MaskedSys(s), tabs, m0, h.base, len) && Pending(MaskedSys(s), tabs, m0, h, i)
    requires Roomy(s, Demand(tabs.Keys, m0, h, i))
    ensures PagerReady(s, root) && Loadable(s, root, h, i)
    ensures PagerReady(MaskedSys(s), root) && Loadable(MaskedSys(s), root, h, i)
    ensures var (s', ok) := ExpandFrom(s, root, h, i);
            ExpandFrom(MaskedSys(s), root, h, i) == (MaskedSys(s'), ok) && ok
    decreases h.phnum - i
  {
    hide *;
    var k := MaskedSys(s);
    RoomyParts(s, Demand(tabs.Keys, m0, h, i));
    ReadyRoot(k, root, tabs);
    ReadyHere(s, root);
    if i >= h.phnum {
      ExpandedNothing(k, root, tabs, m0, h, i);
      ExpandEnds(s, root, h, i);
    } else {
      ImageAt(k, tabs, m0, h, len, i);
      ExpandUnfolds(k, root, h, i);
      ExpandUnfolds(s, root, h, i);
      DemandUnfolds(tabs.Keys, m0, h, i);
      SkipPending(k, tabs, m0, h, i);
      var g := SegmentAt(m0, h, i);
      if !g.load {
        ExpandMasked(s, root, tabs, h, m0, len, i + 1);
      } else {
        SegmentMasked(s, root, tabs, h, m0, len, i);
      }
    }
  }

  lemma ExpandEnds(s: Sys, root: nat, h: Header, i: nat)
    requires PagerReady(s, root) && i >= h.phnum
    ensures Loadable(s, root, h, i) && ExpandFrom(s, root, h, i) == (s, true)
  {
    hide FreeAligned;
  }

  lemma {:induction false} SegmentMasked(s: Sys, root: nat, tabs: Tables, h: Header, m0: Mem, len: nat, i: nat)
    requires Booted(MaskedSys(s), root, tabs) && GoodImage(m0, h, len) && |m0| > 0
    requires FileHeld(MaskedSys(s), tabs, m0, h.base, len) && Pending(MaskedSys(s), tabs, m0, h, i)
    requires Roomy(s, Demand(tabs.Keys, m0, h, i)) && i < h.phnum && SegmentAt(m0, h, i).load
    ensures PagerReady(s, root) && Loadable(s, root, h, i)
    ensures PagerReady(MaskedSys(s), root) && Loadable(MaskedSys(s), root, h, i)
    ensures var (s', ok) := ExpandFrom(s, root, h, i);
            ExpandFrom(MaskedSys(s), root, h, i) == (MaskedSys(s'), ok) && ok
    decreases h.phnum - i, 0
  {
    hide *;
    var k, g := MaskedSys(s), SegmentAt(m0, h, i);
    RoomyParts(s, Demand(tabs.Keys, m0, h, i));
    ReadyRoot(k, root, tabs);
    ReadyHere(s, root);
    RoomIsFree(k.regions, Demand(tabs.Keys, m0, h, i));
    ImageAt(k, tabs, m0, h, len, i);
    ExpandUnfolds(k, root, h, i);
    ExpandUnfolds(s, root, h, i);
    DemandUnfolds(tabs.Keys, m0, h, i);
    SkipPending(k, tabs, m0, h, i);
    GoodFacts(g, len);
    RoomyLess(s, Demand(tabs.Keys, m0, h, i), PagesNeeded(g.memsz) + Need(tabs.Keys, SegReqs(0, g)));
    LoadMasked(s, root, tabs, h, g, len);
    LoadRoom(k, root, h, g);
    var tabs1 := SegmentLaw(k, root, tabs, h, g, m0, len);
    var s1, k1 := LoadSegment(s, root, h, g).0, LoadSegment(k, root, h, g).0;
    DoneParts(k, tabs, k1, tabs1, root, m0, h.base, g);
    StillPending(k, tabs, k1, tabs1, m0, h, len, i);
    FileKept(k, tabs, k1, tabs1, m0, h.base, len);
    RoomAfter(k.regions, k1.regions, Demand(tabs.Keys, m0, h, i), Demand(tabs1.Keys, m0, h, i + 1));
    RoomyAgain(s1, 0, Demand(tabs1.Keys, m0, h, i + 1));
    ExpandMasked(s1, root, tabs1, h, m0, len, i + 1);
  }

  // ----- the boot -----

  lemma TakenMasked(s: Sys, lo: nat, len: nat)
    requires TakenRange(s, lo, len)
    ensures TakenRange(MaskedSys(s), lo, len)
  {
    hide Runs.TakenAt, Masked;
    forall a: nat | lo <= a < lo + len ensures Runs.TakenAt(Masked(s.regions), a) { MaskedTaken(s.regions, a); }
  }

  /** With one entry below 4 GiB that could hold the whole boot, pager and loader
      succeed and leave the memory they would leave if all above were broken. */
  lemma BootMasked(s: Sys, h: Header, len: nat)
    requires |s.mem| == 0x1_0000_0000 && Sound(s.regions) && GoodImage(s.mem, h, len) && HighImage(s.mem, h)
    requires TakenRange(s, h.base, len) && LowEntry(s.regions, 4 + BootDemand(s.mem, h))
    ensures PagerFits(s) && PagerFits(MaskedSys(s)) && LowMachine(MaskedSys(s))
    ensures RoomFor(MaskedSys(s).regions, 4 + BootDemand(s.mem, h))
    ensures var (s1, top) := InitializePager(s);
            && InitializePager(MaskedSys(s)) == (MaskedSys(s1), top) && top.Some?
            && PagerReady(s1, top.value) && Loadable(s1, top.value, h, 0)
            && PagerReady(MaskedSys(s1), top.value) && Loadable(MaskedSys(s1), top.value, h, 0)
            && var (s2, ok) := Expand(s1, top.value, h);
               ok && Expand(MaskedSys(s1), top.value, h) == (MaskedSys(s2), true)
  {
    hide *;
    var k, n := MaskedSys(s), BootDemand(s.mem, h);
    RoomyStart(s, 4 + n);
    RoomyParts(s, 4 + n);
    RoomIsFree(k.regions, 4 + n);
    RoomyLess(s, 4 + n, 4);
    PagerMasked(s);
    var (s1, top) := InitializePager(s);
    StartsOn(k, n);
    TakenMasked(s, h.base, len);
    var tabs := BootReady(k, h, len, h.base, len);
    RoomyAgain(s1, 0, n);
    ExpandMasked(s1, top.value, tabs, h, s.mem, len, 0);
    ExpandIs(s1, top.value, h, s.mem, len);
    ExpandIs(MaskedSys(s1), top.value, h, s.mem, len);
  }

  lemma RoomyStart(s: Sys, m: nat)
    requires |s.mem| == 0x1_0000_0000 && Sound(s.regions) && LowEntry(s.regions, m)
    ensures Roomy(s, m)
  {
    LowEntryRoom(s.regions, m);
  }

  /** From the firmware's map on, whatever of it is free above 4 GiB: the boot
      succeeds, and every byte of every segment reads back at its virtual address
      with its permissions. */
  lemma HighLoads(m: Mem, s: seq<Region>, ks: u32, ke: u32, ms: u32, me: u32, h: Header, i: nat, k: nat)
    requires FirmwareMap(s, ks, ke, ms, me) && GoodModule(m, ms, me, h)
    requires LowEntry(BothReserved(s, ks, ke, ms, me), 4 + BootDemand(m, h))
    requires i < h.phnum && SegmentAt(m, h, i).load && k < SegmentAt(m, h, i).memsz
    ensures PagerFits(Sys(m, BothReserved(s, ks, ke, ms, me)))
    ensures var (s1, top) := Started(m, s, ks, ke, ms, me);
            && top.Some? && PagerReady(s1, top.value) && Loadable(s1, top.value, h, 0)
            && var g := SegmentAt(m, h, i);
               var (s2, ok) := Expand(s1, top.value, h);
               ok && ReadsAs(s2.mem, top.value, g.vaddr + k, g.flags / 2 % 2 == 1, g.flags % 2 == 1,
                             ImageByte(m, ms, g, k))
  {
    hide *;
    var s0 := Sys(m, BothReserved(s, ks, ke, ms, me));
    ModuleParts(m, ms, me, h);
    BothTaken(m, s, ks, ke, ms, me);
    BootMasked(s0, h, me - ms);
    StartedIs(m, s, ks, ke, ms, me);
    MaskedMemory(s0);
    TakenMasked(s0, ms, me - ms);
    RoomIsFree(MaskedSys(s0).regions, 4 + BootDemand(m, h));
    BootLoads(MaskedSys(s0), h, me - ms, i, k);
    var (s1, top) := InitializePager(s0);
    MaskedMemory(Expand(s1, top.value, h).0);
  }

  lemma MaskedMemory(s: Sys)
    ensures MaskedSys(s).mem == s.mem
  {
  }

  /** And all of it is as separate as it is without memory above 4 GiB. */
  lemma HighLeftAlone(m: Mem, s: seq<Region>, ks: u32, ke: u32, ms: u32, me: u32, h: Header) returns (tabs: Tables)
    requires FirmwareMap(s, ks, ke, ms, me) && GoodModule(m, ms, me, h)
    requires LowEntry(BothReserved(s, ks, ke, ms, me), 4 + BootDemand(m, h))
    ensures PagerFits(Sys(m, BothReserved(s, ks, ke, ms, me)))
    ensures var (s1, top) := Started(m, s, ks, ke, ms, me);
            && top.Some? && PagerReady(s1, top.value) && Loadable(s1, top.value, h, 0)
            && var (s2, ok) := Expand(s1, top.value, h);
               ok && Separate(m, s2, top.value, tabs, h, ks, ke, ms, me)
  {
    hide *;
    var s0 := Sys(m, BothReserved(s, ks, ke, ms, me));
    ModuleParts(m, ms, me, h);
    StartParts(s, ks, ke, ms, me);
    BothTaken(m, s, ks, ke, ms, me);
    BootMasked(s0, h, me - ms);
    StartedIs(m, s, ks, ke, ms, me);
    MaskedMemory(s0);
    TakenMasked(s0, ms, me - ms);
    TakenMasked(s0, ks, ke - ks);
    RoomIsFree(MaskedSys(s0).regions, 4 + BootDemand(m, h));
    tabs := TakenLeftAlone(MaskedSys(s0), h, me - ms, ks, ke - ks);
    var (s1, top) := InitializePager(s0);
    var s2 := Expand(s1, top.value, h).0;
    SeparateMasked(m, s2, top.value, tabs, h, ks, ke, ms, me);
  }

  /** Separation is about memory, not about the region list. */
  lemma SeparateMasked(m: Mem, s: Sys, root: nat, tabs: Tables, h: Header, ks: nat, ke: nat, ms: nat, me: nat)
    requires Separate(m, MaskedSys(s), root, tabs, h, ks, ke, ms, me)
    ensures Separate(m, s, root, tabs, h, ks, ke, ms, me)
  {
    hide SegmentAt, Tree, Walk, Leaf, FrameOf, PagesNeeded, SomeSegments, Masked, FrameHolds;
    forall a: nat | ks <= a < ke || ms <= a < me ensures LeftAlone(m, s, root, tabs, h, a) {
      assert LeftAlone(m, MaskedSys(s), root, tabs, h, a);
    }
    forall j: nat, k: nat | 0 <= j < k < h.phnum && SegmentAt(m, h, j).load && SegmentAt(m, h, k).load
      ensures NoSharedFrame(s, tabs, SegmentAt(m, h, j), SegmentAt(m, h, k))
    {
      SharedMasked(s, tabs, SegmentAt(m, h, j), SegmentAt(m, h, k));
    }
    forall j: nat | j < h.phnum && SegmentAt(m, h, j).load ensures FrameOffTables(s, tabs, SegmentAt(m, h, j)) {
      OffMasked(s, tabs, SegmentAt(m, h, j));
    }
  }

  lemma SharedMasked(s: Sys, tabs: Tables, a: Segment, b: Segment)
    requires NoSharedFrame(MaskedSys(s), tabs, a, b)
    ensures NoSharedFrame(s, tabs, a, b)
  {
    hide FrameOf, Leaf, PagesNeeded, Masked;
    forall x: nat {:trigger InFrames(s, tabs, a, x)} | InFrames(s, tabs, a, x) ensures !InFrames(s, tabs, b, x) {
      assert InFrames(MaskedSys(s), tabs, a, x);
    }
  }

  lemma OffMasked(s: Sys, tabs: Tables, g: Segment)
    requires FrameOffTables(MaskedSys(s), tabs, g)
    ensures FrameOffTables(s, tabs, g)
  {
    hide FrameOf, Leaf, PagesNeeded, Masked;
    forall a: nat, k {:trigger InFrames(s, tabs, g, a), k in tabs} | InFrames(s, tabs, g, a) && k in tabs
      ensures OutOfTable(tabs, k, a)
    {
      assert InFrames(MaskedSys(s), tabs, g, a);
    }
  }
}
