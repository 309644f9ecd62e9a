/** The order of Kickstart/Multiboot/main.c:149-180: with the kernel file
    reserved, starting the pager and expanding the file loads the kernel. */
module Boot {
  import opened Memory
  import opened PageTables
  import opened RegionOps
  import opened PageBudget
  import opened Paging
  import opened MapRuns
  import opened PagerInit
  import opened Elf
  import opened ElfLoad
  import opened ElfExpand
  import Regions
  import Runs

  /** Memory that has an owner other than the allocator. */
  ghost predicate TakenRange(s: Sys, lo: nat, len: nat) {
    lo + len <= |s.mem| && forall a: nat :: lo <= a < lo + len ==> Runs.TakenAt(s.regions, a)
  }

  /** The first tables leave taken memory alone. */
  lemma TakenPrivate(s: Sys, regions: seq<Regions.Region>, p: nat, lo: nat, len: nat)
    requires Machine(s) && Granted(s.regions, regions, p, 4, Regions.Allocated) && TakenRange(s, lo, len)
    ensures p + 0x4000 <= |s.mem|
    ensures FileHeld(Sys(FirstTables(s.mem, p), regions), FirstKeys(p), s.mem, lo, len)
  {
    var s', tabs := Sys(FirstTables(s.mem, p), regions), FirstKeys(p);
    forall a: nat | lo <= a < lo + len ensures Private(s', tabs, a) && s'.mem[a] == s.mem[a] {
      assert Runs.TakenAt(s.regions, a);
      assert !(p <= a < p + 0x4000);
      forall k | k in tabs ensures OutOfTable(tabs, k, a) {
        assert p <= tabs[k] <= p + 0x3000;
      }
      FirstTablesElsewhere(s.mem, p, a);
    }
  }

  lemma FirstTablesElsewhere(m: Mem, p: nat, a: nat)
    requires p + 0x4000 <= |m| && a < |m| && !(p <= a < p + 0x4000)
    ensures FirstTables(m, p)[a] == m[a]
  {
  }

  /** The keys the pager starts with cover the identity map. */
  lemma {:induction false} IdentityCovers(have: set<Key>, i: nat)
    requires i <= 512 && Key(3, 0) in have && Key(2, 0) in have && Key(1, 0) in have
    ensures Covered(have, IdentityReqs(i)) == have
    decreases 512 - i
  {
    if i < 512 {
      var r := IdentityReqs(i);
      LowPage(i);
      assert r[0].Page() == i && r[1..] == IdentityReqs(i + 1);
      assert have + Path(i) == have;
      IdentityCovers(have, i + 1);
    }
  }

  /** All pages of every segment lie above the identity map. */
  ghost predicate HighImage(m0: Mem, h: Header)
    requires |m0| > 0
  {
    forall j: nat, u: nat :: j < h.phnum && SegmentAt(m0, h, j).load && PageOfSegment(SegmentAt(m0, h, j), u) ==>
        u >= 512
  }

  /** Only the low 2 MiB are mapped. */
  ghost predicate NothingHigh(m: Mem, tabs: Tables) {
    forall u: nat :: u >= 512 ==> Leaf(m, tabs, u) == 0
  }

  lemma PendingAfterStart(s: Sys, tabs: Tables, m0: Mem, h: Header)
    requires |m0| > 0 && HighImage(m0, h) && NothingHigh(s.mem, tabs)
    ensures Pending(s, tabs, m0, h, 0)
  {
    hide SegmentAt, Leaf, SegPage;
    forall j: nat | 0 <= j < h.phnum && SegmentAt(m0, h, j).load ensures Unmapped(s, tabs, SegmentAt(m0, h, j)) {
      forall k: nat | k < PagesNeeded(SegmentAt(m0, h, j).memsz)
        ensures Leaf(s.mem, tabs, SegPage(SegmentAt(m0, h, j), k)) == 0
      {
        assert PageOfSegment(SegmentAt(m0, h, j), SegPage(SegmentAt(m0, h, j), k));
      }
    }
  }

  lemma HighLeaves(s: Sys, root: nat, s': Sys, tabs': Tables)
    requires NothingMapped(s.mem, FirstKeys(root))
    requires AllMapped(s, FirstKeys(root), s', tabs', root, IdentityReqs(0))
    ensures NothingHigh(s'.mem, tabs')
    ensures Booted(s', root, tabs') && KeepsPrivate(s, FirstKeys(root), s', tabs')
    ensures tabs'.Keys == FirstKeys(root).Keys
    ensures s'.regions == s.regions
  {
    hide Booted, KeepsPrivate, Leaf, IdentityReqs, Need;
    FirstKeysHave(root);
    IdentityCovers(FirstKeys(root).Keys, 0);
    IdentityNeedsNothing(FirstKeys(root).Keys, 0);
    forall u: nat | u >= 512 ensures Leaf(s'.mem, tabs', u) == 0 {
      IdentityFirst(0, u);
      assert Leaf(s'.mem, tabs', u) == FirstEntry(Leaf(s.mem, FirstKeys(root), u), IdentityReqs(0), u);
    }
  }

  /** Pages needed for the whole image, once the pager has started. */
  function BootDemand(m0: Mem, h: Header): nat
    requires |m0| > 0
  {
    Demand(FirstKeys(0).Keys, m0, h, 0)
  }

  /** Once the pager has started over a reserved file, the loader's promise
      applies; any other taken range [lo, lo + size) is as untouched. */
  lemma BootReady(s: Sys, h: Header, len: nat, lo: nat, size: nat) returns (tabs: Tables)
    requires LowMachine(s) && |s.mem| > 0 && GoodImage(s.mem, h, len) && HighImage(s.mem, h)
    requires TakenRange(s, h.base, len) && FreePages(s.regions) >= 4 + BootDemand(s.mem, h)
    requires TakenRange(s, lo, size)
    ensures PagerFits(s)
    ensures var (s', top) := InitializePager(s);
            top.Some? ==>
              && Booted(s', top.value, tabs) && FileHeld(s', tabs, s.mem, h.base, len)
              && Pending(s', tabs, s.mem, h, 0) && FreePages(s'.regions) >= Demand(tabs.Keys, s.mem, h, 0)
              && Demand(tabs.Keys, s.mem, h, 0) == BootDemand(s.mem, h)
              && FileHeld(s', tabs, s.mem, lo, size)
              && tabs.Keys == FirstKeys(0).Keys && NothingHigh(s'.mem, tabs)
  {
    hide *;
    FourPages(s);
    var (regions, p) := Allocate(s.regions, 4, Regions.Allocated);
    PagerUnfolds(s, regions, p);
    tabs := map[];
    if p != 0 {
      FirstBooted(s, regions, p);
      TakenPrivate(s, regions, p, h.base, len);
      TakenPrivate(s, regions, p, lo, size);
      var s0 := Sys(FirstTables(s.mem, p), regions);
      IdentityFrames();
      FirstKeysHave(p);
      IdentityNeedsNothing(FirstKeys(p).Keys, 0);
      tabs := MapAllLaw(s0, p, FirstKeys(p), IdentityReqs(0));
      var s' := MapAll(s0, p, IdentityReqs(0));
      HighLeaves(s0, p, s', tabs);
      FileKept(s0, FirstKeys(p), s', tabs, s.mem, h.base, len);
      FileKept(s0, FirstKeys(p), s', tabs, s.mem, lo, size);
      PendingAfterStart(s', tabs, s.mem, h);
      SameKeys(s.mem, h, p);
    }
  }

  lemma SameKeys(m0: Mem, h: Header, p: nat)
    requires |m0| > 0
    ensures Demand(FirstKeys(p).Keys, m0, h, 0) == BootDemand(m0, h) && FirstKeys(p).Keys == FirstKeys(0).Keys
  {
    assert FirstKeys(p).Keys == FirstKeys(0).Keys;
  }

  // ----- what the loader reads is what was there before -----

  /** Both memories show the same segments. */
  ghost predicate SameSegments(m: Mem, m0: Mem, h: Header) {
    |m| > 0 && |m0| > 0 && forall i: nat {:trigger SegmentAt(m, h, i)} :: i < h.phnum ==>
      SegmentAt(m, h, i) == SegmentAt(m0, h, i)
  }

  lemma SegmentsKept(m: Mem, m0: Mem, h: Header, len: nat)
    requires |m| == |m0| > 0 && GoodImage(m0, h, len)
    requires forall a: nat :: h.base <= a < h.base + len ==> m[a] == m0[a]
    ensures SameSegments(m, m0, h) && GoodImage(m, h, len)
  {
    hide SegmentAt, GoodSegment, SegmentsApart;
    forall i: nat {:trigger SegmentAt(m, h, i)} | i < h.phnum ensures SegmentAt(m, h, i) == SegmentAt(m0, h, i) {
      assert HeaderInside(h, len, i);
      ParseKept(m, m0, h, len, i);
    }
    forall i: nat | i < h.phnum ensures HeaderInside(h, len, i) && GoodAt(m, h, len, i) {
      assert GoodAt(m0, h, len, i);
    }
    forall i: nat, j: nat | i < j < h.phnum ensures PagesApartAt(m, h, i, j) {
      assert PagesApartAt(m0, h, i, j);
    }
  }

  lemma {:induction false} DemandKept(have: set<Key>, m: Mem, m0: Mem, h: Header, i: nat)
    requires SameSegments(m, m0, h)
    ensures Demand(have, m, h, i) == Demand(have, m0, h, i)
    decreases h.phnum - i
  {
    hide SegmentAt, Need, Covered, SegReqs, PagesNeeded;
    if i < h.phnum {
      var g := SegmentAt(m, h, i);
      assert g == SegmentAt(m0, h, i);
      DemandKept(if g.load then Covered(have, SegReqs(0, g)) else have, m, m0, h, i + 1);
    }
  }

  lemma SegmentsSame(m: Mem, m0: Mem, h: Header, u: nat)
    requires SameSegments(m, m0, h)
    ensures SomeSegments(m, h, 0, u) <==> SomeSegments(m0, h, 0, u)
  {
    hide SegmentAt, PageOfSegment;
    if SomeSegments(m, h, 0, u) {
      var j: nat :| 0 <= j < h.phnum && SegmentAt(m, h, j).load && PageOfSegment(SegmentAt(m, h, j), u);
      assert SegmentAt(m0, h, j) == SegmentAt(m, h, j);
    }
    if SomeSegments(m0, h, 0, u) {
      var j: nat :| 0 <= j < h.phnum && SegmentAt(m0, h, j).load && PageOfSegment(SegmentAt(m0, h, j), u);
      assert SegmentAt(m, h, j) == SegmentAt(m0, h, j);
    }
  }

  lemma PendingSame(s: Sys, tabs: Tables, m: Mem, m0: Mem, h: Header)
    requires SameSegments(m, m0, h) && Pending(s, tabs, m0, h, 0)
    ensures Pending(s, tabs, m, h, 0)
  {
    hide SegmentAt, Unmapped;
    forall j: nat | 0 <= j < h.phnum && SegmentAt(m, h, j).load ensures Unmapped(s, tabs, SegmentAt(m, h, j)) {
      assert Unmapped(s, tabs, SegmentAt(m0, h, j));
    }
  }

  lemma HeldSame(s: Sys, tabs: Tables, m0: Mem, h: Header, len: nat)
    requires FileHeld(s, tabs, m0, h.base, len) && GoodImage(m0, h, len)
    ensures |s.mem| == |m0| > 0 && forall a: nat :: h.base <= a < h.base + len ==> s.mem[a] == m0[a]
    ensures forall a: nat :: h.base <= a < h.base + len ==> Private(s, tabs, a)
  {
    hide Private, GoodAt, HeaderInside, PagesApartAt;
  }

  lemma ReadyParts(s: Sys, root: nat, tabs: Tables, h: Header, len: nat)
    requires Booted(s, root, tabs) && |s.mem| > 0 && GoodImage(s.mem, h, len)
    requires forall a: nat :: h.base <= a < h.base + len ==> Private(s, tabs, a)
    requires Pending(s, tabs, s.mem, h, 0) && FreePages(s.regions) >= Demand(tabs.Keys, s.mem, h, 0)
    ensures ReadyToLoad(s, root, tabs, h, len)
  {
    hide Booted, GoodImage, Private, Pending, FreePages, Demand;
  }

  /** After the pager's start over a reserved file the loader's hypotheses hold of
      the memory as it is then, which shows the segments that it showed before. */
  lemma ReadyAfterStart(s: Sys, h: Header, len: nat) returns (tabs: Tables)
    requires LowMachine(s) && |s.mem| > 0 && GoodImage(s.mem, h, len) && HighImage(s.mem, h)
    requires TakenRange(s, h.base, len) && FreePages(s.regions) >= 4 + BootDemand(s.mem, h)
    ensures PagerFits(s)
    ensures var (s', top) := InitializePager(s);
            top.Some? ==>
              && ReadyToLoad(s', top.value, tabs, h, len) && SameSegments(s'.mem, s.mem, h)
              && FileHeld(s', tabs, s.mem, h.base, len)
              && tabs.Keys == FirstKeys(0).Keys && NothingHigh(s'.mem, tabs)
  {
    hide *;
    tabs := BootReady(s, h, len, h.base, len);
    var (s', top) := InitializePager(s);
    if top.Some? {
      HeldSame(s', tabs, s.mem, h, len);
      SegmentsKept(s'.mem, s.mem, h, len);
      DemandKept(tabs.Keys, s'.mem, s.mem, h, 0);
      PendingSame(s', tabs, s'.mem, s.mem, h);
      ReadyParts(s', top.value, tabs, h, len);
    }
  }

  /** Reserve, start the pager, expand: every byte of every segment is then read
      back at its virtual address with its permissions. */
  lemma BootLoads(s: Sys, h: Header, len: nat, i: nat, k: nat)
    requires LowMachine(s) && |s.mem| > 0 && GoodImage(s.mem, h, len) && HighImage(s.mem, h)
    requires TakenRange(s, h.base, len) && FreePages(s.regions) >= 4 + BootDemand(s.mem, h)
    requires i < h.phnum && SegmentAt(s.mem, h, i).load && k < SegmentAt(s.mem, h, i).memsz
    ensures PagerFits(s)
    ensures var (s1, top) := InitializePager(s);
            top.Some? ==>
              && PagerReady(s1, top.value) && Loadable(s1, top.value, h, 0)
              && var g := SegmentAt(s.mem, h, i);
                 var (s2, ok) := Expand(s1, top.value, h);
                 ok ==> ReadsAs(s2.mem, top.value, g.vaddr + k, g.flags / 2 % 2 == 1, g.flags % 2 == 1,
                                ImageByte(s.mem, h.base, g, k))
  {
    hide *;
    var tabs := BootReady(s, h, len, h.base, len);
    var (s1, top) := InitializePager(s);
    if top.Some? {
      var root := top.value;
      var tabs' := ExpandLaw(s1, root, tabs, h, s.mem, len, 0);
      ExpandIs(s1, root, h, s.mem, len);
      var (s2, ok) := Expand(s1, root, h);
      if ok {
        ExpandedAt(s1, tabs, s2, tabs', root, s.mem, h, i);
        GoodLoad(s.mem, h, len, i);
        ReadLoaded(s2, root, tabs', s.mem, h.base, SegmentAt(s.mem, h, i), len, k);
        PermBits(SegmentAt(s.mem, h, i).flags);
      }
    }
  }

  lemma GoodLoad(m0: Mem, h: Header, len: nat, i: nat)
    requires GoodImage(m0, h, len) && i < h.phnum && |m0| > 0 && SegmentAt(m0, h, i).load
    ensures GoodSegment(SegmentAt(m0, h, i), len)
  {
    hide SegmentAt, GoodSegment;
    assert GoodAt(m0, h, len, i);
  }
}
