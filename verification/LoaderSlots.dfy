/** How many slots of `memory_regions` the loader takes: never more than the
    pages it takes. */
module LoaderSlots {
  import opened Bits
  import opened Memory
  import opened PageTables
  import opened PageBudget
  import opened Paging
  import opened PagingLaws
  import opened MapRuns
  import opened Pager
  import opened Elf
  import opened ElfLoad
  import opened ElfExpand
  import opened ElfLoader
  import Regions

  /** On a well-formed tree the code allocates just the tables the run needs. */
  lemma {:induction false} MapAddsIsNeed(s: Sys, root: nat, tabs: Tables, reqs: seq<Req>)
    requires Booted(s, root, tabs) && FreePages(s.regions) >= Need(tabs.Keys, reqs) && WholeFrames(reqs)
    ensures PagerReady(s, root) && MapAdds(s, root, reqs) == Need(tabs.Keys, reqs)
    decreases |reqs|
  {
    hide *;
    ReadyRoot(s, root, tabs);
    if reqs == [] {
      NoAdds(s, root, tabs, reqs);
    } else {
      var r := reqs[0];
      TailFrames(reqs);
      NeedUnfolds(s, tabs, reqs);
      AddsIsMissing(s, root, tabs, r.virt);
      var tabs1 := MapPageLaw(s, root, tabs, r.phys, r.virt, r.perm);
      var s1 := Paging.MapPage(s, root, r.phys, r.virt, r.perm);
      AfterFirst(s, tabs, s1, tabs1, root, reqs);
      MapAddsIsNeed(s1, root, tabs1, reqs[1..]);
      AddsUnfolds(s, root, reqs);
    }
  }

  lemma NoAdds(s: Sys, root: nat, tabs: Tables, reqs: seq<Req>)
    requires PagerReady(s, root) && reqs == []
    ensures MapAdds(s, root, reqs) == Need(tabs.Keys, reqs)
  {
    hide FreeAligned;
  }

  lemma NeedUnfolds(s: Sys, tabs: Tables, reqs: seq<Req>)
    requires reqs != []
    ensures var v := PageOf(reqs[0].virt);
            && Need(tabs.Keys, reqs) == Missing(tabs.Keys, v) + Need(tabs.Keys + Path(v), reqs[1..])
            && (FreePages(s.regions) >= Need(tabs.Keys, reqs) ==> Budgeted(s, tabs, v))
  {
    hide FreePages, Missing, Path;
  }

  lemma AfterFirst(s: Sys, tabs: Tables, s1: Sys, tabs1: Tables, root: nat, reqs: seq<Req>)
    requires reqs != [] && FreePages(s.regions) >= Need(tabs.Keys, reqs)
    requires Mapped(s, tabs, s1, tabs1, root, PageOf(reqs[0].virt), Pte(reqs[0].phys, reqs[0].perm))
    ensures Booted(s1, root, tabs1) && tabs1.Keys == tabs.Keys + Path(PageOf(reqs[0].virt))
    ensures FreePages(s1.regions) >= Need(tabs1.Keys, reqs[1..])
  {
    hide FreePages, Missing, Path, Booted, KeepsPrivate, Leaf;
  }

  lemma AddsUnfolds(s: Sys, root: nat, reqs: seq<Req>)
    requires PagerReady(s, root) && reqs != []
    ensures var r := reqs[0];
            MapAdds(s, root, reqs) ==
            Adds(s, root, r.virt) + MapAdds(Paging.MapPage(s, root, r.phys, r.virt, r.perm), root, reqs[1..])
  {
    hide FreeAligned, Adds, Paging.MapPage;
  }

  /** Slots of one segment. */
  lemma SegmentSlotsLaw(s: Sys, root: nat, tabs: Tables, h: Header, g: Segment, len: nat)
    requires Booted(s, root, tabs) && GoodSegment(g, len)
    requires FreePages(s.regions) >= PagesNeeded(g.memsz) + Need(tabs.Keys, SegReqs(0, g))
    ensures PagerReady(s, root) && Placeable(s, g)
    ensures SegmentSlots(s, root, g) <= PagesNeeded(g.memsz) + Need(tabs.Keys, SegReqs(0, g))
  {
    hide *;
    GoodFacts(g, len);
    ReadyRoot(s, root, tabs);
    RootFits(s, root, tabs);
    LowPlaceable(s, g);
    SegmentGrant(s, g, len);
    var n := PagesNeeded(g.memsz);
    var (regions, p) := RegionOps.Allocate(s.regions, n, Regions.Kernel);
    SegmentStages(s, root, h, g);
    if p == 0 {
      OneSlot(s, root, g);
    } else {
      ClearedStage(s, root, tabs, regions, p, n);
      var s1 := Sys(Zeroed(s.mem, p, n * 0x1000), regions);
      LoadUnfolds(s, root, h, g, regions, p);
      SegReqsFrames(p, g, len);
      SegReqsNeed(tabs.Keys, p, g, len);
      MapAddsIsNeed(s1, root, tabs, SegReqs(p, g));
      SegReqsAre(p, g);
    }
  }

  lemma SegReqsAre(p: u32, g: Segment)
    ensures SegReqs(p, g) == SegmentReqs(p, g.vaddr, SegmentPerm(g.flags), 0, PagesNeeded(g.memsz))
  {
  }

  lemma OneSlot(s: Sys, root: nat, g: Segment)
    requires PagerReady(s, root) && Placeable(s, g)
    requires RegionOps.Allocate(s.regions, PagesNeeded(g.memsz), Regions.Kernel).1 == 0
    ensures SegmentSlots(s, root, g) == 1
  {
    hide RegionOps.Allocate, SegmentReqs, MapAdds, FreeAligned;
    PagesCover(g.memsz);
    assert AllocateSegment(s, PagesNeeded(g.memsz)) ==
        RegionOps.Allocate(s.regions, PagesNeeded(g.memsz), Regions.Kernel);
  }

  /** So room for as many entries as the image demands pages keeps the loader
      inside the array. */
  lemma {:induction false} ExpandSlotsLaw(s: Sys, root: nat, tabs: Tables, h: Header, m0: Mem, len: nat, i: nat)
    requires Booted(s, root, tabs) && GoodImage(m0, h, len) && |m0| > 0
    requires FileHeld(s, tabs, m0, h.base, len) && Pending(s, tabs, m0, h, i)
    requires FreePages(s.regions) >= Demand(tabs.Keys, m0, h, i)
    ensures PagerReady(s, root) && Loadable(s, root, h, i)
    ensures ExpandSlots(s, root, h, i) <= Demand(tabs.Keys, m0, h, i)
    decreases h.phnum - i
  {
    hide *;
    ReadyRoot(s, root, tabs);
    var unused := ExpandLaw(s, root, tabs, h, m0, len, i);
    if i >= h.phnum {
      NoSlots(s, root, h, i);
    } else {
      ImageAt(s, tabs, m0, h, len, i);
      LoopStep(s, root, h, i);
      DemandUnfolds(tabs.Keys, m0, h, i);
      SkipPending(s, tabs, m0, h, i);
      var g := SegmentAt(m0, h, i);
      if !g.load {
        ExpandSlotsLaw(s, root, tabs, h, m0, len, i + 1);
      } else {
        SegmentSlotsLaw(s, root, tabs, h, g, len);
        var tabs1 := SegmentLaw(s, root, tabs, h, g, m0, len);
        var (s1, ok) := LoadSegment(s, root, h, g);
        if ok {
          DoneParts(s, tabs, s1, tabs1, root, m0, h.base, g);
          StillPending(s, tabs, s1, tabs1, m0, h, len, i);
          FileKept(s, tabs, s1, tabs1, m0, h.base, len);
          ExpandSlotsLaw(s1, root, tabs1, h, m0, len, i + 1);
        }
      }
    }
  }

  lemma NoSlots(s: Sys, root: nat, h: Header, i: nat)
    requires PagerReady(s, root) && Loadable(s, root, h, i) && i >= h.phnum
    ensures ExpandSlots(s, root, h, i) == 0
  {
    hide FreeAligned;
  }
}
