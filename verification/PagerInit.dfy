/** `initialize_pager`: the first four tables and the identity map of the low
    2 MiB (Kickstart/Multiboot/pager.c:9-52). */
module PagerInit {
  import opened Bits
  import opened Options
  import opened Memory
  import opened PageTables
  import opened RegionOps
  import opened PageBudget
  import opened Paging
  import opened PagingLaws
  import opened MapRuns
  import Regions

  /** The loop's requests: page i to frame i, for the low 512 pages. */
  function IdentityReqs(i: nat): (r: seq<Req>)
    requires i <= 512
    ensures |r| == 512 - i
    ensures forall j :: 0 <= j < |r| ==> r[j] == Req((i + j) * 0x1000, (i + j) * 0x1000, Perm(true, true, true))
    decreases 512 - i
  {
    if i == 512 then [] else [Req(i * 0x1000, i * 0x1000, Perm(true, true, true))] + IdentityReqs(i + 1)
  }

  /** The four tables at p, cleared and chained. */
  function FirstTables(m: Mem, p: nat): (r: Mem)
    requires p + 0x4000 <= |m|
    ensures |r| == |m|
  {
    var m0 := Zeroed(m, p, 0x4000);
    var m1 := StoreWord(m0, p, Or(Or(p + 0x1000, 0x2), 0x1));
    var m2 := StoreWord(m1, p + 0x1000, Or(Or(p + 0x2000, 0x2), 0x1));
    StoreWord(m2, p + 0x2000, Or(Or(p + 0x3000, 0x2), 0x1))
  }

  /** The four tables lie inside memory. */
  predicate PagerFits(s: Sys) {
    Machine(s) && Placed(s.regions, 4, Regions.Allocated)
  }

  lemma LowPagerFits(s: Sys)
    requires LowMachine(s)
    ensures PagerFits(s)
  {
    ReadyPlaces(s.regions, 4, Regions.Allocated);
  }

  /** `pmm_allocate_region(4)`. */
  function AllocateFirst(s: Sys): (r: (seq<Regions.Region>, u32))
    requires PagerFits(s)
    ensures r == Allocate(s.regions, 4, Regions.Allocated)
    ensures FreeAligned(r.0) && r.1 % 0x1000 == 0 && r.1 + 0x4000 <= 0x1_0000_0000
  {
    AllocateAligned(s.regions, 4, Regions.Allocated);
    Allocate(s.regions, 4, Regions.Allocated)
  }

  /** New state and top table; no table if the allocation failed. */
  function InitializePager(s: Sys): (r: (Sys, Option<nat>))
    requires PagerFits(s)
    ensures Machine(r.0)
  {
    hide Allocate, IdentityReqs, FirstTables, FreeAligned, MapAll;
    var (regions, p) := AllocateFirst(s);
    if p == 0 then (s.(regions := regions), None) else
      (MapAll(Sys(FirstTables(s.mem, p), regions), p, IdentityReqs(0)), Some(p))
  }

  function FirstKeys(p: nat): Tables {
    map[Key(4, 0) := p, Key(3, 0) := p + 0x1000, Key(2, 0) := p + 0x2000, Key(1, 0) := p + 0x3000]
  }

  ghost predicate NothingMapped(m: Mem, tabs: Tables) {
    forall u: nat :: Leaf(m, tabs, u) == 0
  }

  /** A cleared page is a tree of one table. */
  lemma LoneRoot(m: Mem, p: nat)
    requires p % 0x1000 == 0 && p + 0x1000 <= |m| && p < 0x10_0000_0000_0000
    requires forall i :: 0 <= i < 512 ==> Word(m, p + 8 * i) == 0
    ensures Tree(m, map[Key(4, 0) := p], p, false)
  {
    var tabs := map[Key(4, 0) := p];
    forall k, i | k in tabs && 0 <= i < 512 ensures EntryOk(m, tabs, false, k, i) {
      assert Ent(m, tabs, k, i) == Word(m, p + 8 * i);
    }
  }

  /** Words of a page that are zero in m. */
  ghost predicate ZeroPage(m: Mem, p: nat) {
    forall i :: 0 <= i < 512 ==> Word(m, p + 8 * i) == 0
  }

  lemma ChainGrown(m: Mem, tabs: Tables, root: nat, k: Key, q: nat)
    requires Tree(m, tabs, root, false) && k in tabs && tabs[k] + 0x1000 <= q
    requires q + 0x1000 <= |m| && q < 0x1_0000_0000 && ZeroPage(m, q)
    ensures tabs[k] + 8 <= |m| && Grown(m, StoreWord(m, tabs[k], q + 3), tabs, k, 0, q)
  {
    StoreRewrites(m, tabs, root, false, k, 0, q + 3);
    assert SlotOf(tabs, k, 0) == tabs[k];
    ZeroPageKept(m, tabs[k], q + 3, q);
  }

  /** Chain the zero page at q below slot 0 of the lowest table so far. */
  lemma ChainStep(m: Mem, tabs: Tables, root: nat, k: Key, c: Key, q: nat)
    requires Tree(m, tabs, root, false) && k.level > 1 && c == Child(k, 0) && k in tabs && c !in tabs
    requires TablePage(q) && q + 0x1000 <= |m| && q < 0x1_0000_0000 && ZeroPage(m, q)
    requires forall k' :: k' in tabs ==> tabs[k'] + 0x1000 <= q
    requires NothingMapped(m, tabs)
    ensures tabs[k] + 8 <= |m|
    ensures var m' := StoreWord(m, tabs[k], q + 3);
            Tree(m', tabs[c := q], root, false) && NothingMapped(m', tabs[c := q])
  {
    hide *;
    ChainGrown(m, tabs, root, k, q);
    var m' := StoreWord(m, tabs[k], q + 3);
    TreeGrows(m, m', tabs, root, false, k, 0, q);
    GrownNothing(m, m', tabs, root, k, c, q);
  }

  lemma GrownNothing(m: Mem, m': Mem, tabs: Tables, root: nat, k: Key, c: Key, q: nat)
    requires Tree(m, tabs, root, false) && k in tabs && k.level > 1 && c == Child(k, 0) && c !in tabs
    requires Grown(m, m', tabs, k, 0, q) && NothingMapped(m, tabs)
    ensures NothingMapped(m', tabs[c := q])
  {
    GrownLeaves(m, m', tabs, root, false, k, 0, q);
    var tabs' := tabs[c := q];
    forall u: nat ensures Leaf(m', tabs', u) == 0 {
      assert Leaf(m, tabs, u) == 0;
    }
  }

  lemma ZeroPageKept(m: Mem, a: nat, w: nat, r: nat)
    requires a + 8 <= r && r + 0x1000 <= |m| && ZeroPage(m, r)
    ensures ZeroPage(StoreWord(m, a, w), r)
  {
    forall i | 0 <= i < 512 ensures Word(StoreWord(m, a, w), r + 8 * i) == 0 {
      WordFrame(m, StoreWord(m, a, w), r + 8 * i);
    }
  }

  lemma FreshZeroPages(m: Mem, p: nat, j: nat)
    requires p + 0x4000 <= |m| && j < 4
    ensures ZeroPage(Zeroed(m, p, 0x4000), p + 0x1000 * j)
  {
    forall i | 0 <= i < 512 ensures Word(Zeroed(m, p, 0x4000), p + 0x1000 * j + 8 * i) == 0 {
      WordZeroed(m, p, 0x4000, p + 0x1000 * j + 8 * i);
    }
  }

  /** The four chained tables are a well-formed tree that maps nothing. */
  lemma FirstTree(m: Mem, p: nat)
    requires |m| == 0x1_0000_0000 && p % 0x1000 == 0 && p + 0x4000 <= |m|
    ensures Tree(FirstTables(m, p), FirstKeys(p), p, false)
    ensures NothingMapped(FirstTables(m, p), FirstKeys(p))
  {
    var m0 := Zeroed(m, p, 0x4000);
    var t0: Tables := map[Key(4, 0) := p];
    FreshZeroPages(m, p, 0);
    FreshZeroPages(m, p, 1);
    FreshZeroPages(m, p, 2);
    FreshZeroPages(m, p, 3);
    LoneRoot(m0, p);
    LinkBits(p + 0x1000);
    LinkBits(p + 0x2000);
    LinkBits(p + 0x3000);
    ChainAll(m0, p);
  }

  lemma ChainAll(m0: Mem, p: nat)
    requires |m0| == 0x1_0000_0000 && p % 0x1000 == 0 && p + 0x4000 <= |m0|
    requires Tree(m0, map[Key(4, 0) := p], p, false)
    requires ZeroPage(m0, p + 0x1000) && ZeroPage(m0, p + 0x2000) && ZeroPage(m0, p + 0x3000)
    ensures var m3 := StoreWord(StoreWord(StoreWord(m0, p, p + 0x1000 + 3), p + 0x1000, p + 0x2000 + 3),
                                p + 0x2000, p + 0x3000 + 3);
            Tree(m3, FirstKeys(p), p, false) && NothingMapped(m3, FirstKeys(p))
  {
    hide Tree, ZeroPage, StoreWord, NothingMapped;
    var m1 := StoreWord(m0, p, p + 0x1000 + 3);
    var m2 := StoreWord(m1, p + 0x1000, p + 0x2000 + 3);
    var k4, k3, k2, k1 := Key(4, 0), Key(3, 0), Key(2, 0), Key(1, 0);
    var t0: Tables := map[k4 := p];
    assert p < 0x1_0000_0000;
    LoneLeaves(m0, p);
    ChainStep(m0, t0, p, k4, k3, p + 0x1000);
    var t1 := t0[k3 := p + 0x1000];
    ZeroPageKept(m0, p, p + 0x1000 + 3, p + 0x2000);
    ZeroPageKept(m0, p, p + 0x1000 + 3, p + 0x3000);
    ChainStep(m1, t1, p, k3, k2, p + 0x2000);
    var t2 := t1[k2 := p + 0x2000];
    ZeroPageKept(m1, p + 0x1000, p + 0x2000 + 3, p + 0x3000);
    ChainStep(m2, t2, p, k2, k1, p + 0x3000);
    assert FirstKeys(p) == t2[k1 := p + 0x3000];
  }

  lemma LoneLeaves(m: Mem, p: nat)
    ensures NothingMapped(m, map[Key(4, 0) := p])
  {
  }

  /** `pmm_allocate_region(4)`. */
  lemma FourPages(s: Sys)
    requires LowMachine(s)
    ensures PagerFits(s)
    ensures var (regions, p) := Allocate(s.regions, 4, Regions.Allocated);
            && Ready(regions)
            && (if p == 0 then regions == s.regions else Granted(s.regions, regions, p, 4, Regions.Allocated))
  {
    LowPagerFits(s);
    GrantLaw(s.regions, 4, Regions.Allocated);
  }

  lemma FirstBooted(s: Sys, regions: seq<Regions.Region>, p: nat)
    requires Machine(s) && Granted(s.regions, regions, p, 4, Regions.Allocated)
    ensures p + 0x4000 <= |s.mem|
    ensures var s' := Sys(FirstTables(s.mem, p), regions);
            Booted(s', p, FirstKeys(p)) && NothingMapped(s'.mem, FirstKeys(p))
  {
    FirstTree(s.mem, p);
    var s', tabs := Sys(FirstTables(s.mem, p), regions), FirstKeys(p);
    forall k | k in tabs ensures OwnedTable(s', tabs, k) {
      assert p <= tabs[k] <= p + 0x3000;
    }
  }

  lemma IdentityFrames()
    ensures WholeFrames(IdentityReqs(0))
  {
    hide IdentityReqs;
    var reqs := IdentityReqs(0);
    forall i | 0 <= i < |reqs| ensures TablePage(reqs[i].phys) {
      assert reqs[i].phys == i * 0x1000;
      PagesOn(0, i);
    }
  }

  /** All the low 512 pages lie under the four tables. */
  lemma {:induction false} IdentityNeedsNothing(have: set<Key>, i: nat)
    requires i <= 512 && Key(3, 0) in have && Key(2, 0) in have && Key(1, 0) in have
    ensures Need(have, IdentityReqs(i)) == 0
    decreases 512 - i
  {
    if i < 512 {
      var r := IdentityReqs(i);
      LowPage(i);
      assert r[0].Page() == i && r[1..] == IdentityReqs(i + 1);
      IdentityNeedsNothing(have + Path(i), i + 1);
    }
  }

  lemma LowPage(i: nat)
    requires i < 512
    ensures PageOf(i * 0x1000) == i
    ensures Prefix(i, 3) == 0 && Prefix(i, 2) == 0 && Prefix(i, 1) == 0
  {
  }

  lemma {:induction false} IdentityFirst(i: nat, v: nat)
    requires i <= 512
    ensures FirstFor(IdentityReqs(i), v) ==
            if i <= v < 512 then Some(Req(v * 0x1000, v * 0x1000, Perm(true, true, true))) else None
    decreases 512 - i
  {
    if i < 512 {
      var r := IdentityReqs(i);
      LowPage(i);
      assert r[0].Page() == i && r[1..] == IdentityReqs(i + 1);
      IdentityFirst(i + 1, v);
    }
  }

  /** After a successful start the low 2 MiB are mapped to themselves, writable
      and executable, nothing else is mapped, and just the first allocation has
      gone to the tables. */
  lemma InitializePagerLaw(s: Sys) returns (tabs: Tables)
    requires LowMachine(s)
    ensures PagerFits(s)
    ensures var (s', top) := InitializePager(s);
            match top
            case None => s' == s
            case Some(root) =>
              && Booted(s', root, tabs)
              && s'.regions == Allocate(s.regions, 4, Regions.Allocated).0
              && FreePages(s'.regions) + 4 == FreePages(s.regions)
              && forall v: nat :: v < 0x10_0000_0000 ==>
                   Walk(s'.mem, root, 4, v) == if v < 512 then Some(Trans(v * 0x1000, true, false)) else None
  {
    hide *;
    FourPages(s);
    var (regions, p) := Allocate(s.regions, 4, Regions.Allocated);
    tabs := map[];
    if p != 0 {
      FirstBooted(s, regions, p);
      tabs := StartedLaw(Sys(FirstTables(s.mem, p), regions), p);
    }
    PagerUnfolds(s, regions, p);
  }

  lemma PagerUnfolds(s: Sys, regions: seq<Regions.Region>, p: u32)
    requires PagerFits(s) && Allocate(s.regions, 4, Regions.Allocated) == (regions, p)
    requires if p == 0 then regions == s.regions else Granted(s.regions, regions, p, 4, Regions.Allocated)
    ensures p == 0 ==> InitializePager(s) == (s, None)
    ensures p != 0 ==> p % 0x1000 == 0 && p + 0x4000 <= |s.mem| && Machine(Sys(FirstTables(s.mem, p), regions))
    ensures p != 0 ==>
              InitializePager(s) == (MapAll(Sys(FirstTables(s.mem, p), regions), p, IdentityReqs(0)), Some(p))
              && FreePages(regions) + 4 == FreePages(s.regions)
  {
    hide Allocate, MapAll, FirstTables, IdentityReqs, FreePages, Ready, FreeAligned;
    assert AllocateFirst(s) == (regions, p);
  }

  lemma StartedLaw(s: Sys, root: nat) returns (tabs: Tables)
    requires Booted(s, root, FirstKeys(root)) && NothingMapped(s.mem, FirstKeys(root))
    ensures Machine(s) && root % 0x1000 == 0 && root + 0x1000 <= 0x1_0000_0000
    ensures var s' := MapAll(s, root, IdentityReqs(0));
            && Booted(s', root, tabs) && s'.regions == s.regions
            && forall v: nat :: v < 0x10_0000_0000 ==>
                 Walk(s'.mem, root, 4, v) == if v < 512 then Some(Trans(v * 0x1000, true, false)) else None
  {
    hide *;
    IdentityFrames();
    FirstKeysHave(root);
    IdentityNeedsNothing(FirstKeys(root).Keys, 0);
    RootFits(s, root, FirstKeys(root));
    tabs := MapAllLaw(s, root, FirstKeys(root), IdentityReqs(0));
    var s' := MapAll(s, root, IdentityReqs(0));
    NothingTaken(s, FirstKeys(root), s', tabs, root);
    forall v: nat | v < 0x10_0000_0000
      ensures Walk(s'.mem, root, 4, v) == if v < 512 then Some(Trans(v * 0x1000, true, false)) else None
    {
      IdentityFirst(0, v);
      UnmappedBefore(s, root, v);
      FirstWalk(s, FirstKeys(root), s', tabs, root, IdentityReqs(0), v);
    }
  }

  lemma FirstKeysHave(root: nat)
    ensures var have := FirstKeys(root).Keys; Key(3, 0) in have && Key(2, 0) in have && Key(1, 0) in have
  {
  }

  lemma NothingTaken(s: Sys, tabs: Tables, s': Sys, tabs': Tables, root: nat)
    requires AllMapped(s, tabs, s', tabs', root, IdentityReqs(0)) && Need(tabs.Keys, IdentityReqs(0)) == 0
    ensures s'.regions == s.regions && Booted(s', root, tabs')
  {
  }

  lemma UnmappedBefore(s: Sys, root: nat, v: nat)
    requires Booted(s, root, FirstKeys(root)) && v < 0x10_0000_0000 && NothingMapped(s.mem, FirstKeys(root))
    ensures Walk(s.mem, root, 4, v) == None
  {
    WalkIsLeaf(s.mem, FirstKeys(root), root, false, v);
  }
}
