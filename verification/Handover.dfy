/** From Kickstart to the kernel: the tree the loader leaves is one the kernel
    can install its window in and map through, and its own image is still there
    afterwards (Kickstart/Multiboot/elf.c:243-320,
    Kernel/Arch/x86_64/memory-manager.c:79-84, 389-461). */
module Handover {
  import opened Bits
  import opened Options
  import opened Memory
  import opened PageTables
  import opened Paging
  import opened Elf
  import opened ElfLoad
  import opened ElfExpand
  import opened Window
  import opened KernelMap
  import opened PageBudget
  import opened PagerInit
  import opened Boot
  import opened Kickstart
  import opened Regions

  /** No page of a segment and no table before loading lies under slot 510. */
  ghost predicate SlotFree(tabs: Tables, m0: Mem, h: Header)
    requires |m0| > 0
  {
    !HasTop(tabs, 510) && !SegmentUnder(m0, h, 0, 510)
  }

  lemma NoTop(s: Sys, tabs: Tables, s': Sys, tabs': Tables, root: nat, m0: Mem, h: Header)
    requires Expanded(s, tabs, s', tabs', root, m0, h, 0) && SlotFree(tabs, m0, h)
    ensures !HasTop(tabs', 510)
  {
    hide Booted, KeepsPrivate, AllLoaded, RestKept, AllFresh, FramesApart, SegmentUnder;
  }

  /** An absent PDPT leaves its slot of the top table empty. */
  lemma SlotEmpty(m: Mem, tabs: Tables, root: nat)
    requires Tree(m, tabs, root, false) && !HasTop(tabs, 510)
    ensures Word(m, root + 8 * 510) == 0 && root + 0x1000 <= |m| && TablePage(root)
  {
    assert KeyOk(m, tabs, Key(4, 0)) && EntryOk(m, tabs, false, Key(4, 0), 510);
    assert Child(Key(4, 0), 510) == Key(3, 510);
  }

  /** Memory with the window installed. */
  function Installed(m: Mem, root: u64): (r: Mem)
    requires root + 0x1000 <= |m|
    ensures |r| == |m|
  {
    StoreWord(m, root + 8 * 510, FractalEntry(root))
  }

  lemma InstalledIs(m: Mem, tabs: Tables, root: u64)
    requires Tree(m, tabs, root, false) && !HasTop(tabs, 510)
    ensures root + 0x1000 <= |m|
    ensures Tree(Installed(m, root), tabs, root, true)
    ensures forall v: nat {:trigger Leaf(Installed(m, root), tabs, v)} ::
              Leaf(Installed(m, root), tabs, v) == Leaf(m, tabs, v)
    ensures forall a: nat {:trigger NoTable(tabs, a)} :: a < |m| && NoTable(tabs, a) ==> Installed(m, root)[a] == m[a]
  {
    hide Leaf, Word, FractalEntry;
    SlotEmpty(m, tabs, root);
    FractalEntryIs(root);
    InstalledTree(m, tabs, root);
    StoredInTable(m, tabs, Key(4, 0), 510, FractalEntry(root));
    assert SlotOf(tabs, Key(4, 0), 510) == root + 8 * 510;
  }

  lemma LoadedPageOrdinary(m0: Mem, h: Header, i: nat, u: nat)
    requires |m0| > 0 && i < h.phnum && SegmentAt(m0, h, i).load && PageOfSegment(SegmentAt(m0, h, i), u)
    requires !SegmentUnder(m0, h, 0, 510)
    ensures Ordinary(u, true)
  {
    hide SegmentAt;
    var j: nat :| j < PagesNeeded(SegmentAt(m0, h, i).memsz) && SegPage(SegmentAt(m0, h, i), j) == u;
    assert SomeSegments(m0, h, 0, u);
    assert Prefix(u, 3) == Index(u, 4);
  }

  /** Reading a byte of a page survives installing the window and mapping at the
      end of the kernel. */
  lemma StillReads(m: Mem, tabs: Tables, root: u64, end: u64, phys: u64, n: nat, perm: Perm,
                   virt: nat, write: bool, exec: bool, b: int)
    requires Tree(m, tabs, root, false) && !HasTop(tabs, 510) && root + 0x1000 <= |m|
    requires KernelMap.Fits(Kern(Installed(m, root), end), phys, n) && Ordinary(PageOf(virt), true)
    requires ReadsAs(m, root, virt, write, exec, b)
    requires match Walk(m, root, 4, PageOf(virt))
             case None => false
             case Some(t) => NoTable(tabs, t.frame + virt % 0x1000)
    ensures ReadsAs(MapEnd(Kern(Installed(m, root), end), root, phys, n, perm).0.mem, root, virt, write, exec, b)
  {
    hide *;
    InstalledIs(m, tabs, root);
    var k := Kern(Installed(m, root), end);
    MapEndLaw(k, tabs, root, phys, n, perm);
    var m' := MapEnd(k, root, phys, n, perm).0.mem;
    var v, u := PageOf(end), PageOf(virt);
    var j := FreeRun(k.mem, tabs, v, n);
    OrdinaryEither(u);
    WalkIsLeaf(m, tabs, root, false, u);
    WalkIsLeaf(k.mem, tabs, root, true, u);
    if v <= u < v + j { NotInRun(k.mem, tabs, v, n, u); }
    ReadsKept(m, k.mem, m', tabs, root, v, j, phys, perm, virt, write, exec, b);
  }

  lemma OrdinaryEither(u: nat)
    requires Ordinary(u, true)
    ensures Ordinary(u, false) && u < 0x10_0000_0000
  {
  }

  /** The pages of a run of free pages have no entry. */
  lemma {:induction false} NotInRun(m: Mem, tabs: Tables, v: nat, n: nat, u: nat)
    requires v <= u < v + FreeRun(m, tabs, v, n)
    ensures LeafTrans(Leaf(m, tabs, u)) == None
    decreases n
  {
    if u > v { NotInRun(m, tabs, v + 1, n - 1, u); }
  }

  lemma ReadsKept(m: Mem, m1: Mem, m2: Mem, tabs: Tables, root: nat, v: nat, j: nat, phys: nat, perm: Perm,
                  virt: nat, write: bool, exec: bool, b: int)
    requires ReadsAs(m, root, virt, write, exec, b) && Walk(m1, root, 4, PageOf(virt)) == Walk(m, root, 4, PageOf(virt))
    requires Extended(m1, m2, root, v, j, phys, perm) && Written(m1, m2, tabs, v, j, phys, perm)
    requires !(v <= PageOf(virt) < v + j) && |m1| == |m|
    requires forall a: nat {:trigger NoTable(tabs, a)} :: a < |m| && NoTable(tabs, a) ==> m1[a] == m[a]
    requires match Walk(m, root, 4, PageOf(virt))
             case None => false
             case Some(t) => NoTable(tabs, t.frame + virt % 0x1000)
    ensures ReadsAs(m2, root, virt, write, exec, b)
  {
    hide Walk, NoTable, Leaf;
    assert Walk(m2, root, 4, PageOf(virt)) == Walk(m, root, 4, PageOf(virt));
  }

  // ----- the loaded kernel -----

  /** The byte read of a loaded segment is private, so no table holds it. */
  lemma LoadedByte(s: Sys, root: nat, tabs: Tables, m0: Mem, base: nat, g: Segment, len: nat, k: nat)
    requires Booted(s, root, tabs) && Loaded(s, tabs, m0, base, g) && GoodSegment(g, len) && k < g.memsz
    ensures match Walk(s.mem, root, 4, PageOf(g.vaddr + k))
            case None => false
            case Some(t) => NoTable(tabs, t.frame + (g.vaddr + k) % 0x1000)
    ensures PageOfSegment(g, PageOf(g.vaddr + k))
  {
    hide Walk, Leaf, Booted, Pte, SegmentPerm, PageOf, FrameOf, PagesNeeded, Private, OutOfTable;
    var p := FrameOf(Leaf(s.mem, tabs, SegPage(g, 0)));
    var j := k / 0x1000;
    PageInside(g.memsz, k);
    GoodFacts(g, len);
    OffsetInPage(g.vaddr, p, k);
    PagesOn(p, j);
    assert SegPage(g, j) == PageOf(g.vaddr + k);
    FrameFits(p, j, PagesNeeded(g.memsz));
    PteMeans(p + j * 0x1000, SegmentPerm(g.flags));
    TreeOf(s, root, tabs);
    WalkIsLeaf(s.mem, tabs, root, false, PageOf(g.vaddr + k));
    assert Leaf(s.mem, tabs, SegPage(g, j)) == Pte(Wrap64(p + j * 0x1000), SegmentPerm(g.flags));
    PrivateNoTable(s, tabs, p + k);
  }

  lemma PrivateNoTable(s: Sys, tabs: Tables, a: nat)
    requires Private(s, tabs, a)
    ensures NoTable(tabs, a)
  {
  }

  /** Kickstart to kernel, end to end: load a good image with nothing under slot
      510, install the window, map pages at the end of the kernel, however that
      ends: every byte of every segment still reads as the file says. */
  lemma KernelKeepsImage(s: Sys, root: u64, tabs: Tables, h: Header, len: nat, i: nat, k: nat,
                         end: u64, phys: u64, n: nat, perm: Perm)
    requires ReadyToLoad(s, root, tabs, h, len) && SlotFree(tabs, s.mem, h)
    requires i < h.phnum && SegmentAt(s.mem, h, i).load && k < SegmentAt(s.mem, h, i).memsz
    ensures PagerReady(s, root) && Loadable(s, root, h, 0)
    ensures var g := SegmentAt(s.mem, h, i);
            var (s', ok) := Expand(s, root, h);
            ok ==>
              && root + 0x1000 <= |s'.mem|
              && (KernelMap.Fits(Kern(Installed(s'.mem, root), end), phys, n) ==>
                    ReadsAs(MapEnd(Kern(Installed(s'.mem, root), end), root, phys, n, perm).0.mem, root,
                            g.vaddr + k, g.flags / 2 % 2 == 1, g.flags % 2 == 1,
                            ImageByte(s.mem, h.base, g, k)))
  {
    hide *;
    LoadParts(s, root, tabs, h, len, i);
    var tabs' := ExpandLaw(s, root, tabs, h, s.mem, len, 0);
    ExpandIs(s, root, h, s.mem, len);
    var (s', ok) := Expand(s, root, h);
    if ok {
      var g := SegmentAt(s.mem, h, i);
      ExpandedAt(s, tabs, s', tabs', root, s.mem, h, i);
      NoTop(s, tabs, s', tabs', root, s.mem, h);
      TreeOf(s', root, tabs');
      SlotEmpty(s'.mem, tabs', root);
      ReadLoaded(s', root, tabs', s.mem, h.base, g, len, k);
      PermBits(g.flags);
      LoadedByte(s', root, tabs', s.mem, h.base, g, len, k);
      SlotFreeParts(tabs, s.mem, h);
      LoadedPageOrdinary(s.mem, h, i, PageOf(g.vaddr + k));
      if KernelMap.Fits(Kern(Installed(s'.mem, root), end), phys, n) {
        StillReads(s'.mem, tabs', root, end, phys, n, perm, g.vaddr + k, SegmentPerm(g.flags).write,
                   SegmentPerm(g.flags).exec, ImageByte(s.mem, h.base, g, k));
      }
    }
  }

  lemma SlotFreeParts(tabs: Tables, m0: Mem, h: Header)
    requires |m0| > 0 && SlotFree(tabs, m0, h)
    ensures !SegmentUnder(m0, h, 0, 510)
  {
  }

  // ----- when the mapping succeeds -----

  /** Page u is in no segment and was unmapped, but shares its 2 MiB with a page
      of some segment. */
  ghost predicate BesideSegment(s: Sys, tabs: Tables, h: Header, u: nat)
    requires |s.mem| > 0
  {
    && !SomeSegments(s.mem, h, 0, u) && Leaf(s.mem, tabs, u) == 0
    && exists w: nat :: SomeSegments(s.mem, h, 0, w) && Prefix(w, 1) == Prefix(u, 1)
  }

  lemma BesideIsFree(s: Sys, tabs: Tables, s': Sys, tabs': Tables, root: nat, h: Header, len: nat, u: nat)
    requires |s.mem| > 0 && Expanded(s, tabs, s', tabs', root, s.mem, h, 0) && GoodImage(s.mem, h, len)
    requires BesideSegment(s, tabs, h, u)
    ensures Free(s'.mem, tabs', u)
  {
    hide SegmentAt, Booted, Private, GoodSegment, HeaderInside, PageOfSegment, FreshFrames, NoSharedFrame, HasTop, Leaf;
    var w: nat :| SomeSegments(s.mem, h, 0, w) && Prefix(w, 1) == Prefix(u, 1);
    var j: nat :| 0 <= j < h.phnum && SegmentAt(s.mem, h, j).load && PageOfSegment(SegmentAt(s.mem, h, j), w);
    var g := SegmentAt(s.mem, h, j);
    assert GoodAt(s.mem, h, len, j);
    LoadedHasTable(s', root, tabs', s.mem, h.base, g, len, w);
  }

  lemma LoadedHasTable(s: Sys, root: nat, tabs: Tables, m0: Mem, base: nat, g: Segment, len: nat, w: nat)
    requires Loaded(s, tabs, m0, base, g) && GoodSegment(g, len) && PageOfSegment(g, w)
    ensures Key(1, Prefix(w, 1)) in tabs
  {
    hide Pte, Private, SegmentPerm;
    var j: nat :| j < PagesNeeded(g.memsz) && SegPage(g, j) == w;
    var p := FirstFrame(s, tabs, g);
    GoodFacts(g, len);
    FrameFits(p, j, PagesNeeded(g.memsz));
    PagesOn(p, j);
    PteMeans(p + j * 0x1000, SegmentPerm(g.flags));
    assert Leaf(s.mem, tabs, w) == Pte(p + j * 0x1000, SegmentPerm(g.flags));
  }

  lemma FreeInstalled(m: Mem, tabs: Tables, root: u64, u: nat)
    requires Tree(m, tabs, root, false) && !HasTop(tabs, 510) && Free(m, tabs, u)
    ensures root + 0x1000 <= |m| && Free(Installed(m, root), tabs, u)
  {
    hide Leaf, Installed, HasTop;
    InstalledIs(m, tabs, root);
  }

  /** The kernel can map behind its image: pages beside its segments take the
      mapping, and each then translates to its frame. */
  lemma KernelMapsBehindImage(s: Sys, root: u64, tabs: Tables, h: Header, len: nat,
                              end: u64, phys: u64, n: nat, perm: Perm)
    requires ReadyToLoad(s, root, tabs, h, len) && SlotFree(tabs, s.mem, h)
    requires forall u: nat :: PageOf(end) <= u < PageOf(end) + n ==> BesideSegment(s, tabs, h, u)
    ensures PagerReady(s, root) && Loadable(s, root, h, 0)
    ensures var (s', ok) := Expand(s, root, h);
            ok ==>
              && root + 0x1000 <= |s'.mem|
              && var k := Kern(Installed(s'.mem, root), end);
                 KernelMap.Fits(k, phys, n) ==>
                   var (k', o) := MapEnd(k, root, phys, n, perm);
                   && o == KernelMap.Mapped && k'.end == end + 0x1000 * n
                   && forall i: nat :: i < n ==>
                        Walk(k'.mem, root, 4, PageOf(end) + i) == Some(Trans(phys + 0x1000 * i, perm.write, !perm.exec))
  {
    hide *;
    LoadParts(s, root, tabs, h, len, 0);
    var tabs' := ExpandLaw(s, root, tabs, h, s.mem, len, 0);
    ExpandIs(s, root, h, s.mem, len);
    var (s', ok) := Expand(s, root, h);
    if ok {
      ExpandedTree(s, tabs, s', tabs', root, s.mem, h);
      NoTop(s, tabs, s', tabs', root, s.mem, h);
      TreeOf(s', root, tabs');
      InstalledIs(s'.mem, tabs', root);
      var k := Kern(Installed(s'.mem, root), end);
      forall u: nat | PageOf(end) <= u < PageOf(end) + n ensures Free(k.mem, tabs', u) {
        BesideIsFree(s, tabs, s', tabs', root, h, len, u);
        FreeInstalled(s'.mem, tabs', root, u);
      }
      if KernelMap.Fits(k, phys, n) { MapEndMaps(k, tabs', root, phys, n, perm); }
    }
  }

  // ----- from the firmware's map on -----

  lemma SameSlots(m: Mem, m0: Mem, h: Header, tabs: Tables)
    requires SameSegments(m, m0, h) && !SegmentUnder(m0, h, 0, 510) && tabs.Keys == FirstKeys(0).Keys
    ensures SlotFree(tabs, m, h)
  {
    hide SomeSegments, SegmentAt;
    assert Key(3, 510) !in tabs.Keys;
    forall u: nat | SomeSegments(m, h, 0, u) ensures Prefix(u, 3) != 510 {
      SegmentsSame(m, m0, h, u);
    }
  }

  lemma SameByte(s: Sys, tabs: Tables, m0: Mem, h: Header, len: nat, i: nat, k: nat)
    requires FileHeld(s, tabs, m0, h.base, len) && GoodImage(m0, h, len) && SameSegments(s.mem, m0, h)
    requires i < h.phnum && SegmentAt(m0, h, i).load
    ensures SegmentAt(s.mem, h, i) == SegmentAt(m0, h, i)
    ensures var g := SegmentAt(m0, h, i); ImageByte(s.mem, h.base, g, k) == ImageByte(m0, h.base, g, k)
  {
    hide SegmentAt, Private;
    assert GoodAt(m0, h, len, i);
  }

  lemma RootIsWord(s: Sys, root: nat)
    requires PagerReady(s, root)
    ensures root < 0x1_0000_0000
  {
  }

  /** The whole way: from a map of free memory through both reservations, the
      pager, the loader, the window and a mapping at the end of the kernel, however
      that ends, every byte of every segment reads as the module's file says. */
  lemma BootKeepsImage(m: Mem, s: seq<Region>, ks: u32, ke: u32, ms: u32, me: u32, h: Header, i: nat, k: nat,
                       end: u64, phys: u64, n: nat, perm: Perm)
    requires StartMap(s, ks, ke, ms, me) && GoodModule(m, ms, me, h) && |m| > 0 && !SegmentUnder(m, h, 0, 510)
    requires FreePages(BothReserved(s, ks, ke, ms, me)) >= 4 + BootDemand(m, h)
    requires i < h.phnum && SegmentAt(m, h, i).load && k < SegmentAt(m, h, i).memsz
    ensures PagerFits(Sys(m, BothReserved(s, ks, ke, ms, me)))
    ensures var (s1, top) := Started(m, s, ks, ke, ms, me);
            top.Some? ==>
              && PagerReady(s1, top.value) && Loadable(s1, top.value, h, 0)
              && var (root, g) := (top.value, SegmentAt(m, h, i));
                 var (s2, ok) := Expand(s1, root, h);
                 ok ==>
                   && root + 0x1000 <= |s2.mem|
                   && (KernelMap.Fits(Kern(Installed(s2.mem, root), end), phys, n) ==>
                         ReadsAs(MapEnd(Kern(Installed(s2.mem, root), end), root, phys, n, perm).0.mem, root,
                                 g.vaddr + k, g.flags / 2 % 2 == 1, g.flags % 2 == 1,
                                 ImageByte(m, ms, g, k)))
  {
    hide *;
    ModuleParts(m, ms, me, h);
    FirmwareStart(s, ks, ke, ms, me);
    BothTaken(m, s, ks, ke, ms, me);
    StartIsLow(m, s, ks, ke, ms, me);
    StartedIs(m, s, ks, ke, ms, me);
    var s0 := Sys(m, BothReserved(s, ks, ke, ms, me));
    var tabs := ReadyAfterStart(s0, h, me - ms);
    var (s1, top) := Started(m, s, ks, ke, ms, me);
    if top.Some? {
      LoadParts(s1, top.value, tabs, h, me - ms, 0);
      ReadyRoot(s1, top.value, tabs);
      RootIsWord(s1, top.value);
      SameSlots(s1.mem, m, h, tabs);
      SameByte(s1, tabs, m, h, me - ms, i, k);
      KernelKeepsImage(s1, top.value, tabs, h, me - ms, i, k, end, phys, n, perm);
    }
  }

  /** Page u is above the identity map, in no segment, and shares its 2 MiB with a
      page of some segment. */
  ghost predicate BesideImage(m: Mem, h: Header, u: nat)
    requires |m| > 0
  {
    && u >= 512 && !SomeSegments(m, h, 0, u)
    && exists w: nat :: SomeSegments(m, h, 0, w) && Prefix(w, 1) == Prefix(u, 1)
  }

  lemma BesideKept(s: Sys, tabs: Tables, m0: Mem, h: Header, u: nat)
    requires SameSegments(s.mem, m0, h) && NothingHigh(s.mem, tabs) && |m0| > 0 && BesideImage(m0, h, u)
    ensures |s.mem| > 0 && BesideSegment(s, tabs, h, u)
  {
    hide SomeSegments, Leaf, SegmentAt;
    SegmentsSame(s.mem, m0, h, u);
    var w: nat :| SomeSegments(m0, h, 0, w) && Prefix(w, 1) == Prefix(u, 1);
    SegmentsSame(s.mem, m0, h, w);
  }

  /** And pages beside the kernel's segments take the mapping. */
  lemma BootMapsBehindImage(m: Mem, s: seq<Region>, ks: u32, ke: u32, ms: u32, me: u32, h: Header,
                            end: u64, phys: u64, n: nat, perm: Perm)
    requires StartMap(s, ks, ke, ms, me) && GoodModule(m, ms, me, h) && |m| > 0 && !SegmentUnder(m, h, 0, 510)
    requires FreePages(BothReserved(s, ks, ke, ms, me)) >= 4 + BootDemand(m, h)
    requires forall u: nat :: PageOf(end) <= u < PageOf(end) + n ==> BesideImage(m, h, u)
    ensures PagerFits(Sys(m, BothReserved(s, ks, ke, ms, me)))
    ensures var (s1, top) := Started(m, s, ks, ke, ms, me);
            top.Some? ==>
              && PagerReady(s1, top.value) && Loadable(s1, top.value, h, 0)
              && var root := top.value;
                 var (s2, ok) := Expand(s1, root, h);
                 ok ==>
                   && root + 0x1000 <= |s2.mem|
                   && var k := Kern(Installed(s2.mem, root), end);
                      KernelMap.Fits(k, phys, n) ==>
                        var (k', o) := MapEnd(k, root, phys, n, perm);
                        && o == KernelMap.Mapped && k'.end == end + 0x1000 * n
                        && forall i: nat :: i < n ==>
                             Walk(k'.mem, root, 4, PageOf(end) + i) ==
                             Some(Trans(phys + 0x1000 * i, perm.write, !perm.exec))
  {
    hide *;
    ModuleParts(m, ms, me, h);
    FirmwareStart(s, ks, ke, ms, me);
    BothTaken(m, s, ks, ke, ms, me);
    StartIsLow(m, s, ks, ke, ms, me);
    StartedIs(m, s, ks, ke, ms, me);
    var s0 := Sys(m, BothReserved(s, ks, ke, ms, me));
    var tabs := ReadyAfterStart(s0, h, me - ms);
    var (s1, top) := Started(m, s, ks, ke, ms, me);
    if top.Some? {
      LoadParts(s1, top.value, tabs, h, me - ms, 0);
      ReadyRoot(s1, top.value, tabs);
      RootIsWord(s1, top.value);
      SameSlots(s1.mem, m, h, tabs);
      forall u: nat | PageOf(end) <= u < PageOf(end) + n ensures BesideSegment(s1, tabs, h, u) {
        BesideKept(s1, tabs, m, h, u);
      }
      KernelMapsBehindImage(s1, top.value, tabs, h, me - ms, end, phys, n, perm);
    }
  }
}
