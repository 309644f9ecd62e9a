/** The whole loader: every segment of the image ends up in the virtual memory
    its program header asks for (Kickstart/Multiboot/elf.c:228-331). */
module ElfExpand {
  import opened Bits
  import opened Memory
  import opened PageTables
  import opened RegionOps
  import opened PageBudget
  import opened Paging
  import opened PagingLaws
  import opened MapRuns
  import opened Elf
  import opened ElfLoad
  import Regions

  lemma GoodFacts(g: Segment, len: nat)
    requires GoodSegment(g, len)
    ensures SizesOk(g)
    ensures var n := PagesNeeded(g.memsz); 0 < n < 0x10_0000 && g.filesz <= g.memsz <= n * 0x1000
  {
    PagesCover(g.memsz);
  }

  lemma SegmentGrant(s: Sys, g: Segment, len: nat)
    requires LowMachine(s) && GoodSegment(g, len)
    ensures var (regions, p) := Allocate(s.regions, PagesNeeded(g.memsz), Regions.Kernel);
            p != 0 ==>
              && Granted(s.regions, regions, p, PagesNeeded(g.memsz), Regions.Kernel)
              && FreePages(s.regions) == FreePages(regions) + PagesNeeded(g.memsz) && |regions| <= |s.regions| + 1
  {
    PagesCover(g.memsz);
    GrantLaw(s.regions, PagesNeeded(g.memsz), Regions.Kernel);
  }

  lemma ClearedStage(s: Sys, root: nat, tabs: Tables, regions: seq<Regions.Region>, p: nat, n: nat)
    requires Booted(s, root, tabs) && Granted(s.regions, regions, p, n, Regions.Kernel) && n > 0
    ensures p + n * 0x1000 <= |s.mem| == 0x1_0000_0000
    ensures var s1 := Sys(Zeroed(s.mem, p, n * 0x1000), regions);
            && Booted(s1, root, tabs) && SameLeaves(s, tabs, s1, tabs) && KeepsPrivate(s, tabs, s1, tabs)
            && ClearedAt(s1, tabs, p, n * 0x1000)
  {
    ClearedLaw(s, root, tabs, regions, p, n);
  }

  lemma SourceAddress(m: Mem, dst: nat, x: nat, k: nat)
    requires |m| > 0 && dst + k <= |m| && x + k <= 0x1_0000_0000
    ensures CopyForward(m, dst, Wrap32(x), k) == CopyForward(m, dst, x, k)
  {
  }

  /** The bytes of g in the file, at the point of the copy. */
  lemma FileRange(s: Sys, tabs: Tables, s2: Sys, tabs2: Tables, m0: Mem, base: nat, g: Segment, len: nat,
                  regions: seq<Regions.Region>, p: nat)
    requires FileHeld(s, tabs, m0, base, len) && GoodSegment(g, len) && KeepsPrivate(s, tabs, s2, tabs2)
    requires Granted(s.regions, regions, p, PagesNeeded(g.memsz), Regions.Kernel)
    ensures |m0| == |s2.mem| && base + g.offset + g.filesz <= |m0|
    ensures base + g.offset + g.filesz <= p || p + PagesNeeded(g.memsz) * 0x1000 <= base + g.offset
            || g.filesz == 0
    ensures forall a: nat :: base + g.offset <= a < base + g.offset + g.filesz ==> s2.mem[a] == m0[a]
  {
    PagesCover(g.memsz);
    FileKept(s, tabs, s2, tabs2, m0, base, len);
    GrantClearOfFile(s, tabs, m0, base, len, regions, p, PagesNeeded(g.memsz));
  }

  lemma FillStage(s2: Sys, root: nat, tabs2: Tables, p: nat, n: nat, m0: Mem, src: nat, k: nat)
    requires Booted(s2, root, tabs2) && ClearedAt(s2, tabs2, p, n) && k <= n && n > 0
    requires |m0| == |s2.mem| == 0x1_0000_0000 && src + k <= |m0| && (src + k <= p || p + n <= src || k == 0)
    requires forall a: nat :: src <= a < src + k ==> s2.mem[a] == m0[a]
    ensures var s' := s2.(mem := CopyForward(s2.mem, p, Wrap32(src), k));
            && Booted(s', root, tabs2) && SameLeaves(s2, tabs2, s', tabs2) && DiffersIn(s2.mem, s'.mem, p, n)
            && FilledAt(s', tabs2, p, n, m0, src, k)
  {
    SourceAddress(s2.mem, p, src, k);
    if k > 0 {
      FilledLaw(s2, root, tabs2, p, n, m0, src, k);
    } else {
      assert CopyForward(s2.mem, p, src, k) == s2.mem;
    }
  }

  lemma SegmentAssembled(s: Sys, tabs: Tables, s3: Sys, tabs2: Tables, root: nat, m0: Mem, base: nat, g: Segment)
    requires Booted(s3, root, tabs2) && KeepsPrivate(s, tabs, s3, tabs2)
    requires OthersKept(s, tabs, s3, tabs2, g) && Loaded(s3, tabs2, m0, base, g) && FreshFrames(s, tabs, s3, tabs2, g)
    requires tabs2.Keys == Covered(tabs.Keys, SegReqs(0, g))
    requires FreePages(s.regions) == FreePages(s3.regions) + PagesNeeded(g.memsz) + Need(tabs.Keys, SegReqs(0, g))
    requires |s3.regions| <= |s.regions| + 1 + Need(tabs.Keys, SegReqs(0, g))
    ensures SegmentDone(s, tabs, s3, tabs2, root, m0, base, g)
  {
    hide Booted, KeepsPrivate, OthersKept, Loaded, FreshFrames, Covered, Need, FreePages, SegReqs, PagesNeeded;
  }

  /** The step for one good segment. */
  lemma SegmentLaw(s: Sys, root: nat, tabs: Tables, h: Header, g: Segment, m0: Mem, len: nat) returns (tabs2: Tables)
    requires Booted(s, root, tabs) && FileHeld(s, tabs, m0, h.base, len) && GoodSegment(g, len)
    requires Unmapped(s, tabs, g)
    requires FreePages(s.regions) >= PagesNeeded(g.memsz) + Need(tabs.Keys, SegReqs(0, g))
    ensures Machine(s) && root % 0x1000 == 0 && root + 0x1000 <= 0x1_0000_0000 && Placeable(s, g)
    ensures var (s', ok) := LoadSegment(s, root, h, g);
            ok ==>
              && SegmentDone(s, tabs, s', tabs2, root, m0, h.base, g)
              && Booted(MappedSegment(s, root, g), root, tabs2)
              && FirstFrame(s', tabs2, g) == Allocate(s.regions, PagesNeeded(g.memsz), Regions.Kernel).1
  {
    hide *;
    GoodFacts(g, len);
    RootFits(s, root, tabs);
    LowPlaceable(s, g);
    SegmentGrant(s, g, len);
    var n, src := PagesNeeded(g.memsz), h.base + g.offset;
    var (regions, p) := Allocate(s.regions, n, Regions.Kernel);
    LoadUnfolds(s, root, h, g, regions, p);
    tabs2 := tabs;
    if p != 0 {
      ClearedStage(s, root, tabs, regions, p, n);
      var s1 := Sys(Zeroed(s.mem, p, n * 0x1000), regions);
      UnmappedKept(s, tabs, s1, g);
      tabs2 := MapStage(s1, root, tabs, p, g, len);
      var s2 := MapAll(s1, root, SegReqs(p, g));
      KeepsTwice(s, tabs, s1, tabs, s2, tabs2);
      ClearedKept(s1, tabs, s2, tabs2, p, n * 0x1000);
      FileRange(s, tabs, s2, tabs2, m0, h.base, g, len, regions, p);
      MemorySize(s2, root, tabs2);
      FillStage(s2, root, tabs2, p, n * 0x1000, m0, src, g.filesz);
      var s3 := s2.(mem := CopyForward(s2.mem, p, Wrap32(src), g.filesz));
      KeptAcrossFill(s, tabs, s2, tabs2, s3.mem, regions, p, n);
      MappedKept(s2, tabs2, s3, tabs2, g, p);
      LoadedAt(s3, tabs2, m0, h.base, g, p, len);
      FramesAreFresh(s, tabs, s3, tabs2, g, regions, p);
      OthersKeptThrough(s, tabs, s1, s2, tabs2, s3, g);
      SegmentAssembled(s, tabs, s3, tabs2, root, m0, h.base, g);
    }
  }

  lemma MemorySize(s: Sys, root: nat, tabs: Tables)
    requires Booted(s, root, tabs)
    ensures |s.mem| == 0x1_0000_0000
  {
  }

  // ----- all segments -----

  /** Segment i of an image. */
  function SegmentAt(m: Mem, h: Header, i: nat): Segment
    requires |m| > 0
  {
    ParseSegment(m, HeaderAt(h, i), h.cls, h.endian)
  }

  predicate PagerReady(s: Sys, root: nat) {
    Machine(s) && root % 0x1000 == 0 && root + 0x1000 <= 0x1_0000_0000
  }

  /** The sizes of every segment the loop gets to are ones it can handle. */
  predicate Loadable(s: Sys, root: nat, h: Header, i: nat)
    requires PagerReady(s, root)
    decreases h.phnum - i
  {
    i >= h.phnum ||
    var g := SegmentAt(s.mem, h, i);
    if !g.load then Loadable(s, root, h, i + 1)
    else Placeable(s, g) && (LoadSegment(s, root, h, g).1 ==> Loadable(LoadSegment(s, root, h, g).0, root, h, i + 1))
  }

  /** The loader's loop from program header i on. */
  function ExpandFrom(s: Sys, root: nat, h: Header, i: nat): (r: (Sys, bool))
    requires PagerReady(s, root) && Loadable(s, root, h, i)
    ensures Machine(r.0)
    decreases h.phnum - i
  {
    if i >= h.phnum then (s, true) else
      var g := SegmentAt(s.mem, h, i);
      if !g.load then ExpandFrom(s, root, h, i + 1) else
        var (s1, ok) := LoadSegment(s, root, h, g);
        if !ok then (s1, false) else ExpandFrom(s1, root, h, i + 1)
  }

  /** A class-64 AMD64 file of len bytes: program headers and segment contents
      inside it, page-aligned segments that share no page. */
  ghost predicate GoodImage(m0: Mem, h: Header, len: nat) {
    && |m0| == 0x1_0000_0000 && h.base + len <= |m0|
    && h.cls == Class64 && h.arch == Amd64
    && (forall i: nat :: i < h.phnum ==> HeaderInside(h, len, i) && GoodAt(m0, h, len, i))
    && (forall i: nat, j: nat :: i < j < h.phnum ==> PagesApartAt(m0, h, i, j))
  }

  predicate HeaderInside(h: Header, len: nat, i: nat) {
    h.phoff + h.phentsize * i + 48 <= len
  }

  predicate GoodAt(m0: Mem, h: Header, len: nat, i: nat)
    requires |m0| > 0
  {
    var g := SegmentAt(m0, h, i); g.load ==> GoodSegment(g, len)
  }

  ghost predicate PagesApartAt(m0: Mem, h: Header, i: nat, j: nat)
    requires |m0| > 0
  {
    var a, b := SegmentAt(m0, h, i), SegmentAt(m0, h, j);
    a.load && b.load ==> SegmentsApart(a, b)
  }

  ghost predicate SegmentsApart(a: Segment, b: Segment) {
    forall u: nat :: !(PageOfSegment(a, u) && PageOfSegment(b, u))
  }

  /** The segments still to come are not mapped yet. */
  ghost predicate Pending(s: Sys, tabs: Tables, m0: Mem, h: Header, i: nat)
    requires |m0| > 0
  {
    forall j: nat :: i <= j < h.phnum && SegmentAt(m0, h, j).load ==> Unmapped(s, tabs, SegmentAt(m0, h, j))
  }

  /** Pages the allocator has to have for segments i and up and their tables. */
  function Demand(have: set<Key>, m0: Mem, h: Header, i: nat): nat
    requires |m0| > 0
    decreases h.phnum - i
  {
    if i >= h.phnum then 0 else
      var g := SegmentAt(m0, h, i);
      if !g.load then Demand(have, m0, h, i + 1)
      else PagesNeeded(g.memsz) + Need(have, SegReqs(0, g)) + Demand(Covered(have, SegReqs(0, g)), m0, h, i + 1)
  }

  ghost predicate AllLoaded(s: Sys, tabs: Tables, m0: Mem, h: Header, i: nat)
    requires |m0| > 0
  {
    forall j: nat :: i <= j < h.phnum && SegmentAt(m0, h, j).load ==>
      Loaded(s, tabs, m0, h.base, SegmentAt(m0, h, j))
  }

  ghost predicate SomeSegments(m0: Mem, h: Header, i: nat, u: nat)
    requires |m0| > 0
  {
    exists j: nat :: i <= j < h.phnum && SegmentAt(m0, h, j).load && PageOfSegment(SegmentAt(m0, h, j), u)
  }

  ghost predicate RestKept(s: Sys, tabs: Tables, s': Sys, tabs': Tables, m0: Mem, h: Header, i: nat)
    requires |m0| > 0
  {
    forall u: nat :: !SomeSegments(m0, h, i, u) ==> Leaf(s'.mem, tabs', u) == Leaf(s.mem, tabs, u)
  }

  // ----- the file does not change under the loader -----

  lemma ParseKept(m: Mem, m0: Mem, h: Header, len: nat, i: nat)
    requires |m| == |m0| == 0x1_0000_0000 && h.base + len <= |m0| && h.cls == Class64 && HeaderInside(h, len, i)
    requires forall a: nat :: h.base <= a < h.base + len ==> m[a] == m0[a]
    ensures SegmentAt(m, h, i) == SegmentAt(m0, h, i)
  {
    var a := h.base + h.phoff + h.phentsize * i;
    HeaderAddress(h, len, i);
    PeekKept(m, m0, a, a + 48, a, 4);
    PeekKept(m, m0, a, a + 48, a + 4, 4);
    PeekKept(m, m0, a, a + 48, a + 8, 8);
    PeekKept(m, m0, a, a + 48, a + 16, 8);
    PeekKept(m, m0, a, a + 48, a + 24, 8);
    PeekKept(m, m0, a, a + 48, a + 32, 8);
    PeekKept(m, m0, a, a + 48, a + 40, 8);
    ParseFromPeeks(m, m0, a, h.endian);
  }

  lemma HeaderAddress(h: Header, len: nat, i: nat)
    requires h.base + len <= 0x1_0000_0000 && HeaderInside(h, len, i)
    ensures HeaderAt(h, i) == h.base + h.phoff + h.phentsize * i
  {
  }

  lemma PeekKept(m: Mem, m0: Mem, lo: nat, hi: nat, a: nat, n: nat)
    requires |m| == |m0| == 0x1_0000_0000 && lo <= a && a + n <= hi <= |m|
    requires forall x: nat :: lo <= x < hi ==> m[x] == m0[x]
    ensures Peek(m, a, n) == Peek(m0, a, n)
  {
  }

  lemma ParseFromPeeks(m: Mem, m0: Mem, a: nat, e: Endian)
    requires |m| == |m0| > 0
    requires Peek(m, a, 4) == Peek(m0, a, 4) && Peek(m, a + 4, 4) == Peek(m0, a + 4, 4)
    requires Peek(m, a + 8, 8) == Peek(m0, a + 8, 8) && Peek(m, a + 16, 8) == Peek(m0, a + 16, 8)
    requires Peek(m, a + 24, 8) == Peek(m0, a + 24, 8)
    requires Peek(m, a + 32, 8) == Peek(m0, a + 32, 8) && Peek(m, a + 40, 8) == Peek(m0, a + 40, 8)
    ensures ParseSegment(m, a, Class64, e) == ParseSegment(m0, a, Class64, e)
  {
    hide Peek, ReadU16, ReadU32, ReadU64;
  }

  // ----- composing the steps -----

  lemma ImageAt(s: Sys, tabs: Tables, m0: Mem, h: Header, len: nat, i: nat)
    requires FileHeld(s, tabs, m0, h.base, len) && GoodImage(m0, h, len) && i < h.phnum
    ensures |m0| > 0 && |s.mem| > 0
    ensures SegmentAt(s.mem, h, i) == SegmentAt(m0, h, i)
    ensures SegmentAt(m0, h, i).load ==> GoodSegment(SegmentAt(m0, h, i), len)
  {
    hide SegmentAt, GoodSegment;
    assert HeaderInside(h, len, i) && GoodAt(m0, h, len, i);
    ParseKept(s.mem, m0, h, len, i);
  }

  /** Loading one segment leaves the later ones pending. */
  lemma StillPending(s: Sys, tabs: Tables, s1: Sys, tabs1: Tables, m0: Mem, h: Header, len: nat, i: nat)
    requires GoodImage(m0, h, len) && i < h.phnum && SegmentAt(m0, h, i).load
    requires Pending(s, tabs, m0, h, i) && OthersKept(s, tabs, s1, tabs1, SegmentAt(m0, h, i))
    ensures Pending(s1, tabs1, m0, h, i + 1)
  {
    hide SegmentAt, Leaf, GoodAt, HeaderInside;
    forall j: nat | i + 1 <= j < h.phnum && SegmentAt(m0, h, j).load
      ensures Unmapped(s1, tabs1, SegmentAt(m0, h, j))
    {
      assert Unmapped(s, tabs, SegmentAt(m0, h, j));
      assert PagesApartAt(m0, h, i, j);
      ApartUnmapped(s, tabs, s1, tabs1, SegmentAt(m0, h, i), SegmentAt(m0, h, j));
    }
  }

  lemma ApartUnmapped(s: Sys, tabs: Tables, s1: Sys, tabs1: Tables, a: Segment, b: Segment)
    requires SegmentsApart(a, b) && OthersKept(s, tabs, s1, tabs1, a) && Unmapped(s, tabs, b)
    ensures Unmapped(s1, tabs1, b)
  {
    hide Leaf;
    forall j: nat | j < PagesNeeded(b.memsz) ensures Leaf(s1.mem, tabs1, SegPage(b, j)) == 0 {
      assert PageOfSegment(b, SegPage(b, j));
      assert !(PageOfSegment(a, SegPage(b, j)) && PageOfSegment(b, SegPage(b, j)));
    }
  }

  /** A loaded segment stays loaded while other pages are mapped. */
  lemma LoadedKept(s: Sys, tabs: Tables, s': Sys, tabs': Tables, m0: Mem, base: nat, g: Segment)
    requires Loaded(s, tabs, m0, base, g) && KeepsPrivate(s, tabs, s', tabs') && PagesNeeded(g.memsz) > 0
    requires forall u: nat :: PageOfSegment(g, u) ==> Leaf(s'.mem, tabs', u) == Leaf(s.mem, tabs, u)
    ensures Loaded(s', tabs', m0, base, g)
  {
    hide Leaf, Private, Pte;
    forall j: nat | j < PagesNeeded(g.memsz)
      ensures Leaf(s'.mem, tabs', SegPage(g, j)) == Leaf(s.mem, tabs, SegPage(g, j))
    {
      assert PageOfSegment(g, SegPage(g, j));
    }
  }

  lemma LoadedAfterRest(s1: Sys, tabs1: Tables, s': Sys, tabs': Tables, m0: Mem, h: Header, len: nat, i: nat)
    requires GoodImage(m0, h, len) && i < h.phnum && SegmentAt(m0, h, i).load
    requires Loaded(s1, tabs1, m0, h.base, SegmentAt(m0, h, i))
    requires KeepsPrivate(s1, tabs1, s', tabs') && RestKept(s1, tabs1, s', tabs', m0, h, i + 1)
    ensures Loaded(s', tabs', m0, h.base, SegmentAt(m0, h, i))
  {
    hide SegmentAt, Leaf, Loaded, HeaderInside, KeepsPrivate, PageOfSegment, GoodSegment;
    var g := SegmentAt(m0, h, i);
    assert GoodAt(m0, h, len, i);
    GoodFacts(g, len);
    forall u: nat | PageOfSegment(g, u) ensures Leaf(s'.mem, tabs', u) == Leaf(s1.mem, tabs1, u) {
      forall j: nat | i + 1 <= j < h.phnum && SegmentAt(m0, h, j).load ensures !PageOfSegment(SegmentAt(m0, h, j), u) {
        assert PagesApartAt(m0, h, i, j);
      }
      assert !SomeSegments(m0, h, i + 1, u);
    }
    LoadedKept(s1, tabs1, s', tabs', m0, h.base, g);
  }

  lemma RestThrough(s: Sys, tabs: Tables, s1: Sys, tabs1: Tables, s': Sys, tabs': Tables, m0: Mem, h: Header, i: nat)
    requires |m0| > 0 && i < h.phnum && SegmentAt(m0, h, i).load
    requires OthersKept(s, tabs, s1, tabs1, SegmentAt(m0, h, i)) && RestKept(s1, tabs1, s', tabs', m0, h, i + 1)
    ensures RestKept(s, tabs, s', tabs', m0, h, i)
  {
    hide SegmentAt, Leaf, PageOfSegment;
    forall u: nat | !SomeSegments(m0, h, i, u) ensures Leaf(s'.mem, tabs', u) == Leaf(s.mem, tabs, u) {
      assert !PageOfSegment(SegmentAt(m0, h, i), u);
      assert !SomeSegments(m0, h, i + 1, u);
    }
  }

  lemma AllLoadedFrom(s: Sys, tabs: Tables, m0: Mem, h: Header, i: nat)
    requires |m0| > 0 && AllLoaded(s, tabs, m0, h, i + 1)
    requires i < h.phnum && SegmentAt(m0, h, i).load ==> Loaded(s, tabs, m0, h.base, SegmentAt(m0, h, i))
    ensures AllLoaded(s, tabs, m0, h, i)
  {
    hide SegmentAt, Loaded;
  }

  /** The frames of all segments from i on are new since s. */
  ghost predicate AllFresh(s: Sys, tabs: Tables, s': Sys, tabs': Tables, m0: Mem, h: Header, i: nat)
    requires |m0| > 0
  {
    forall j: nat :: i <= j < h.phnum && SegmentAt(m0, h, j).load ==>
        FreshFrames(s, tabs, s', tabs', SegmentAt(m0, h, j))
  }

  /** No two segments share a frame. */
  ghost predicate FramesApart(s: Sys, tabs: Tables, m0: Mem, h: Header, i: nat)
    requires |m0| > 0
  {
    forall j: nat, k: nat :: i <= j < k < h.phnum && SegmentAt(m0, h, j).load && SegmentAt(m0, h, k).load ==>
      NoSharedFrame(s, tabs, SegmentAt(m0, h, j), SegmentAt(m0, h, k))
  }

  ghost predicate NoSharedFrame(s: Sys, tabs: Tables, a: Segment, b: Segment) {
    forall x: nat {:trigger InFrames(s, tabs, a, x)} :: InFrames(s, tabs, a, x) ==> !InFrames(s, tabs, b, x)
  }

  predicate HasTop(tabs: Tables, q: nat) { Key(3, q) in tabs }

  /** Every PDPT that is new is there for a page of some segment from i on. */
  ghost predicate TopsForSegments(tabs: Tables, tabs': Tables, m0: Mem, h: Header, i: nat)
    requires |m0| > 0
  {
    forall q: nat {:trigger HasTop(tabs', q)} :: HasTop(tabs', q) && !HasTop(tabs, q) ==> SegmentUnder(m0, h, i, q)
  }

  ghost predicate SegmentUnder(m0: Mem, h: Header, i: nat, q: nat)
    requires |m0| > 0
  {
    exists u: nat :: SomeSegments(m0, h, i, u) && Prefix(u, 3) == q
  }

  /** Outcome of the loop from header i on. */
  ghost predicate Expanded(s: Sys, tabs: Tables, s': Sys, tabs': Tables, root: nat, m0: Mem, h: Header, i: nat) {
    && |m0| > 0 && Booted(s', root, tabs') && KeepsPrivate(s, tabs, s', tabs')
    && AllLoaded(s', tabs', m0, h, i) && RestKept(s, tabs, s', tabs', m0, h, i)
    && AllFresh(s, tabs, s', tabs', m0, h, i) && FramesApart(s', tabs', m0, h, i)
    && TopsForSegments(tabs, tabs', m0, h, i)
  }

  /** Tables of the third level come with the pages that are mapped. */
  lemma {:induction false} CoveredTops(have: set<Key>, reqs: seq<Req>, q: nat)
    requires Key(3, q) in Covered(have, reqs) && Key(3, q) !in have
    ensures exists j :: 0 <= j < |reqs| && Prefix(reqs[j].Page(), 3) == q
    decreases |reqs|
  {
    if Prefix(reqs[0].Page(), 3) != q {
      CoveredTops(have + Path(reqs[0].Page()), reqs[1..], q);
      var j :| 0 <= j < |reqs[1..]| && Prefix(reqs[1..][j].Page(), 3) == q;
      assert reqs[j + 1] == reqs[1..][j];
    }
  }

  lemma NewTopOfSegment(have: set<Key>, g: Segment, len: nat, q: nat)
    requires GoodSegment(g, len) && Key(3, q) in Covered(have, SegReqs(0, g)) && Key(3, q) !in have
    ensures exists u: nat :: PageOfSegment(g, u) && Prefix(u, 3) == q
  {
    hide Covered, Prefix, GoodSegment;
    GoodFacts(g, len);
    CoveredTops(have, SegReqs(0, g), q);
    var j: nat :| j < |SegReqs(0, g)| && Prefix(SegReqs(0, g)[j].Page(), 3) == q;
    SegmentPages(0, g, len, j);
    assert PageOfSegment(g, SegPage(g, j));
  }

  lemma TopsNext(tabs: Tables, tabs1: Tables, tabs': Tables, m0: Mem, h: Header, len: nat, i: nat)
    requires GoodImage(m0, h, len) && i < h.phnum && SegmentAt(m0, h, i).load && |m0| > 0
    requires tabs1.Keys == Covered(tabs.Keys, SegReqs(0, SegmentAt(m0, h, i)))
    requires TopsForSegments(tabs1, tabs', m0, h, i + 1)
    ensures TopsForSegments(tabs, tabs', m0, h, i)
  {
    hide SegmentAt, Covered, PageOfSegment, GoodSegment, SegReqs, HeaderInside;
    var g := SegmentAt(m0, h, i);
    assert GoodAt(m0, h, len, i);
    forall q: nat {:trigger HasTop(tabs', q)} | HasTop(tabs', q) && !HasTop(tabs, q) ensures SegmentUnder(m0, h, i, q) {
      if HasTop(tabs1, q) {
        NewTopOfSegment(tabs.Keys, g, len, q);
        var u: nat :| PageOfSegment(g, u) && Prefix(u, 3) == q;
        assert SomeSegments(m0, h, i, u);
      } else {
        var u: nat :| SomeSegments(m0, h, i + 1, u) && Prefix(u, 3) == q;
        assert SomeSegments(m0, h, i, u);
      }
    }
  }

  lemma FreshLater(s: Sys, tabs: Tables, s1: Sys, tabs1: Tables, s': Sys, tabs': Tables, g: Segment)
    requires KeepsPrivate(s, tabs, s1, tabs1) && FreshFrames(s1, tabs1, s', tabs', g)
    ensures FreshFrames(s, tabs, s', tabs', g)
  {
    hide Private, InFrames;
    forall a: nat {:trigger Private(s, tabs, a)} | Private(s, tabs, a) ensures !InFrames(s', tabs', g, a) {
      assert Private(s1, tabs1, a);
    }
  }

  lemma FramesKept(s: Sys, tabs: Tables, s1: Sys, tabs1: Tables, s': Sys, tabs': Tables, g: Segment)
    requires FreshFrames(s, tabs, s1, tabs1, g) && FirstFrame(s', tabs', g) == FirstFrame(s1, tabs1, g)
    ensures FreshFrames(s, tabs, s', tabs', g)
  {
    hide Private, FirstFrame;
    forall a: nat {:trigger Private(s, tabs, a)} | Private(s, tabs, a) ensures !InFrames(s', tabs', g, a) {
      assert !InFrames(s1, tabs1, g, a);
    }
  }

  /** A loaded segment's bytes are private, so later frames are clear of them. */
  lemma LoadedApart(s1: Sys, tabs1: Tables, s': Sys, tabs': Tables, m0: Mem, base: nat, a: Segment, b: Segment)
    requires Loaded(s1, tabs1, m0, base, a) && FirstFrame(s', tabs', a) == FirstFrame(s1, tabs1, a)
    requires FreshFrames(s1, tabs1, s', tabs', b)
    ensures NoSharedFrame(s', tabs', a, b)
  {
    hide Private, Leaf, MappedTo, PagesNeeded;
    forall x: nat {:trigger InFrames(s', tabs', a, x)} | InFrames(s', tabs', a, x) ensures !InFrames(s', tabs', b, x) {
      assert Private(s1, tabs1, x);
    }
  }

  lemma FirstFrameKept(s1: Sys, tabs1: Tables, s': Sys, tabs': Tables, m0: Mem, h: Header, len: nat, i: nat)
    requires GoodImage(m0, h, len) && i < h.phnum && SegmentAt(m0, h, i).load && |m0| > 0
    requires RestKept(s1, tabs1, s', tabs', m0, h, i + 1)
    ensures FirstFrame(s', tabs', SegmentAt(m0, h, i)) == FirstFrame(s1, tabs1, SegmentAt(m0, h, i))
  {
    hide SegmentAt, Leaf, HeaderInside, GoodSegment, FrameOf;
    var g := SegmentAt(m0, h, i);
    assert GoodAt(m0, h, len, i);
    GoodFacts(g, len);
    var u := SegPage(g, 0);
    assert PageOfSegment(g, u);
    forall j: nat | i + 1 <= j < h.phnum && SegmentAt(m0, h, j).load ensures !PageOfSegment(SegmentAt(m0, h, j), u) {
      assert PagesApartAt(m0, h, i, j);
    }
    assert !SomeSegments(m0, h, i + 1, u);
  }

  lemma FreshNext(s: Sys, tabs: Tables, s1: Sys, tabs1: Tables, s': Sys, tabs': Tables, m0: Mem, h: Header,
                  len: nat, i: nat)
    requires GoodImage(m0, h, len) && i < h.phnum && SegmentAt(m0, h, i).load && |m0| > 0
    requires KeepsPrivate(s, tabs, s1, tabs1) && FreshFrames(s, tabs, s1, tabs1, SegmentAt(m0, h, i))
    requires Loaded(s1, tabs1, m0, h.base, SegmentAt(m0, h, i)) && RestKept(s1, tabs1, s', tabs', m0, h, i + 1)
    requires AllFresh(s1, tabs1, s', tabs', m0, h, i + 1) && FramesApart(s', tabs', m0, h, i + 1)
    ensures AllFresh(s, tabs, s', tabs', m0, h, i) && FramesApart(s', tabs', m0, h, i)
  {
    hide SegmentAt, FreshFrames, Loaded, NoSharedFrame, GoodImage, KeepsPrivate, RestKept, FirstFrame;
    var g := SegmentAt(m0, h, i);
    FirstFrameKept(s1, tabs1, s', tabs', m0, h, len, i);
    FramesKept(s, tabs, s1, tabs1, s', tabs', g);
    forall j: nat | i <= j < h.phnum && SegmentAt(m0, h, j).load
        ensures FreshFrames(s, tabs, s', tabs', SegmentAt(m0, h, j)) {
      if j > i { FreshLater(s, tabs, s1, tabs1, s', tabs', SegmentAt(m0, h, j)); }
    }
    forall j: nat, k: nat | i <= j < k < h.phnum && SegmentAt(m0, h, j).load && SegmentAt(m0, h, k).load
      ensures NoSharedFrame(s', tabs', SegmentAt(m0, h, j), SegmentAt(m0, h, k))
    {
      if j == i { LoadedApart(s1, tabs1, s', tabs', m0, h.base, g, SegmentAt(m0, h, k)); }
    }
  }

  lemma DoneParts(s: Sys, tabs: Tables, s1: Sys, tabs1: Tables, root: nat, m0: Mem, base: nat, g: Segment)
    requires SegmentDone(s, tabs, s1, tabs1, root, m0, base, g)
    ensures Booted(s1, root, tabs1) && KeepsPrivate(s, tabs, s1, tabs1)
    ensures OthersKept(s, tabs, s1, tabs1, g) && Loaded(s1, tabs1, m0, base, g) && FreshFrames(s, tabs, s1, tabs1, g)
    ensures tabs1.Keys == Covered(tabs.Keys, SegReqs(0, g))
    ensures FreePages(s.regions) == FreePages(s1.regions) + PagesNeeded(g.memsz) + Need(tabs.Keys, SegReqs(0, g))
  {
    hide Booted, KeepsPrivate, OthersKept, Loaded, FreshFrames, Covered, FreePages, Need, PagesNeeded, SegReqs;
  }

  lemma ExpandedNext(s: Sys, tabs: Tables, s1: Sys, tabs1: Tables, s': Sys, tabs': Tables, root: nat,
                     m0: Mem, h: Header, len: nat, i: nat)
    requires GoodImage(m0, h, len) && i < h.phnum && SegmentAt(m0, h, i).load
    requires SegmentDone(s, tabs, s1, tabs1, root, m0, h.base, SegmentAt(m0, h, i))
    requires Expanded(s1, tabs1, s', tabs', root, m0, h, i + 1)
    ensures Expanded(s, tabs, s', tabs', root, m0, h, i)
  {
    hide Booted, KeepsPrivate, OthersKept, Loaded, AllLoaded, RestKept, SegmentDone, GoodImage, SegmentAt;
    hide AllFresh, FramesApart, TopsForSegments, FreshFrames, Covered, SegReqs;
    DoneParts(s, tabs, s1, tabs1, root, m0, h.base, SegmentAt(m0, h, i));
    KeepsTwice(s, tabs, s1, tabs1, s', tabs');
    LoadedAfterRest(s1, tabs1, s', tabs', m0, h, len, i);
    AllLoadedFrom(s', tabs', m0, h, i);
    RestThrough(s, tabs, s1, tabs1, s', tabs', m0, h, i);
    FreshNext(s, tabs, s1, tabs1, s', tabs', m0, h, len, i);
    TopsNext(tabs, tabs1, tabs', m0, h, len, i);
  }

  lemma ExpandedSkip(s: Sys, tabs: Tables, s': Sys, tabs': Tables, root: nat, m0: Mem, h: Header, i: nat)
    requires |m0| > 0 && i < h.phnum && !SegmentAt(m0, h, i).load
    requires Expanded(s, tabs, s', tabs', root, m0, h, i + 1)
    ensures Expanded(s, tabs, s', tabs', root, m0, h, i)
  {
    hide Booted, KeepsPrivate, Loaded, SegmentAt, Leaf, PageOfSegment, FreshFrames, NoSharedFrame, HasTop;
    forall u: nat | !SomeSegments(m0, h, i, u) ensures Leaf(s'.mem, tabs', u) == Leaf(s.mem, tabs, u) {
      assert !SomeSegments(m0, h, i + 1, u);
    }
    forall q: nat {:trigger HasTop(tabs', q)} | HasTop(tabs', q) && !HasTop(tabs, q) ensures SegmentUnder(m0, h, i, q) {
      var u: nat :| SomeSegments(m0, h, i + 1, u) && Prefix(u, 3) == q;
      assert SomeSegments(m0, h, i, u);
    }
  }

  lemma ExpandedTree(s: Sys, tabs: Tables, s': Sys, tabs': Tables, root: nat, m0: Mem, h: Header)
    requires Expanded(s, tabs, s', tabs', root, m0, h, 0)
    ensures Booted(s', root, tabs')
  {
    hide Booted, AllLoaded, RestKept, AllFresh, FramesApart, TopsForSegments, KeepsPrivate;
  }

  lemma ExpandUnfolds(s: Sys, root: nat, h: Header, i: nat)
    requires PagerReady(s, root) && i < h.phnum && |s.mem| > 0
    ensures !SegmentAt(s.mem, h, i).load && Loadable(s, root, h, i + 1) ==>
              Loadable(s, root, h, i) && ExpandFrom(s, root, h, i) == ExpandFrom(s, root, h, i + 1)
    ensures SegmentAt(s.mem, h, i).load && Placeable(s, SegmentAt(s.mem, h, i)) ==>
              var (s1, ok) := LoadSegment(s, root, h, SegmentAt(s.mem, h, i));
              && PagerReady(s1, root)
              && (!ok ==> Loadable(s, root, h, i) && ExpandFrom(s, root, h, i) == (s1, false))
              && (ok && Loadable(s1, root, h, i + 1) ==>
                    Loadable(s, root, h, i) && ExpandFrom(s, root, h, i) == ExpandFrom(s1, root, h, i + 1))
  {
    hide SegmentAt, LoadSegment, FreeAligned, Placeable;
  }

  lemma ReadyRoot(s: Sys, root: nat, tabs: Tables)
    requires Booted(s, root, tabs)
    ensures PagerReady(s, root)
  {
    RootFits(s, root, tabs);
  }

  lemma ExpandedNothing(s: Sys, root: nat, tabs: Tables, m0: Mem, h: Header, i: nat)
    requires Booted(s, root, tabs) && i >= h.phnum && |m0| > 0
    ensures PagerReady(s, root) && Loadable(s, root, h, i)
    ensures ExpandFrom(s, root, h, i) == (s, true) && Expanded(s, tabs, s, tabs, root, m0, h, i)
  {
    RootFits(s, root, tabs);
    hide Booted, Private, SegmentAt, Leaf, FreeAligned;
  }

  lemma SkipPending(s: Sys, tabs: Tables, m0: Mem, h: Header, i: nat)
    requires |m0| > 0 && Pending(s, tabs, m0, h, i)
    ensures Pending(s, tabs, m0, h, i + 1)
    ensures i < h.phnum && SegmentAt(m0, h, i).load ==> Unmapped(s, tabs, SegmentAt(m0, h, i))
  {
    hide SegmentAt, Unmapped;
  }

  lemma DemandUnfolds(have: set<Key>, m0: Mem, h: Header, i: nat)
    requires |m0| > 0 && i < h.phnum
    ensures var g := SegmentAt(m0, h, i);
            Demand(have, m0, h, i) ==
            if g.load then PagesNeeded(g.memsz) + Need(have, SegReqs(0, g)) +
                Demand(Covered(have, SegReqs(0, g)), m0, h, i + 1)
            else Demand(have, m0, h, i + 1)
  {
    hide SegmentAt, Need, Covered, SegReqs, PagesNeeded;
  }

  /** The loop, from any header on. */
  lemma {:induction false} ExpandLaw(s: Sys, root: nat, tabs: Tables, h: Header, m0: Mem, len: nat, i: nat)
    returns (tabs': Tables)
    requires Booted(s, root, tabs) && GoodImage(m0, h, len) && |m0| > 0
    requires FileHeld(s, tabs, m0, h.base, len) && Pending(s, tabs, m0, h, i)
    requires FreePages(s.regions) >= Demand(tabs.Keys, m0, h, i)
    ensures PagerReady(s, root) && Loadable(s, root, h, i)
    ensures var (s', ok) := ExpandFrom(s, root, h, i); ok ==> Expanded(s, tabs, s', tabs', root, m0, h, i)
    decreases h.phnum - i
  {
    hide *;
    ReadyRoot(s, root, tabs);
    if i >= h.phnum {
      tabs' := tabs;
      ExpandedNothing(s, root, tabs, m0, h, i);
    } else {
      ImageAt(s, tabs, m0, h, len, i);
      ExpandUnfolds(s, root, h, i);
      DemandUnfolds(tabs.Keys, m0, h, i);
      SkipPending(s, tabs, m0, h, i);
      var g := SegmentAt(m0, h, i);
      if !g.load {
        tabs' := ExpandLaw(s, root, tabs, h, m0, len, i + 1);
        var (s', ok) := ExpandFrom(s, root, h, i + 1);
        if ok { ExpandedSkip(s, tabs, s', tabs', root, m0, h, i); }
      } else {
        var tabs1 := SegmentLaw(s, root, tabs, h, g, m0, len);
        var (s1, ok) := LoadSegment(s, root, h, g);
        tabs' := tabs1;
        if ok {
          DoneParts(s, tabs, s1, tabs1, root, m0, h.base, g);
          StillPending(s, tabs, s1, tabs1, m0, h, len, i);
          FileKept(s, tabs, s1, tabs1, m0, h.base, len);
          tabs' := ExpandLaw(s1, root, tabs1, h, m0, len, i + 1);
          var (s', ok') := ExpandFrom(s1, root, h, i + 1);
          if ok' { ExpandedNext(s, tabs, s1, tabs1, s', tabs', root, m0, h, len, i); }
        }
      }
    }
  }

  // ----- what the kernel sees -----

  /** `elf_expand`. */
  function Expand(s: Sys, root: nat, h: Header): (r: (Sys, bool))
    requires PagerReady(s, root) && (h.arch == Amd64 ==> Loadable(s, root, h, 0))
    ensures Machine(r.0)
  {
    if h.arch == X86 then (s, true) else ExpandFrom(s, root, h, 0)
  }

  /** Everything the loader is promised for: a good image in memory that belongs
      to nobody else, segments not mapped yet, and enough free pages. */
  ghost predicate ReadyToLoad(s: Sys, root: nat, tabs: Tables, h: Header, len: nat) {
    && Booted(s, root, tabs) && |s.mem| > 0 && GoodImage(s.mem, h, len)
    && (forall a: nat :: h.base <= a < h.base + len ==> Private(s, tabs, a))
    && Pending(s, tabs, s.mem, h, 0)
    && FreePages(s.regions) >= Demand(tabs.Keys, s.mem, h, 0)
  }

  /** Reading virt through the tables at root: permissions of the page, and the byte. */
  ghost predicate ReadsAs(m: Mem, root: nat, virt: nat, write: bool, exec: bool, b: int) {
    match Walk(m, root, 4, PageOf(virt))
    case None => false
    case Some(t) =>
      && t.writable == write && t.noexec == !exec
      && t.frame + virt % 0x1000 < |m| && m[t.frame + virt % 0x1000] == b
  }

  /** Byte k of a segment: from the file while that lasts, then zero. */
  function ImageByte(m0: Mem, base: nat, g: Segment, k: nat): int {
    if k < g.filesz && base + g.offset + k < |m0| then m0[base + g.offset + k] else 0
  }

  lemma OffsetInPage(vaddr: nat, p: nat, k: nat)
    requires vaddr % 0x1000 == 0
    ensures PageOf(vaddr + k) == PageOf(vaddr + k / 0x1000 * 0x1000)
    ensures p + k / 0x1000 * 0x1000 + (vaddr + k) % 0x1000 == p + k
  {
    assert (vaddr + k) / 0x1000 == vaddr / 0x1000 + k / 0x1000;
  }

  lemma PageInside(memsz: nat, k: nat)
    requires memsz <= 0xFFFF_F000 && k < memsz
    ensures k / 0x1000 < PagesNeeded(memsz)
  {
    PagesCover(memsz);
  }

  /** Reading the virtual memory of a loaded segment. */
  lemma ReadLoaded(s: Sys, root: nat, tabs: Tables, m0: Mem, base: nat, g: Segment, len: nat, k: nat)
    requires Booted(s, root, tabs) && Loaded(s, tabs, m0, base, g) && GoodSegment(g, len) && k < g.memsz
    ensures ReadsAs(s.mem, root, g.vaddr + k, SegmentPerm(g.flags).write, SegmentPerm(g.flags).exec,
                    ImageByte(m0, base, g, k))
  {
    hide Walk, Leaf, Booted, Private, Pte, SegmentPerm, PageOf, FrameOf, PagesNeeded;
    var p := FrameOf(Leaf(s.mem, tabs, SegPage(g, 0)));
    var j := k / 0x1000;
    PageInside(g.memsz, k);
    GoodFacts(g, len);
    OffsetInPage(g.vaddr, p, k);
    PagesOn(p, j);
    assert SegPage(g, j) == PageOf(g.vaddr + k);
    FrameFits(p, j, PagesNeeded(g.memsz));
    PteMeans(p + j * 0x1000, SegmentPerm(g.flags));
    TreeOf(s, root, tabs);
    WalkIsLeaf(s.mem, tabs, root, false, PageOf(g.vaddr + k));
    assert Leaf(s.mem, tabs, SegPage(g, j)) == Pte(Wrap64(p + j * 0x1000), SegmentPerm(g.flags));
  }

  lemma FrameFits(p: nat, j: nat, n: nat)
    requires j < n && p + n * 0x1000 <= 0x1_0000_0000
    ensures p + j * 0x1000 < 0x1_0000_0000
  {
  }

  lemma TreeOf(s: Sys, root: nat, tabs: Tables)
    requires Booted(s, root, tabs)
    ensures Tree(s.mem, tabs, root, false)
  {
  }

  /** Loader correctness, end to end: once `elf_expand` returns true, every byte
      of every PT_LOAD segment is where its header says, with the header's
      permissions: the file's byte inside p_filesz, zero behind it. */
  lemma LoaderCorrect(s: Sys, root: nat, tabs: Tables, h: Header, len: nat, i: nat, k: nat)
    requires ReadyToLoad(s, root, tabs, h, len)
    requires i < h.phnum && SegmentAt(s.mem, h, i).load && k < SegmentAt(s.mem, h, i).memsz
    ensures PagerReady(s, root) && Loadable(s, root, h, 0)
    ensures var g := SegmentAt(s.mem, h, i);
            var (s', ok) := Expand(s, root, h);
            ok ==> ReadsAs(s'.mem, root, g.vaddr + k, g.flags / 2 % 2 == 1, g.flags % 2 == 1,
                           ImageByte(s.mem, h.base, g, k))
  {
    hide *;
    LoadParts(s, root, tabs, h, len, i);
    var tabs' := ExpandLaw(s, root, tabs, h, s.mem, len, 0);
    ExpandIs(s, root, h, s.mem, len);
    var (s', ok) := Expand(s, root, h);
    if ok {
      ExpandedAt(s, tabs, s', tabs', root, s.mem, h, i);
      ReadLoaded(s', root, tabs', s.mem, h.base, SegmentAt(s.mem, h, i), len, k);
      PermBits(SegmentAt(s.mem, h, i).flags);
    }
  }

  lemma PermBits(flags: nat)
    ensures SegmentPerm(flags) == Perm(flags / 4 % 2 == 1, flags / 2 % 2 == 1, flags % 2 == 1)
  {
    hide And, Pow2;
    OnePow2();
    AndField(flags, 0, 1);
    AndField(flags, 1, 1);
    AndField(flags, 2, 1);
  }

  lemma OnePow2()
    ensures Pow2(0) == 1 && Pow2(1) == 2 && Pow2(2) == 4
  {
  }

  lemma LoadParts(s: Sys, root: nat, tabs: Tables, h: Header, len: nat, i: nat)
    requires ReadyToLoad(s, root, tabs, h, len)
    ensures Booted(s, root, tabs) && |s.mem| > 0 && GoodImage(s.mem, h, len)
    ensures FileHeld(s, tabs, s.mem, h.base, len) && Pending(s, tabs, s.mem, h, 0)
    ensures FreePages(s.regions) >= Demand(tabs.Keys, s.mem, h, 0)
    ensures i < h.phnum && SegmentAt(s.mem, h, i).load ==> GoodSegment(SegmentAt(s.mem, h, i), len)
  {
    hide Booted, Private, SegmentAt, GoodSegment, FreePages, Demand, Pending;
    assert i < h.phnum ==> GoodAt(s.mem, h, len, i);
  }

  lemma ExpandIs(s: Sys, root: nat, h: Header, m0: Mem, len: nat)
    requires PagerReady(s, root) && Loadable(s, root, h, 0) && GoodImage(m0, h, len)
    ensures Expand(s, root, h) == ExpandFrom(s, root, h, 0)
  {
    hide ExpandFrom, Loadable, SegmentAt, GoodAt, PagesApartAt;
  }

  lemma ExpandedAt(s: Sys, tabs: Tables, s': Sys, tabs': Tables, root: nat, m0: Mem, h: Header, i: nat)
    requires Expanded(s, tabs, s', tabs', root, m0, h, 0) && i < h.phnum && SegmentAt(m0, h, i).load
    ensures Booted(s', root, tabs') && Loaded(s', tabs', m0, h.base, SegmentAt(m0, h, i))
  {
    hide Booted, KeepsPrivate, Loaded, SegmentAt, RestKept;
  }

  /** And nothing else changes: the file keeps its bytes, and pages outside the
      segments keep their translation. */
  lemma LoaderFrames(s: Sys, root: nat, tabs: Tables, h: Header, len: nat, a: nat, u: nat)
    requires ReadyToLoad(s, root, tabs, h, len)
    requires h.base <= a < h.base + len
    requires u < 0x10_0000_0000 && !SomeSegments(s.mem, h, 0, u)
    ensures PagerReady(s, root) && Loadable(s, root, h, 0)
    ensures var (s', ok) := Expand(s, root, h);
            ok ==>
              && a < |s'.mem| == |s.mem| && s'.mem[a] == s.mem[a]
              && Walk(s'.mem, root, 4, u) == Walk(s.mem, root, 4, u)
  {
    hide *;
    LoadParts(s, root, tabs, h, len, 0);
    var tabs' := ExpandLaw(s, root, tabs, h, s.mem, len, 0);
    ExpandIs(s, root, h, s.mem, len);
    var (s', ok) := Expand(s, root, h);
    if ok {
      FramesOf(s, tabs, s', tabs', root, h, len, a, u);
    }
  }

  lemma FramesOf(s: Sys, tabs: Tables, s': Sys, tabs': Tables, root: nat, h: Header, len: nat, a: nat, u: nat)
    requires Booted(s, root, tabs) && Expanded(s, tabs, s', tabs', root, s.mem, h, 0)
    requires FileHeld(s, tabs, s.mem, h.base, len) && h.base <= a < h.base + len
    requires u < 0x10_0000_0000 && !SomeSegments(s.mem, h, 0, u)
    ensures a < |s'.mem| == |s.mem| && s'.mem[a] == s.mem[a] && Walk(s'.mem, root, 4, u) == Walk(s.mem, root, 4, u)
  {
    hide Private, SomeSegments, AllLoaded, Leaf, Walk, Tree;
    assert Private(s, tabs, a);
    WalkIsLeaf(s.mem, tabs, root, false, u);
    WalkIsLeaf(s'.mem, tabs', root, false, u);
  }
}
