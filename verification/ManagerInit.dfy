/** `init_memory_manager` up to its filled map: the window, the search for room,
    the mapping of the manager's pages, and their clearing
    (Kernel/Arch/x86_64/memory-manager.c:72-301). */
module ManagerInit {
  import opened Bits
  import opened Options
  import opened Memory
  import opened PageTables
  import opened RegionOps
  import opened Paging
  import opened ElfLoad
  import opened ElfExpand
  import opened KernelMap
  import opened Handover
  import opened Physmap
  import Regions

  // ----- room for the manager -----

  /** The test of the search for room (lines 178-190), with its 64-bit sum. */
  predicate Suitable(r: Regions.Region, pages: nat) {
    r.kind == Regions.Available && ONE_MIB <= r.start && Wrap64(r.start + pages * 0x1000) <= r.end
  }

  /** A suitable entry has the pages, all of them free. */
  lemma SuitableIsFree(s: seq<Regions.Region>, i: nat, pages: nat, a: int)
    requires Physical(s) && i < |s| && Suitable(s[i], pages) && pages < 0x8_0000_0000_0000
    requires s[i].start <= a < s[i].start + pages * 0x1000
    ensures Regions.TypeAt(s, a) == Some(Regions.Available)
  {
    Regions.TypeAtEntry(s, i, a);
  }

  /** An AVAILABLE entry from 1 MiB on with the pages. */
  predicate HoldsPages(r: Regions.Region, pages: nat) {
    r.kind == Regions.Available && 0x10_0000 <= r.start && r.start + pages * 0x1000 <= r.end
  }

  /** In the 52-bit address space the test is exact. */
  lemma SuitableExactly(r: Regions.Region, pages: nat)
    requires r.start < r.end <= 0x10_0000_0000_0000 && pages < 0x8_0000_0000_0000
    ensures Suitable(r, pages) <==> HoldsPages(r, pages)
  {
  }

  /** The first suitable entry's start, zero if there is none. */
  function Room(s: seq<Regions.Region>, pages: nat): u64 {
    var i := First(s, (r: Regions.Region) => Suitable(r, pages));
    if i < |s| then s[i].start else 0
  }

  /** `addr` is the lowest start of an AVAILABLE entry from 1 MiB on with the
      pages, and zero if there is none. */
  ghost predicate LowestFit(s: seq<Regions.Region>, pages: nat, addr: u64) {
    && (addr != 0 <==> exists i :: 0 <= i < |s| && HoldsPages(s[i], pages))
    && (addr != 0 ==> exists i :: 0 <= i < |s| && HoldsPages(s[i], pages) && s[i].start == addr)
    && (forall i :: 0 <= i < |s| && HoldsPages(s[i], pages) ==> addr <= s[i].start)
  }

  /** On an ordered map the search finds just that. */
  lemma RoomIsLowest(s: seq<Regions.Region>, pages: nat)
    requires Physical(s) && pages < 0x8_0000_0000_0000
    ensures LowestFit(s, pages, Room(s, pages))
  {
    hide Suitable;
    var i := First(s, (r: Regions.Region) => Suitable(r, pages));
    forall j | 0 <= j < |s| ensures Suitable(s[j], pages) <==> HoldsPages(s[j], pages) { SuitableExactly(s[j], pages); }
    if i < |s| {
      forall j | 0 <= j < |s| && HoldsPages(s[j], pages) ensures s[i].start <= s[j].start {
        if i < j { assert s[i].end <= s[j].start; }
      }
    }
  }

  // ----- clearing through the tables -----

  /** `memset(a, 0, n * 0x1000)` a page at a time; None if an access faults. */
  function ClearPages(m: Mem, root: nat, a: nat, n: nat): Option<Mem>
    decreases n
  {
    if n == 0 then Some(m) else
      match Walk(m, root, 4, PageOf(a))
      case None => None
      case Some(t) =>
        if t.writable && t.frame + 0x1000 <= |m| then ClearPages(Zeroed(m, t.frame, 0x1000), root, a + 0x1000, n - 1)
        else None
  }

  /** The i-th page from a on is writable memory at the i-th frame from phys on. */
  predicate PageTo(m: Mem, root: nat, a: nat, phys: nat, i: nat) {
    Ordinary(PageOf(a + 0x1000 * i), true) &&
    match Walk(m, root, 4, PageOf(a + 0x1000 * i))
    case None => false
    case Some(t) => t.writable && t.frame == phys + 0x1000 * i
  }

  ghost predicate PagesTo(m: Mem, root: nat, a: nat, phys: nat, n: nat) {
    forall i: nat :: i < n ==> PageTo(m, root, a, phys, i)
  }

  /** Memory clear of the tables may change without changing a walk outside the window. */
  lemma WalksElsewhere(m: Mem, m': Mem, tabs: Tables, root: nat, p: nat, n: nat, u: nat)
    requires Tree(m, tabs, root, true) && DiffersIn(m, m', p, n) && ClearOfTables(tabs, p, n) && Ordinary(u, true)
    ensures Tree(m', tabs, root, true) && Walk(m', root, 4, u) == Walk(m, root, 4, u)
  {
    hide Walk, Leaf, Ordinary;
    TreeElsewhere(m, m', tabs, root, true, p, n);
    WalkIsLeaf(m, tabs, root, true, u);
    WalkIsLeaf(m', tabs, root, true, u);
  }

  /** Clearing such pages clears the frames. */
  lemma {:induction false} ClearsFrames(m: Mem, tabs: Tables, root: nat, a: nat, phys: nat, n: nat)
    requires Tree(m, tabs, root, true) && phys + n * 0x1000 <= |m| && ClearOfTables(tabs, phys, n * 0x1000)
    requires PagesTo(m, root, a, phys, n)
    ensures ClearPages(m, root, a, n) == Some(Zeroed(m, phys, n * 0x1000))
    decreases n
  {
    hide Tree, Walk, ClearOfTables, Zeroed, PageOf, Ordinary;
    if n == 0 {
      NothingCleared(m, phys);
    } else {
      assert PageTo(m, root, a, phys, 0);
      var m1 := Zeroed(m, phys, 0x1000);
      PartsClear(tabs, phys, n);
      OnlyThere(m, phys);
      var a1, phys1 := a + 0x1000, phys + 0x1000;
      forall i: nat | i < n - 1 ensures PageTo(m1, root, a1, phys1, i) {
        assert PageTo(m, root, a, phys, i + 1);
        assert a + 0x1000 * (i + 1) == a1 + 0x1000 * i;
        WalksElsewhere(m, m1, tabs, root, phys, 0x1000, PageOf(a1 + 0x1000 * i));
      }
      WalksElsewhere(m, m1, tabs, root, phys, 0x1000, PageOf(a + 0x1000 * 0));
      ClearsFrames(m1, tabs, root, a1, phys1, n - 1);
      ClearedOn(m, phys, n);
    }
  }

  lemma NothingCleared(m: Mem, phys: nat)
    requires phys <= |m|
    ensures Zeroed(m, phys, 0) == m
  {
  }

  lemma PartsClear(tabs: Tables, phys: nat, n: nat)
    requires ClearOfTables(tabs, phys, n * 0x1000) && n > 0
    ensures ClearOfTables(tabs, phys, 0x1000) && ClearOfTables(tabs, phys + 0x1000, (n - 1) * 0x1000)
  {
    assert phys + 0x1000 + (n - 1) * 0x1000 == phys + n * 0x1000;
  }

  lemma OnlyThere(m: Mem, phys: nat)
    requires phys + 0x1000 <= |m|
    ensures DiffersIn(m, Zeroed(m, phys, 0x1000), phys, 0x1000)
  {
  }

  lemma ClearedOn(m: Mem, phys: nat, n: nat)
    requires n > 0 && phys + n * 0x1000 <= |m|
    ensures Zeroed(Zeroed(m, phys, 0x1000), phys + 0x1000, (n - 1) * 0x1000) == Zeroed(m, phys, n * 0x1000)
  {
  }

  // ----- the start -----

  /** No room; an access that faulted; or the pages' address, which is NULL when
      the mapping was refused: the code does not test it. */
  datatype Setup = NoRoom | Stopped | Started(ptr: u64)

  /** Up to and with the clearing of the manager's pages. */
  function InitManager(k: Kern, root: u64, s: seq<Regions.Region>): (Kern, Setup)
    requires root + 0x1000 <= |k.mem|
  {
    var (pages, k0) := (ManagerPages(s), Kern(Installed(k.mem, root), k.end));
    var addr := Room(s, pages);
    if addr == 0 then (k0, NoRoom) else
      var (k1, o) := MapEnd(k0, root, addr, pages, Perm(true, true, false));
      var ptr := if o == Mapped then k.end else 0;
      if o == Fault then (k1, Stopped) else
        match ClearPages(k1.mem, root, ptr, pages)
        case None => (k1, Stopped)
        case Some(m) => (Kern(m, k1.end), Started(ptr))
  }

  /** Every table lies in memory the map has as ALLOCATED. */
  ghost predicate TablesTaken(s: seq<Regions.Region>, tabs: Tables) {
    forall k :: k in tabs ==> Owned(s, tabs[k], 0x1000, Regions.Allocated)
  }

  /** As Kickstart leaves them. */
  lemma BootedTaken(s: Sys, root: nat, tabs: Tables)
    requires Booted(s, root, tabs)
    ensures TablesTaken(s.regions, tabs)
  {
    forall k | k in tabs ensures Owned(s.regions, tabs[k], 0x1000, Regions.Allocated) {
      assert OwnedTable(s, tabs, k);
    }
  }

  /** What the kernel starts from: the loader's tree with slot 510 empty, a
      page-aligned map that has the tables as taken, and behind the kernel room
      for the pages the manager asks for. */
  ghost predicate KernelBase(k: Kern, tabs: Tables, root: u64, s: seq<Regions.Region>) {
    && Tree(k.mem, tabs, root, false) && !HasTop(tabs, 510)
    && Physical(s) && PageAligned(s) && TablesTaken(s, tabs) && ManagerPages(s) < 0x8_0000_0000_0000
    && k.end % 0x1000 == 0 && k.end + 0x1000 * ManagerPages(s) < 0x1_0000_0000_0000_0000
    && AllOrdinary(PageOf(k.end), ManagerPages(s))
  }

  /** ... and all of those pages can be mapped. */
  ghost predicate KernelStart(k: Kern, tabs: Tables, root: u64, s: seq<Regions.Region>) {
    && KernelBase(k, tabs, root, s)
    && forall u: nat :: PageOf(k.end) <= u < PageOf(k.end) + ManagerPages(s) ==> Free(k.mem, tabs, u)
  }

  lemma RoomFacts(s: seq<Regions.Region>, pages: nat)
    requires Physical(s) && PageAligned(s) && pages < 0x8_0000_0000_0000 && Room(s, pages) != 0
    ensures var addr := Room(s, pages);
            && addr % 0x1000 == 0 && 0x10_0000 <= addr && addr + pages * 0x1000 <= 0x10_0000_0000_0000
            && forall a :: addr <= a < addr + pages * 0x1000 ==> Regions.TypeAt(s, a) == Some(Regions.Available)
  {
    var i := First(s, (r: Regions.Region) => Suitable(r, pages));
    SuitableExactly(s[i], pages);
    forall a | s[i].start <= a < s[i].start + pages * 0x1000
      ensures Regions.TypeAt(s, a) == Some(Regions.Available)
    {
      Regions.TypeAtEntry(s, i, a);
    }
  }

  lemma FreeClear(s: seq<Regions.Region>, tabs: Tables, p: nat, n: nat)
    requires TablesTaken(s, tabs)
    requires forall a :: p <= a < p + n ==> Regions.TypeAt(s, a) == Some(Regions.Available)
    ensures n > 0 ==> ClearOfTables(tabs, p, n)
  {
    if n > 0 {
      forall k | k in tabs ensures tabs[k] + 0x1000 <= p || p + n <= tabs[k] {
        var a := if p < tabs[k] then tabs[k] else p;
        assert Owned(s, tabs[k], 0x1000, Regions.Allocated);
        assert tabs[k] <= a < tabs[k] + 0x1000 ==> Regions.TypeAt(s, a) == Some(Regions.Allocated);
      }
    }
  }

  lemma PageAt(a: nat, i: nat)
    requires a % 0x1000 == 0 && PageOf(a) + i < 0x10_0000_0000
    ensures PageOf(a + 0x1000 * i) == PageOf(a) + i
  {
    var q := a / 0x1000;
    DivUnique(a + 0x1000 * i, 0x1000, q + i, 0);
    DivUnique(q + i, 0x10_0000_0000, q / 0x10_0000_0000, q % 0x10_0000_0000 + i);
  }

  lemma MappedPagesTo(m: Mem, root: nat, a: nat, phys: nat, n: nat)
    requires a % 0x1000 == 0 && AllOrdinary(PageOf(a), n)
    requires forall i: nat :: i < n ==> Walk(m, root, 4, PageOf(a) + i) == Some(Trans(phys + 0x1000 * i, true, true))
    ensures PagesTo(m, root, a, phys, n)
  {
    hide Walk, PageOf;
    forall i: nat | i < n ensures PageTo(m, root, a, phys, i) {
      assert Ordinary(PageOf(a) + i, true);
      PageAt(a, i);
    }
  }

  /** A mapped page that ends where `memset` leaves it. */
  ghost predicate StandsAt(m: Mem, root: nat, s: seq<Regions.Region>, addr: nat, ptr: nat, a: nat) {
    ptr <= a &&
    match Walk(m, root, 4, PageOf(a))
    case None => false
    case Some(t) =>
      var p := addr + (a - ptr);
      && t.writable && t.noexec && t.frame + a % 0x1000 == p
      && p < |m| && m[p] == 0 && Regions.TypeAt(s, p) == Some(Regions.Available)
  }

  lemma InstalledFree(k: Kern, tabs: Tables, root: u64, s: seq<Regions.Region>)
    requires KernelBase(k, tabs, root, s)
    ensures root + 0x1000 <= |k.mem|
    ensures var m := Installed(k.mem, root);
            && |m| == |k.mem| && Tree(m, tabs, root, true)
            && (KernelStart(k, tabs, root, s) ==>
                  forall u: nat :: PageOf(k.end) <= u < PageOf(k.end) + ManagerPages(s) ==> Free(m, tabs, u))
            && (forall u: nat :: Ordinary(u, true) ==> Walk(m, root, 4, u) == Walk(k.mem, root, 4, u))
  {
    hide Leaf, Installed, Walk, PageOf, ManagerPages, HasTop, Ordinary;
    InstalledIs(k.mem, tabs, root);
    var m := Installed(k.mem, root);
    forall u: nat | KernelStart(k, tabs, root, s) && PageOf(k.end) <= u < PageOf(k.end) + ManagerPages(s)
      ensures Free(m, tabs, u)
    {
      assert Free(k.mem, tabs, u);
      assert Leaf(m, tabs, u) == Leaf(k.mem, tabs, u);
    }
    forall u: nat | Ordinary(u, true) ensures Walk(m, root, 4, u) == Walk(k.mem, root, 4, u) {
      OrdinaryEither(u);
      WalkIsLeaf(k.mem, tabs, root, false, u);
      WalkIsLeaf(m, tabs, root, true, u);
    }
  }

  lemma InitUnfolds(k: Kern, root: u64, s: seq<Regions.Region>)
    requires root + 0x1000 <= |k.mem|
    ensures var (pages, k0) := (ManagerPages(s), Kern(Installed(k.mem, root), k.end));
            var (k1, o) := MapEnd(k0, root, Room(s, pages), pages, Perm(true, true, false));
            InitManager(k, root, s) ==
            if Room(s, pages) == 0 then (k0, NoRoom)
            else if o == Fault then (k1, Stopped)
            else
              match ClearPages(k1.mem, root, if o == Mapped then k.end else 0, pages)
              case None => (k1, Stopped)
              case Some(m) => (Kern(m, k1.end), Started(if o == Mapped then k.end else 0))
  {
    hide Installed, Room, MapEnd, ClearPages, ManagerPages;
  }

  lemma RangeFits(k: Kern, m: Mem, tabs: Tables, root: u64, s: seq<Regions.Region>, addr: u64)
    requires KernelBase(k, tabs, root, s) && addr % 0x1000 == 0
    requires addr + ManagerPages(s) * 0x1000 <= 0x10_0000_0000_0000
    ensures KernelMap.Fits(Kern(m, k.end), addr, ManagerPages(s))
  {
    hide Tree, HasTop, Physical, PageAligned, TablesTaken, Free, AllOrdinary, PageOf, ManagerPages;
  }

  lemma StartIsBase(k: Kern, tabs: Tables, root: u64, s: seq<Regions.Region>)
    requires KernelStart(k, tabs, root, s)
    ensures KernelBase(k, tabs, root, s)
  {
  }

  lemma StartParts(k: Kern, tabs: Tables, root: u64, s: seq<Regions.Region>)
    requires KernelBase(k, tabs, root, s)
    ensures Physical(s) && PageAligned(s) && TablesTaken(s, tabs) && 0 < ManagerPages(s) < 0x8_0000_0000_0000
    ensures k.end % 0x1000 == 0 && AllOrdinary(PageOf(k.end), ManagerPages(s))
  {
    hide Tree, HasTop, Physical, PageAligned, TablesTaken, Free, AllOrdinary, PageOf, ByteCount, RunCount;
  }

  /** The kernel's memory manager starts exactly when an AVAILABLE entry from 1 MiB
      on has its pages. Then each byte of the pages behind the kernel is a zeroed,
      writable byte of the lowest such entry, still AVAILABLE in the map; no other
      walk outside the window has changed. */
  lemma ManagerStands(k: Kern, tabs: Tables, root: u64, s: seq<Regions.Region>)
    requires KernelStart(k, tabs, root, s)
    requires Room(s, ManagerPages(s)) + ManagerPages(s) * 0x1000 <= |k.mem|
    ensures root + 0x1000 <= |k.mem|
    ensures var (k', r) := InitManager(k, root, s);
            var (pages, addr) := (ManagerPages(s), Room(s, ManagerPages(s)));
            && LowestFit(s, pages, addr)
            && r == (if addr == 0 then NoRoom else Started(k.end))
            && k'.end == (if addr == 0 then k.end else k.end + 0x1000 * pages)
            && (addr != 0 ==>
                  forall a: nat :: k.end <= a < k.end + 0x1000 * pages ==>
                    StandsAt(k'.mem, root, s, addr, k.end, a))
            && (forall u: nat :: Ordinary(u, true) && !(PageOf(k.end) <= u < PageOf(k.end) + pages) ==>
                  Walk(k'.mem, root, 4, u) == Walk(k.mem, root, 4, u))
  {
    hide *;
    var pages, addr := ManagerPages(s), Room(s, ManagerPages(s));
    StartIsBase(k, tabs, root, s);
    StartParts(k, tabs, root, s);
    InstalledFree(k, tabs, root, s);
    RoomIsLowest(s, pages);
    InitUnfolds(k, root, s);
    if addr != 0 {
      RoomFacts(s, pages);
      var k0 := Kern(Installed(k.mem, root), k.end);
      RangeFits(k, k0.mem, tabs, root, s, addr);
      MapEndMaps(k0, tabs, root, addr, pages, Perm(true, true, false));
      MapEndLaw(k0, tabs, root, addr, pages, Perm(true, true, false));
      var k1 := MapEnd(k0, root, addr, pages, Perm(true, true, false)).0;
      SameSize(k0.mem, k1.mem, tabs, PageOf(k.end), FreeRun(k0.mem, tabs, PageOf(k.end), pages), addr,
               Perm(true, true, false));
      FreeClear(s, tabs, addr, pages * 0x1000);
      MappedPagesTo(k1.mem, root, k.end, addr, pages);
      ClearsFrames(k1.mem, tabs, root, k.end, addr, pages);
      MappedIsNoFault();
      var m := Zeroed(k1.mem, addr, pages * 0x1000);
      ZeroedThere(k1.mem, addr, pages * 0x1000);
      forall a: nat | k.end <= a < k.end + 0x1000 * pages ensures StandsAt(m, root, s, addr, k.end, a) {
        ByteStands(k1.mem, tabs, root, s, addr, k.end, pages, a);
      }
      forall u: nat | Ordinary(u, true) && !(PageOf(k.end) <= u < PageOf(k.end) + pages)
        ensures Walk(m, root, 4, u) == Walk(k.mem, root, 4, u)
      {
        WalksElsewhere(k1.mem, m, tabs, root, addr, pages * 0x1000, u);
        OrdinaryEither(u);
      }
    }
  }

  lemma MappedIsNoFault()
    ensures KernelMap.Mapped != Fault
  {
  }

  lemma SameSize(m: Mem, m': Mem, tabs: Tables, v: nat, j: nat, phys: nat, perm: Perm)
    requires Written(m, m', tabs, v, j, phys, perm)
    ensures |m'| == |m|
  {
    hide Leaf, NoTable;
  }

  lemma ZeroedThere(m: Mem, p: nat, n: nat)
    requires p + n <= |m|
    ensures DiffersIn(m, Zeroed(m, p, n), p, n) && |Zeroed(m, p, n)| == |m|
    ensures forall a :: p <= a < p + n ==> Zeroed(m, p, n)[a] == 0
  {
  }

  lemma ByteStands(m: Mem, tabs: Tables, root: nat, s: seq<Regions.Region>, addr: nat, ptr: nat, n: nat, a: nat)
    requires Tree(m, tabs, root, true) && addr + n * 0x1000 <= |m| && ClearOfTables(tabs, addr, n * 0x1000)
    requires ptr % 0x1000 == 0 && ptr <= a < ptr + 0x1000 * n && AllOrdinary(PageOf(ptr), n)
    requires forall i: nat :: i < n ==> Walk(m, root, 4, PageOf(ptr) + i) == Some(Trans(addr + 0x1000 * i, true, true))
    requires forall x :: addr <= x < addr + n * 0x1000 ==> Regions.TypeAt(s, x) == Some(Regions.Available)
    ensures StandsAt(Zeroed(m, addr, n * 0x1000), root, s, addr, ptr, a)
  {
    hide Walk, Tree, PageOf, ClearOfTables, Regions.TypeAt, Zeroed;
    var i, m' := (a - ptr) / 0x1000, Zeroed(m, addr, n * 0x1000);
    assert i < n;
    assert Ordinary(PageOf(ptr) + i, true);
    PageAt(ptr, i);
    OffsetInPage(ptr, addr, a - ptr);
    ZeroedThere(m, addr, n * 0x1000);
    WalksElsewhere(m, m', tabs, root, addr, n * 0x1000, PageOf(a));
  }

  /** Where the populating loop then puts things: all 32 bytes of each record, and
      every byte of each bitmap, are bytes of that kind. */
  lemma ManagerHolds(k: Kern, tabs: Tables, root: u64, s: seq<Regions.Region>, j: nat, x: nat)
    requires KernelStart(k, tabs, root, s) && Room(s, ManagerPages(s)) != 0
    requires Room(s, ManagerPages(s)) + ManagerPages(s) * 0x1000 <= |k.mem| && j < |Records(s, 0, k.end)|
    ensures root + 0x1000 <= |k.mem|
    ensures var m := InitManager(k, root, s).0.mem;
            var (addr, r) := (Room(s, ManagerPages(s)), Records(s, 0, k.end)[j]);
            && (x < 32 ==> StandsAt(m, root, s, addr, k.end, k.end + BitmapPages(s) * 0x1000 + 32 * j + x))
            && (r.bitmap.Some? && x < BytesFor(r.len) ==>
                  StandsAt(m, root, s, addr, k.end, r.bitmap.value + x))
  {
    hide *;
    StartIsBase(k, tabs, root, s);
    StartParts(k, tabs, root, s);
    ManagerStands(k, tabs, root, s);
    LayoutFits(s, k.end, j, j);
    PagesAre(s);
  }

  lemma PagesAre(s: seq<Regions.Region>)
    ensures ManagerPages(s) == BitmapPages(s) + RecordPages(s)
  {
  }

  /** The result of the mapping is not tested. Where a page behind the kernel is
      taken and the low pages are mapped to themselves, as the pager leaves them,
      the manager clears the lowest pages of memory and goes on to keep its
      bitmaps and records there. */
  lemma RefusedClearsLow(k: Kern, tabs: Tables, root: u64, s: seq<Regions.Region>)
    requires KernelBase(k, tabs, root, s) && Room(s, ManagerPages(s)) != 0 && root + 0x1000 <= |k.mem|
    requires var addr := Room(s, ManagerPages(s));
             var k0 := Kern(Installed(k.mem, root), k.end);
             MapEnd(k0, root, addr, ManagerPages(s), Perm(true, true, false)).1 == Refused
    requires ManagerPages(s) <= 512 <= PageOf(k.end) && ManagerPages(s) * 0x1000 <= |k.mem|
    requires forall u: nat :: u < 512 ==> Walk(k.mem, root, 4, u) == Some(Trans(u * 0x1000, true, false))
    requires ClearOfTables(tabs, 0, ManagerPages(s) * 0x1000)
    ensures var (k', r) := InitManager(k, root, s);
            r == Started(0) && |k'.mem| == |k.mem|
            && forall a :: 0 <= a < ManagerPages(s) * 0x1000 ==> k'.mem[a] == 0
  {
    hide *;
    var pages, addr := ManagerPages(s), Room(s, ManagerPages(s));
    StartParts(k, tabs, root, s);
    InstalledFree(k, tabs, root, s);
    InitUnfolds(k, root, s);
    RoomFacts(s, pages);
    var k0, perm := Kern(Installed(k.mem, root), k.end), Perm(true, true, false);
    RangeFits(k, k0.mem, tabs, root, s, addr);
    MapEndLaw(k0, tabs, root, addr, pages, perm);
    var k1 := MapEnd(k0, root, addr, pages, perm).0;
    var v := PageOf(k.end);
    var j := FreeRun(k0.mem, tabs, v, pages);
    SameSize(k0.mem, k1.mem, tabs, v, j, addr, perm);
    LowPagesTo(k.mem, k0.mem, k1.mem, root, v, j, addr, perm, pages);
    ClearsFrames(k1.mem, tabs, root, 0, 0, pages);
    RefusedIsNoFault();
    ZeroedThere(k1.mem, 0, pages * 0x1000);
  }

  lemma RefusedIsNoFault()
    ensures Refused != Fault && Refused != KernelMap.Mapped
  {
  }

  lemma LowPagesTo(m: Mem, m0: Mem, m1: Mem, root: nat, v: nat, j: nat, phys: nat, perm: Perm, n: nat)
    requires forall u: nat :: u < 512 ==> Walk(m, root, 4, u) == Some(Trans(u * 0x1000, true, false))
    requires forall u: nat :: Ordinary(u, true) ==> Walk(m0, root, 4, u) == Walk(m, root, 4, u)
    requires Extended(m0, m1, root, v, j, phys, perm) && n <= 512 <= v
    ensures PagesTo(m1, root, 0, 0, n)
  {
    hide Walk, PageOf;
    forall i: nat | i < n ensures PageTo(m1, root, 0, 0, i) {
      LowIsOrdinary(i);
      assert Walk(m1, root, 4, i) == Walk(m0, root, 4, i);
    }
  }

  lemma LowIsOrdinary(i: nat)
    requires i < 512
    ensures Ordinary(i, true) && PageOf(0 + 0x1000 * i) == i
  {
  }
}
