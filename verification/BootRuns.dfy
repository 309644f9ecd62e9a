/** Pager and loader as callers of the allocator: the calls a boot makes, named
    one by one with the memory each caller goes on to use, are one run of legal
    calls, and that memory is just what the tables and segments end up in
    (Kickstart/Multiboot/main.c:148-180). */
module BootRuns {
  import opened Bits
  import opened Options
  import opened Memory
  import opened PageTables
  import opened Regions
  import opened RegionOps
  import opened RegionLaws
  import opened PageBudget
  import opened Paging
  import opened PagingLaws
  import opened MapRuns
  import opened PagerInit
  import opened Elf
  import opened ElfLoad
  import opened ElfExpand
  import opened Runs
  import opened Boot
  import opened Kickstart
  import Headroom
  import LoaderSlots
  import Pager
  import RegionEdges

  /** A call to the allocator, and the memory its caller uses from then on. */
  datatype Call = Call(op: Op, use: Range)

  /** A call that gives no memory back, adds no free memory above 4 GiB and asks
      for less than 4 GiB. */
  predicate Plain(op: Op) { LowOp(op) && Modest(op) }

  /** Legal calls of that kind, each of which returns the memory that is used. */
  predicate Served(s: seq<Region>, calls: seq<Call>)
    decreases |calls|
  {
    calls == [] ||
    (Answered(s, calls[0]) && Served(Step(s, calls[0].op), calls[1..]))
  }

  predicate Answered(s: seq<Region>, c: Call) {
    Legal(s, c.op) && Plain(c.op) && !c.op.DoAdd? && Returned(s, c.op) == Some(c.use)
  }

  function AfterCalls(s: seq<Region>, calls: seq<Call>): seq<Region>
    decreases |calls|
  {
    if calls == [] then s else AfterCalls(Step(s, calls[0].op), calls[1..])
  }

  /** The calls lead from s to t, all of them served. */
  predicate LeadsTo(s: seq<Region>, calls: seq<Call>, t: seq<Region>) {
    Served(s, calls) && AfterCalls(s, calls) == t
  }

  lemma {:induction false} Joined(s: seq<Region>, a: seq<Call>, b: seq<Call>)
    requires Served(s, a) && Served(AfterCalls(s, a), b)
    ensures Served(s, a + b) && AfterCalls(s, a + b) == AfterCalls(AfterCalls(s, a), b)
    decreases |a|
  {
    hide Step, Answered;
    if a == [] {
      assert a + b == b;
    } else {
      Joined(Step(s, a[0].op), a[1..], b);
      assert (a + b)[1..] == a[1..] + b && (a + b)[0] == a[0];
    }
  }

  lemma LeadsOn(s: seq<Region>, a: seq<Call>, t: seq<Region>, b: seq<Call>, u: seq<Region>)
    requires LeadsTo(s, a, t) && LeadsTo(t, b, u)
    ensures LeadsTo(s, a + b, u)
  {
    hide Served, AfterCalls;
    Joined(s, a, b);
  }

  lemma NoCalls(s: seq<Region>)
    ensures LeadsTo(s, [], s)
  {
  }

  lemma OneCall(s: seq<Region>, c: Call)
    requires Answered(s, c)
    ensures LeadsTo(s, [c], Step(s, c.op))
  {
    hide Step, Answered;
    assert [c][1..] == [];
    NoCalls(Step(s, c.op));
  }

  function Ops(calls: seq<Call>): seq<Op> {
    seq(|calls|, i requires 0 <= i < |calls| => calls[i].op)
  }

  /** Such a run in the terms of module Runs. */
  lemma {:induction false} AsRun(s: seq<Region>, calls: seq<Call>) returns (states: seq<seq<Region>>)
    requires Sound(s) && Served(s, calls)
    ensures Run(states, Ops(calls)) && |states| == |calls| + 1
    ensures states[0] == s && states[|calls|] == AfterCalls(s, calls)
    ensures forall i :: 0 <= i < |calls| ==> Answered(states[i], calls[i])
    decreases |calls|
  {
    hide Step, Legal, Plain, Sound, Returned;
    if calls == [] {
      states := [s];
    } else {
      StepKeeps(s, calls[0].op);
      var rest := AsRun(Step(s, calls[0].op), calls[1..]);
      states := [s] + rest;
      forall i | 0 <= i < |calls|
        ensures Answered(states[i], calls[i]) && states[i + 1] == Step(states[i], calls[i].op)
      {
        if i > 0 {
          assert calls[i] == calls[1..][i - 1] && states[i] == rest[i - 1] && states[i + 1] == rest[i];
          assert Ops(calls[1..])[i - 1] == calls[i].op;
        }
      }
    }
  }

  predicate UsesApart(calls: seq<Call>) {
    forall i, j :: 0 <= i < j < |calls| ==> Apart(calls[i].use, calls[j].use)
  }

  /** No two callers of such a run use the same memory. */
  lemma UsesDisjoint(s: seq<Region>, calls: seq<Call>)
    requires Sound(s) && LowFree(s) && Served(s, calls)
    ensures UsesApart(calls)
  {
    hide Sound, LowFree, Served, Run, Legal, Step, Returned, Apart;
    var states := AsRun(s, calls);
    forall i: nat, j: nat | i < j < |calls| ensures Apart(calls[i].use, calls[j].use) {
      assert Answered(states[i], calls[i]) && Answered(states[j], calls[j]);
      LowRunDisjoint(states, Ops(calls), i, j);
    }
  }

  predicate InUse(calls: seq<Call>, a: int) {
    exists i :: 0 <= i < |calls| && calls[i].use.lo <= a < calls[i].use.hi
  }

  lemma InUseHead(calls: seq<Call>, a: int)
    requires calls != []
    ensures InUse(calls, a) <==> calls[0].use.lo <= a < calls[0].use.hi || InUse(calls[1..], a)
  {
    if InUse(calls[1..], a) {
      var i :| 0 <= i < |calls[1..]| && calls[1..][i].use.lo <= a < calls[1..][i].use.hi;
      assert calls[i + 1] == calls[1..][i];
    }
    if InUse(calls, a) {
      var i :| 0 <= i < |calls| && calls[i].use.lo <= a < calls[i].use.hi;
      if i > 0 { assert calls[1..][i - 1] == calls[i]; }
    }
  }

  /** Conservation: what is free after such a run is what was free before it, less
      what the callers use. */
  lemma {:induction false} FreeAfter(s: seq<Region>, calls: seq<Call>, a: int)
    requires Sound(s) && LowFree(s) && Served(s, calls)
    ensures TypeAt(AfterCalls(s, calls), a) == Some(Available) <==>
            TypeAt(s, a) == Some(Available) && !InUse(calls, a)
    decreases |calls|
  {
    hide Sound, LowFree, Step, Answered, TypeAt, InUse;
    if calls == [] {
      NothingInUse(a);
    } else {
      InUseHead(calls, a);
      CallTakes(s, calls[0], a);
      FreeAfter(Step(s, calls[0].op), calls[1..], a);
    }
  }

  /** What is free in t is what is free in s and in no caller's use. */
  ghost predicate FreeLess(s: seq<Region>, t: seq<Region>, calls: seq<Call>) {
    forall a :: TypeAt(t, a) == Some(Available) <==> TypeAt(s, a) == Some(Available) && !InUse(calls, a)
  }

  lemma FreeAfterAll(s: seq<Region>, calls: seq<Call>)
    requires Sound(s) && LowFree(s) && Served(s, calls)
    ensures FreeLess(s, AfterCalls(s, calls), calls)
  {
    hide Sound, LowFree, Served, AfterCalls, TypeAt, InUse;
    forall a ensures TypeAt(AfterCalls(s, calls), a) == Some(Available) <==>
                     TypeAt(s, a) == Some(Available) && !InUse(calls, a) {
      FreeAfter(s, calls, a);
    }
  }

  lemma NothingInUse(a: int)
    ensures !InUse([], a)
  {
  }

  lemma CallTakes(s: seq<Region>, c: Call, a: int)
    requires Sound(s) && LowFree(s) && Answered(s, c)
    ensures Sound(Step(s, c.op)) && LowFree(Step(s, c.op))
    ensures TypeAt(Step(s, c.op), a) == Some(Available) <==>
            TypeAt(s, a) == Some(Available) && !(c.use.lo <= a < c.use.hi)
  {
    hide Sound, LowFree, Low, TypeAt, And, Reserve, Allocate, Legal;
    StepKeeps(s, c.op);
    StepKeepsLow(s, c.op);
    SoundIsValid(s);
    LowByTypes(s);
    LowIsTruthful(s, c.op);
    match c.op
    case DoReserve(from, to) => ReserveTakes(s, from, to, a);
    case DoAllocate(n, k) => AllocateTakes(s, n, k, a);
  }

  lemma ReserveTakes(s: seq<Region>, from: u32, to: u32, a: int)
    requires Sound(s) && Legal(s, DoReserve(from, to)) && Returned(s, DoReserve(from, to)).Some?
    ensures var g := Returned(s, DoReserve(from, to)).value;
            TypeAt(Reserve(s, from, to), a) == if g.lo <= a < g.hi then Some(Allocated) else TypeAt(s, a)
  {
    hide TypeAt, And, Reserve, Sound;
    RegionEdges.ReserveAlways(s, from, to);
  }

  lemma AllocateTakes(s: seq<Region>, n: u32, k: Kind, a: int)
    requires Sound(s) && Legal(s, DoAllocate(n, k)) && Returned(s, DoAllocate(n, k)).Some?
    requires Truthful(s, DoAllocate(n, k))
    ensures var g := Returned(s, DoAllocate(n, k)).value;
            TypeAt(Allocate(s, n, k).0, a) == if g.lo <= a < g.hi then Some(k) else TypeAt(s, a)
  {
    hide TypeAt, Allocate, Sound;
    AskedFor(s, n, k);
    ReturnedExactly(s, DoAllocate(n, k));
    RegionEdges.AllocateAlways(s, n, k);
    ZeroLength(n);
  }

  lemma AskedFor(s: seq<Region>, n: u32, k: Kind)
    requires Returned(s, DoAllocate(n, k)).Some?
    ensures n > 0
  {
  }

  // ----- the calls, by caller -----

  function Pages(p: nat, n: nat): Range { Range(p, p + n * 0x1000) }

  function TableCall(p: nat): Call { Call(DoAllocate(1, Allocated), Pages(p, 1)) }

  function SegmentCall(p: nat, n: u32): Call { Call(DoAllocate(n, Kernel), Pages(p, n)) }

  /** One table step calls the allocator where the slot is empty. */
  function TableCalls(s: Sys, slot: nat): seq<Call>
    requires Machine(s) && slot + 8 <= |s.mem|
  {
    if Word(s.mem, slot) != 0 then [] else [TableCall(EnsureTable(s, slot).1)]
  }

  function DownCalls(s: Sys, root: nat, i4: nat, i3: nat, i2: nat): seq<Call>
    requires Machine(s) && root % 0x1000 == 0 && root + 0x1000 <= |s.mem| && i4 < 512 && i3 < 512 && i2 < 512
  {
    var (s1, pdp) := EnsureTable(s, root + 8 * i4);
    var (s2, pd) := EnsureTable(s1, pdp + 8 * i3);
    TableCalls(s, root + 8 * i4) + TableCalls(s1, pdp + 8 * i3) + TableCalls(s2, pd + 8 * i2)
  }

  function MapPageCalls(s: Sys, root: nat, virt: u64): seq<Call>
    requires PagerReady(s, root)
  {
    DownCalls(s, root, ShiftIndex(virt, 39), ShiftIndex(virt, 30), ShiftIndex(virt, 21))
  }

  function MapAllCalls(s: Sys, root: nat, reqs: seq<Req>): seq<Call>
    requires PagerReady(s, root)
    decreases |reqs|
  {
    if reqs == [] then [] else
      var r := reqs[0];
      MapPageCalls(s, root, r.virt) + MapAllCalls(MapPage(s, root, r.phys, r.virt, r.perm), root, reqs[1..])
  }

  /** The pager's start: the four tables, then what the identity map needs. */
  function PagerCalls(s: Sys): seq<Call>
    requires PagerFits(s)
  {
    var (regions, p) := AllocateFirst(s);
    if p == 0 then [] else
      [Call(DoAllocate(4, Allocated), Pages(p, 4))] +
      MapAllCalls(Sys(FirstTables(s.mem, p), regions), p, IdentityReqs(0))
  }

  /** A segment: its frames, then the tables for its pages. */
  function SegmentCalls(s: Sys, root: nat, g: Segment): seq<Call>
    requires PagerReady(s, root) && Placeable(s, g)
  {
    var n := PagesNeeded(g.memsz);
    var (regions, p) := AllocateSegment(s, n);
    if p == 0 then [] else
      [SegmentCall(p, n)] + MapAllCalls(Sys(Zeroed(s.mem, p, n * 0x1000), regions), root, SegReqs(p, g))
  }

  function ExpandCalls(s: Sys, root: nat, h: Header, i: nat): seq<Call>
    requires PagerReady(s, root) && Loadable(s, root, h, i)
    decreases h.phnum - i
  {
    if i >= h.phnum then [] else
      var g := SegmentAt(s.mem, h, i);
      if !g.load then ExpandCalls(s, root, h, i + 1) else
        var (s1, ok) := LoadSegment(s, root, h, g);
        SegmentCalls(s, root, g) + if ok then ExpandCalls(s1, root, h, i + 1) else []
  }

  // ----- one table -----

  /** Every table that is new has just the page one of the calls was given. */
  ghost predicate TablesServed(tabs: Tables, tabs': Tables, calls: seq<Call>) {
    forall k {:trigger k in tabs'} :: k in tabs' ==>
      (k in tabs && tabs[k] == tabs'[k]) || TableCall(tabs'[k]) in calls
  }

  lemma ServedOn(tabs: Tables, tabs1: Tables, tabs2: Tables, a: seq<Call>, b: seq<Call>)
    requires TablesServed(tabs, tabs1, a) && TablesServed(tabs1, tabs2, b)
    ensures TablesServed(tabs, tabs2, a + b)
  {
    hide TableCall;
  }

  lemma GrantedCall(s: seq<Region>, n: u32, k: Kind)
    requires Ready(s) && 0 < n < 0x10_0000 && k != Available && Allocate(s, n, k).1 != 0
    ensures var (t, p) := Allocate(s, n, k); LeadsTo(s, [Call(DoAllocate(n, k), Pages(p, n))], t)
  {
    hide Allocate, Legal, Served, AfterCalls;
    LowLegal(s, n, k);
    OneCall(s, Call(DoAllocate(n, k), Pages(Allocate(s, n, k).1, n)));
  }

  lemma LowLegal(s: seq<Region>, n: u32, k: Kind)
    requires Ready(s) && 0 < n < 0x10_0000
    ensures Legal(s, DoAllocate(n, k))
  {
    ChosenHasRoom(s, n);
    ZeroLength(n);
    var i := Chosen(s, n);
    if i < |s| { assert HasRoom(s[i], n) && s[i].start < s[i].end; }
  }

  /** One table step makes its calls, and its table is the page it was given. */
  lemma StepServed(s: Sys, root: nat, tabs: Tables, k: Key, i: nat, c: Key) returns (tabs': Tables)
    requires Booted(s, root, tabs) && k in tabs && k.level > 1 && i < 512 && c == Child(k, i)
    requires FreePages(s.regions) >= Lacks(tabs.Keys, c)
    ensures Machine(s) && tabs[k] + 8 * i + 8 <= |s.mem|
    ensures var slot := tabs[k] + 8 * i;
            var (s', t) := EnsureTable(s, slot);
            && LeadsTo(s.regions, TableCalls(s, slot), s'.regions) && TablesServed(tabs, tabs', TableCalls(s, slot))
            && Booted(s', root, tabs') && c in tabs' && tabs'[c] == t && tabs' == WithTable(tabs, c, t)
            && FreePages(s.regions) == FreePages(s'.regions) + Lacks(tabs.Keys, c)
  {
    hide *;
    RootFits(s, root, tabs);
    tabs' := EnsureTableLaw(s, root, tabs, k, i, c);
    FollowSlot(s, root, tabs, k, i, c);
    TableServed(s, tabs, k, i, c, tabs');
  }

  lemma TableServed(s: Sys, tabs: Tables, k: Key, i: nat, c: Key, tabs': Tables)
    requires LowMachine(s) && k in tabs && tabs[k] + 8 * i + 8 <= |s.mem|
    requires c in tabs <==> Word(s.mem, tabs[k] + 8 * i) != 0
    requires FreePages(s.regions) >= Lacks(tabs.Keys, c)
    requires tabs' == WithTable(tabs, c, EnsureTable(s, tabs[k] + 8 * i).1)
    ensures var slot := tabs[k] + 8 * i;
            && LeadsTo(s.regions, TableCalls(s, slot), EnsureTable(s, slot).0.regions)
            && TablesServed(tabs, tabs', TableCalls(s, slot))
  {
    hide LeadsTo, Allocate, Word, StoreWord, Zeroed, Or, PageFloor32, FreePages, FreeAligned, Ready;
    if c in tabs {
      NoCalls(s.regions);
    } else {
      GrantLaw(s.regions, 1, Allocated);
      GrantedCall(s.regions, 1, Allocated);
    }
  }

  // ----- one page -----

  lemma DownServed(s: Sys, root: nat, tabs: Tables, k3: Key, k2: Key, k1: Key, i4: nat, i3: nat, i2: nat)
    returns (tabs': Tables)
    requires Booted(s, root, tabs) && i4 < 512 && i3 < 512 && i2 < 512
    requires k3 == Child(Key(4, 0), i4) && k2 == Child(k3, i3) && k1 == Child(k2, i2)
    requires k3.level == 3 && k2.level == 2 && k1.level == 1
    requires FreePages(s.regions) >= Lacks(tabs.Keys, k3) + Lacks(tabs.Keys, k2) + Lacks(tabs.Keys, k1)
    ensures PagerReady(s, root)
    ensures var (s', t) := Down(s, root, i4, i3, i2);
            && LeadsTo(s.regions, DownCalls(s, root, i4, i3, i2), s'.regions)
            && TablesServed(tabs, tabs', DownCalls(s, root, i4, i3, i2))
            && Booted(s', root, tabs') && k1 in tabs' && tabs'[k1] == t
  {
    hide *;
    RootFits(s, root, tabs);
    ReadyRoot(s, root, tabs);
    var tabs1 := StepServed(s, root, tabs, Key(4, 0), i4, k3);
    var (s1, pdp) := EnsureTable(s, root + 8 * i4);
    RootFits(s1, root, tabs1);
    LacksOn(tabs, k3, pdp, k2, k1);
    var tabs2 := StepServed(s1, root, tabs1, k3, i3, k2);
    var (s2, pd) := EnsureTable(s1, pdp + 8 * i3);
    RootFits(s2, root, tabs2);
    LacksOn(tabs1, k2, pd, k1, k1);
    tabs' := StepServed(s2, root, tabs2, k2, i2, k1);
    var (s3, pt) := EnsureTable(s2, pd + 8 * i2);
    DownUnfolds(s, root, i4, i3, i2, s1, pdp, s2, pd);
    DownCallsAre(s, root, i4, i3, i2, s1, pdp, s2, pd);
    var a, b, c := TableCalls(s, root + 8 * i4), TableCalls(s1, pdp + 8 * i3), TableCalls(s2, pd + 8 * i2);
    LeadsOn(s.regions, a, s1.regions, b, s2.regions);
    LeadsOn(s.regions, a + b, s2.regions, c, s3.regions);
    ServedOn(tabs, tabs1, tabs2, a, b);
    ServedOn(tabs, tabs2, tabs', a + b, c);
  }

  lemma LacksOn(tabs: Tables, c: Key, t: nat, d: Key, e: Key)
    requires c.level != d.level && c.level != e.level
    ensures var tabs' := WithTable(tabs, c, t);
            Lacks(tabs'.Keys, d) == Lacks(tabs.Keys, d) && Lacks(tabs'.Keys, e) == Lacks(tabs.Keys, e)
  {
  }

  lemma DownCallsAre(s: Sys, root: nat, i4: nat, i3: nat, i2: nat, s1: Sys, pdp: nat, s2: Sys, pd: nat)
    requires PagerReady(s, root) && i4 < 512 && i3 < 512 && i2 < 512 && root + 0x1000 <= |s.mem|
    requires EnsureTable(s, root + 8 * i4) == (s1, pdp) && Machine(s1) && pdp + 8 * i3 + 8 <= |s1.mem|
    requires EnsureTable(s1, pdp + 8 * i3) == (s2, pd) && Machine(s2) && pd + 8 * i2 + 8 <= |s2.mem|
    ensures DownCalls(s, root, i4, i3, i2) ==
            TableCalls(s, root + 8 * i4) + TableCalls(s1, pdp + 8 * i3) + TableCalls(s2, pd + 8 * i2)
  {
    hide EnsureTable, TableCalls, FreeAligned;
  }

  /** Mapping a page makes its calls, and its new tables are the pages they return. */
  lemma MapPageServed(s: Sys, root: nat, tabs: Tables, phys: u64, virt: u64, perm: Perm) returns (tabs': Tables)
    requires Booted(s, root, tabs) && Budgeted(s, tabs, PageOf(virt)) && TablePage(phys)
    ensures PagerReady(s, root)
    ensures var s' := MapPage(s, root, phys, virt, perm);
            && Mapped(s, tabs, s', tabs', root, PageOf(virt), Pte(phys, perm))
            && LeadsTo(s.regions, MapPageCalls(s, root, virt), s'.regions)
            && TablesServed(tabs, tabs', MapPageCalls(s, root, virt))
  {
    hide *;
    var v, e := PageOf(virt), Pte(phys, perm);
    RootFits(s, root, tabs);
    ReadyRoot(s, root, tabs);
    Pager.PathChildren(v);
    PathLacks(s, tabs, v);
    var k3, k2, k1 := Key(3, Prefix(v, 3)), Key(2, Prefix(v, 2)), Key(1, Prefix(v, 1));
    var tabs3 := DownServed(s, root, tabs, k3, k2, k1, Index(v, 4), Index(v, 3), Index(v, 2));
    tabs' := MapPageLaw(s, root, tabs, phys, virt, perm);
    var s' := MapPage(s, root, phys, virt, perm);
    var (s3, pt) := Down(s, root, Index(v, 4), Index(v, 3), Index(v, 2));
    MapPageUnfolds(s, root, phys, virt, perm, s3, pt);
    MapPageCallsAre(s, root, virt);
    PteIsPresent(phys, perm);
    PteMeans(phys, perm);
    if Word(s3.mem, pt + 8 * Index(v, 1)) == 0 { WriteLeaf(s3, root, tabs3, v, e); }
    MappedTree(s, tabs, s', tabs', root, v, e);
    TreeOf(s', root, tabs3);
    TreeUnique(s'.mem, tabs', tabs3, root);
  }

  lemma MappedTree(s: Sys, tabs: Tables, s': Sys, tabs': Tables, root: nat, v: nat, e: nat)
    requires Mapped(s, tabs, s', tabs', root, v, e)
    ensures Tree(s'.mem, tabs', root, false)
  {
    hide KeepsPrivate, Leaf, FreePages, Tree;
  }

  lemma PathLacks(s: Sys, tabs: Tables, v: nat)
    requires Budgeted(s, tabs, v)
    ensures FreePages(s.regions) >= Lacks(tabs.Keys, Key(3, Prefix(v, 3))) + Lacks(tabs.Keys, Key(2, Prefix(v, 2))) +
                                    Lacks(tabs.Keys, Key(1, Prefix(v, 1)))
    ensures Prefix(v, 1) == v / 512
  {
    hide FreePages, Lacks;
  }

  lemma MapPageCallsAre(s: Sys, root: nat, virt: u64)
    requires PagerReady(s, root)
    ensures root + 0x1000 <= |s.mem|
    ensures var v := PageOf(virt);
            MapPageCalls(s, root, virt) == DownCalls(s, root, Index(v, 4), Index(v, 3), Index(v, 2))
  {
    hide DownCalls, ShiftIndex, Index, PageOf, FreeAligned;
    IndexShift(virt);
  }

  // ----- runs of pages -----

  lemma {:induction false} MapAllServed(s: Sys, root: nat, tabs: Tables, reqs: seq<Req>) returns (tabs': Tables)
    requires Booted(s, root, tabs) && FreePages(s.regions) >= Need(tabs.Keys, reqs) && WholeFrames(reqs)
    ensures PagerReady(s, root)
    ensures var s' := MapAll(s, root, reqs);
            && AllMapped(s, tabs, s', tabs', root, reqs)
            && LeadsTo(s.regions, MapAllCalls(s, root, reqs), s'.regions)
            && TablesServed(tabs, tabs', MapAllCalls(s, root, reqs))
    decreases |reqs|
  {
    hide *;
    ReadyRoot(s, root, tabs);
    RootFits(s, root, tabs);
    if reqs == [] {
      tabs' := tabs;
      NoneServed(s, root, tabs, reqs);
    } else {
      var r := reqs[0];
      TailFrames(reqs);
      LoaderSlots.NeedUnfolds(s, tabs, reqs);
      var tabs1 := MapPageServed(s, root, tabs, r.phys, r.virt, r.perm);
      var s1 := MapPage(s, root, r.phys, r.virt, r.perm);
      AsPage(r);
      LoaderSlots.AfterFirst(s, tabs, s1, tabs1, root, reqs);
      tabs' := MapAllServed(s1, root, tabs1, reqs[1..]);
      var s' := MapAll(s1, root, reqs[1..]);
      OneMore(s, tabs, s1, tabs1, s', tabs', root, reqs);
      CallsUnfold(s, root, reqs);
      LeadsOn(s.regions, MapPageCalls(s, root, r.virt), s1.regions, MapAllCalls(s1, root, reqs[1..]), s'.regions);
      ServedOn(tabs, tabs1, tabs', MapPageCalls(s, root, r.virt), MapAllCalls(s1, root, reqs[1..]));
    }
  }

  lemma NoneServed(s: Sys, root: nat, tabs: Tables, reqs: seq<Req>)
    requires PagerReady(s, root) && reqs == [] && Booted(s, root, tabs)
    ensures AllMapped(s, tabs, MapAll(s, root, reqs), tabs, root, reqs)
    ensures LeadsTo(s.regions, MapAllCalls(s, root, reqs), MapAll(s, root, reqs).regions)
    ensures TablesServed(tabs, tabs, MapAllCalls(s, root, reqs))
  {
    hide Booted, Private, Leaf;
  }

  lemma CallsUnfold(s: Sys, root: nat, reqs: seq<Req>)
    requires PagerReady(s, root) && reqs != []
    ensures var s1 := MapPage(s, root, reqs[0].phys, reqs[0].virt, reqs[0].perm);
            && PagerReady(s1, root) && MapAll(s, root, reqs) == MapAll(s1, root, reqs[1..])
            && MapAllCalls(s, root, reqs) == MapPageCalls(s, root, reqs[0].virt) + MapAllCalls(s1, root, reqs[1..])
  {
    hide MapPage, MapPageCalls, FreeAligned;
  }

  /** Starting the pager: the first call returns the four first tables, and every
      table that comes on top is the page of another. */
  lemma PagerServed(s: Sys) returns (tabs: Tables)
    requires LowMachine(s)
    ensures PagerFits(s)
    ensures var (s', top) := InitializePager(s);
            && LeadsTo(s.regions, PagerCalls(s), s'.regions)
            && (top.Some? ==>
                  && Booted(s', top.value, tabs) && TablesServed(FirstKeys(top.value), tabs, PagerCalls(s))
                  && PagerCalls(s) != [] && PagerCalls(s)[0] == Call(DoAllocate(4, Allocated), Pages(top.value, 4)))
  {
    hide *;
    FourPages(s);
    Headroom.MachineReady(s);
    var (regions, p) := Allocate(s.regions, 4, Allocated);
    PagerUnfolds(s, regions, p);
    PagerCallsAre(s, regions, p);
    tabs := map[];
    if p == 0 {
      NoCalls(s.regions);
    } else {
      FirstBooted(s, regions, p);
      var s1 := Sys(FirstTables(s.mem, p), regions);
      IdentityFrames();
      FirstKeysHave(p);
      IdentityNeedsNothing(FirstKeys(p).Keys, 0);
      GrantedCall(s.regions, 4, Allocated);
      tabs := MapAllServed(s1, p, FirstKeys(p), IdentityReqs(0));
      var s' := MapAll(s1, p, IdentityReqs(0));
      AllMappedParts(s1, FirstKeys(p), s', tabs, p, IdentityReqs(0));
      var first, rest := [Call(DoAllocate(4, Allocated), Pages(p, 4))], MapAllCalls(s1, p, IdentityReqs(0));
      LeadsOn(s.regions, first, regions, rest, s'.regions);
      SameTables(FirstKeys(p), first);
      ServedOn(FirstKeys(p), FirstKeys(p), tabs, first, rest);
    }
  }

  lemma SameTables(tabs: Tables, calls: seq<Call>)
    ensures TablesServed(tabs, tabs, calls)
  {
  }

  lemma PagerCallsAre(s: Sys, regions: seq<Region>, p: u32)
    requires PagerFits(s) && Allocate(s.regions, 4, Allocated) == (regions, p)
    ensures p == 0 ==> PagerCalls(s) == []
    ensures p != 0 ==>
              && p + 0x4000 <= |s.mem| && PagerReady(Sys(FirstTables(s.mem, p), regions), p)
              && PagerCalls(s) == [Call(DoAllocate(4, Allocated), Pages(p, 4))] +
                                  MapAllCalls(Sys(FirstTables(s.mem, p), regions), p, IdentityReqs(0))
  {
    hide Allocate, FirstTables, MapAllCalls, IdentityReqs, FreeAligned;
    assert AllocateFirst(s) == (regions, p);
  }

  // ----- segments -----

  /** The frames of a loaded segment are the memory one of the calls returned. */
  predicate FrameServed(s: Sys, tabs: Tables, g: Segment, calls: seq<Call>) {
    SegmentCall(FirstFrame(s, tabs, g), PagesNeeded(g.memsz)) in calls
  }

  /** Loading a segment makes its calls: the first returns its frames. */
  lemma SegmentServed(s: Sys, root: nat, tabs: Tables, h: Header, g: Segment, m0: Mem, len: nat)
    returns (tabs2: Tables)
    requires Booted(s, root, tabs) && FileHeld(s, tabs, m0, h.base, len) && GoodSegment(g, len)
    requires Unmapped(s, tabs, g)
    requires FreePages(s.regions) >= PagesNeeded(g.memsz) + Need(tabs.Keys, SegReqs(0, g))
    ensures PagerReady(s, root) && Placeable(s, g)
    ensures var (s', ok) := LoadSegment(s, root, h, g);
            && LeadsTo(s.regions, SegmentCalls(s, root, g), s'.regions)
            && (ok ==>
                  && SegmentDone(s, tabs, s', tabs2, root, m0, h.base, g)
                  && TablesServed(tabs, tabs2, SegmentCalls(s, root, g))
                  && FrameServed(s', tabs2, g, SegmentCalls(s, root, g)))
  {
    hide *;
    GoodFacts(g, len);
    ReadyRoot(s, root, tabs);
    RootFits(s, root, tabs);
    Headroom.MachineReady(s);
    LowPlaceable(s, g);
    SegmentGrant(s, g, len);
    var n := PagesNeeded(g.memsz);
    var (regions, p) := Allocate(s.regions, n, Kernel);
    tabs2 := SegmentLaw(s, root, tabs, h, g, m0, len);
    LoadUnfolds(s, root, h, g, regions, p);
    SegmentCallsAre(s, root, g, regions, p);
    if p == 0 {
      GrantLaw(s.regions, n, Kernel);
      NoCalls(s.regions);
    } else {
      ClearedStage(s, root, tabs, regions, p, n);
      var s1 := Sys(Zeroed(s.mem, p, n * 0x1000), regions);
      SegReqsFrames(p, g, len);
      SegReqsNeed(tabs.Keys, p, g, len);
      GrantedCall(s.regions, n, Kernel);
      var tabs1 := MapAllServed(s1, root, tabs, SegReqs(p, g));
      var s2 := MapAll(s1, root, SegReqs(p, g));
      AllMappedParts(s1, tabs, s2, tabs1, root, SegReqs(p, g));
      TreeOf(s2, root, tabs1);
      TreeOf(s2, root, tabs2);
      TreeUnique(s2.mem, tabs1, tabs2, root);
      var first, rest := [SegmentCall(p, n)], MapAllCalls(s1, root, SegReqs(p, g));
      SegmentCallIs(p, n);
      LeadsOn(s.regions, first, regions, rest, s2.regions);
      SameTables(tabs, first);
      ServedOn(tabs, tabs, tabs2, first, rest);
      FrameServedFirst(LoadSegment(s, root, h, g).0, tabs2, g, p, first, rest);
    }
  }

  lemma SegmentCallIs(p: nat, n: u32)
    ensures SegmentCall(p, n) == Call(DoAllocate(n, Kernel), Pages(p, n))
  {
  }

  lemma FrameServedFirst(s: Sys, tabs: Tables, g: Segment, p: nat, first: seq<Call>, rest: seq<Call>)
    requires FirstFrame(s, tabs, g) == p && PagesNeeded(g.memsz) < 0x1_0000_0000
    requires first == [SegmentCall(p, PagesNeeded(g.memsz))]
    ensures FrameServed(s, tabs, g, first + rest)
  {
    hide SegmentCall, FirstFrame, PagesNeeded;
    assert (first + rest)[0] == first[0];
  }

  lemma SegmentCallsAre(s: Sys, root: nat, g: Segment, regions: seq<Region>, p: u32)
    requires PagerReady(s, root) && Placeable(s, g)
    requires Allocate(s.regions, PagesNeeded(g.memsz), Kernel) == (regions, p)
    ensures p == 0 ==> SegmentCalls(s, root, g) == []
    ensures p != 0 ==>
              var n := PagesNeeded(g.memsz);
              && p + n * 0x1000 <= |s.mem| && PagerReady(Sys(Zeroed(s.mem, p, n * 0x1000), regions), root)
              && SegmentCalls(s, root, g) ==
                 [SegmentCall(p, n)] + MapAllCalls(Sys(Zeroed(s.mem, p, n * 0x1000), regions), root, SegReqs(p, g))
  {
    hide Allocate, MapAllCalls, SegReqs, FreeAligned, PagesNeeded, SegmentCall, Zeroed;
    assert AllocateSegment(s, PagesNeeded(g.memsz)) == (regions, p);
  }

  /** The frames of all segments from header i on. */
  predicate FramesServed(s: Sys, tabs: Tables, m0: Mem, h: Header, i: nat, calls: seq<Call>)
    requires |m0| > 0
  {
    forall j: nat :: i <= j < h.phnum && SegmentAt(m0, h, j).load ==>
      FrameServed(s, tabs, SegmentAt(m0, h, j), calls)
  }

  lemma FramesNext(s1: Sys, tabs1: Tables, s': Sys, tabs': Tables, m0: Mem, h: Header, i: nat,
                   a: seq<Call>, b: seq<Call>)
    requires |m0| > 0 && i < h.phnum && SegmentAt(m0, h, i).load
    requires FrameServed(s1, tabs1, SegmentAt(m0, h, i), a) && FramesServed(s', tabs', m0, h, i + 1, b)
    requires FirstFrame(s', tabs', SegmentAt(m0, h, i)) == FirstFrame(s1, tabs1, SegmentAt(m0, h, i))
    ensures FramesServed(s', tabs', m0, h, i, a + b)
  {
    hide SegmentAt, SegmentCall, FirstFrame, PagesNeeded;
    forall j: nat | i <= j < h.phnum && SegmentAt(m0, h, j).load
      ensures FrameServed(s', tabs', SegmentAt(m0, h, j), a + b)
    {
      if j > i { assert FrameServed(s', tabs', SegmentAt(m0, h, j), b); }
    }
  }

  lemma FramesSkip(s': Sys, tabs': Tables, m0: Mem, h: Header, i: nat, calls: seq<Call>)
    requires |m0| > 0 && FramesServed(s', tabs', m0, h, i + 1, calls) && (i < h.phnum ==> !SegmentAt(m0, h, i).load)
    ensures FramesServed(s', tabs', m0, h, i, calls)
  {
    hide SegmentAt, FrameServed;
  }

  lemma CallsAtEnd(s: Sys, root: nat, tabs: Tables, m0: Mem, h: Header, i: nat)
    requires PagerReady(s, root) && Loadable(s, root, h, i) && i >= h.phnum && |m0| > 0
    ensures ExpandCalls(s, root, h, i) == [] && FramesServed(s, tabs, m0, h, i, [])
  {
    hide FrameServed, SegmentAt, FreeAligned;
  }

  lemma ExpandCallsUnfold(s: Sys, root: nat, h: Header, i: nat)
    requires PagerReady(s, root) && Loadable(s, root, h, i) && i < h.phnum && |s.mem| > 0
    ensures !SegmentAt(s.mem, h, i).load ==>
              Loadable(s, root, h, i + 1) && ExpandCalls(s, root, h, i) == ExpandCalls(s, root, h, i + 1)
    ensures SegmentAt(s.mem, h, i).load ==>
              var g := SegmentAt(s.mem, h, i);
              && Placeable(s, g)
              && var (s1, ok) := LoadSegment(s, root, h, g);
                 && PagerReady(s1, root)
                 && if ok then Loadable(s1, root, h, i + 1) && ExpandCalls(s, root, h, i) ==
                               SegmentCalls(s, root, g) + ExpandCalls(s1, root, h, i + 1)
                    else ExpandCalls(s, root, h, i) == SegmentCalls(s, root, g)
  {
    hide SegmentAt, LoadSegment, SegmentCalls, FreeAligned, Placeable;
  }

  /** The loader's loop: its calls are one run, and tables and frames are what
      they return. */
  lemma {:induction false} ExpandServed(s: Sys, root: nat, tabs: Tables, h: Header, m0: Mem, len: nat, i: nat)
    returns (tabs': Tables)
    requires Booted(s, root, tabs) && GoodImage(m0, h, len) && |m0| > 0
    requires FileHeld(s, tabs, m0, h.base, len) && Pending(s, tabs, m0, h, i)
    requires FreePages(s.regions) >= Demand(tabs.Keys, m0, h, i)
    ensures PagerReady(s, root) && Loadable(s, root, h, i)
    ensures var (s', ok) := ExpandFrom(s, root, h, i);
            && LeadsTo(s.regions, ExpandCalls(s, root, h, i), s'.regions)
            && (ok ==>
                  && Expanded(s, tabs, s', tabs', root, m0, h, i)
                  && TablesServed(tabs, tabs', ExpandCalls(s, root, h, i))
                  && FramesServed(s', tabs', m0, h, i, ExpandCalls(s, root, h, i)))
    decreases h.phnum - i
  {
    hide *;
    ReadyRoot(s, root, tabs);
    if i >= h.phnum {
      tabs' := tabs;
      ExpandedNothing(s, root, tabs, m0, h, i);
      CallsAtEnd(s, root, tabs, m0, h, i);
      NoCalls(s.regions);
      SameTables(tabs, []);
    } else {
      ImageAt(s, tabs, m0, h, len, i);
      ExpandUnfolds(s, root, h, i);
      DemandUnfolds(tabs.Keys, m0, h, i);
      SkipPending(s, tabs, m0, h, i);
      var g := SegmentAt(m0, h, i);
      if !g.load {
        tabs' := ExpandServed(s, root, tabs, h, m0, len, i + 1);
        ExpandCallsUnfold(s, root, h, i);
        var (s', ok) := ExpandFrom(s, root, h, i + 1);
        if ok {
          ExpandedSkip(s, tabs, s', tabs', root, m0, h, i);
          FramesSkip(s', tabs', m0, h, i, ExpandCalls(s, root, h, i));
        }
      } else {
        tabs' := SegmentThenServed(s, root, tabs, h, m0, len, i);
      }
    }
  }

  lemma {:induction false} SegmentThenServed(s: Sys, root: nat, tabs: Tables, h: Header, m0: Mem, len: nat, i: nat)
    returns (tabs': Tables)
    requires Booted(s, root, tabs) && GoodImage(m0, h, len) && |m0| > 0
    requires FileHeld(s, tabs, m0, h.base, len) && Pending(s, tabs, m0, h, i)
    requires FreePages(s.regions) >= Demand(tabs.Keys, m0, h, i) && i < h.phnum && SegmentAt(m0, h, i).load
    ensures PagerReady(s, root) && Loadable(s, root, h, i)
    ensures var (s', ok) := ExpandFrom(s, root, h, i);
            && LeadsTo(s.regions, ExpandCalls(s, root, h, i), s'.regions)
            && (ok ==>
                  && Expanded(s, tabs, s', tabs', root, m0, h, i)
                  && TablesServed(tabs, tabs', ExpandCalls(s, root, h, i))
                  && FramesServed(s', tabs', m0, h, i, ExpandCalls(s, root, h, i)))
    decreases h.phnum - i, 0
  {
    hide *;
    ReadyRoot(s, root, tabs);
    ImageAt(s, tabs, m0, h, len, i);
    ExpandUnfolds(s, root, h, i);
    DemandUnfolds(tabs.Keys, m0, h, i);
    SkipPending(s, tabs, m0, h, i);
    var g := SegmentAt(m0, h, i);
    var tabs1 := SegmentServed(s, root, tabs, h, g, m0, len);
    var (s1, ok) := LoadSegment(s, root, h, g);
    tabs' := tabs1;
    if ok {
      DoneParts(s, tabs, s1, tabs1, root, m0, h.base, g);
      StillPending(s, tabs, s1, tabs1, m0, h, len, i);
      FileKept(s, tabs, s1, tabs1, m0, h.base, len);
      tabs' := ExpandServed(s1, root, tabs1, h, m0, len, i + 1);
      ExpandCallsUnfold(s, root, h, i);
      var (s', ok') := ExpandFrom(s1, root, h, i + 1);
      var a, b := SegmentCalls(s, root, g), ExpandCalls(s1, root, h, i + 1);
      LeadsOn(s.regions, a, s1.regions, b, s'.regions);
      if ok' {
        ExpandedNext(s, tabs, s1, tabs1, s', tabs', root, m0, h, len, i);
        ServedOn(tabs, tabs1, tabs', a, b);
        LaterKept(s1, tabs1, s', tabs', root, m0, h, i + 1);
        FirstFrameKept(s1, tabs1, s', tabs', m0, h, len, i);
        FramesNext(s1, tabs1, s', tabs', m0, h, i, a, b);
      }
    } else {
      ExpandCallsUnfold(s, root, h, i);
    }
  }

  lemma LaterKept(s: Sys, tabs: Tables, s': Sys, tabs': Tables, root: nat, m0: Mem, h: Header, i: nat)
    requires Expanded(s, tabs, s', tabs', root, m0, h, i)
    ensures RestKept(s, tabs, s', tabs', m0, h, i)
  {
    hide Booted, KeepsPrivate, AllLoaded, RestKept, AllFresh, FramesApart, TopsForSegments;
  }

  // ----- the boot -----

  function ReserveCall(start: u32, end: u32): Call {
    Call(DoReserve(start, end), Range(PageFloor32(start), PageCeil32(end)))
  }

  /** All calls from the first reservation to the last segment. */
  function BootCalls(m: Mem, s: seq<Region>, ks: u32, ke: u32, ms: u32, me: u32, h: Header): seq<Call>
    requires PagerFits(Sys(m, BothReserved(s, ks, ke, ms, me)))
  {
    var (s1, top) := Started(m, s, ks, ke, ms, me);
    [ReserveCall(ks, ke)] + [ReserveCall(ms, me)] + PagerCalls(Sys(m, BothReserved(s, ks, ke, ms, me))) +
    if top.Some? && PagerReady(s1, top.value) && Loadable(s1, top.value, h, 0)
    then ExpandCalls(s1, top.value, h, 0) else []
  }

  lemma ReserveServed(s: seq<Region>, start: u32, end: u32)
    requires Legal(s, DoReserve(start, end)) && Contained(s, start, end)
    ensures LeadsTo(s, [ReserveCall(start, end)], Reserve(s, start, end))
  {
    hide Legal, Reserve, And, Served, AfterCalls;
    OneCall(s, ReserveCall(start, end));
  }

  lemma BothServed(m: Mem, s: seq<Region>, ks: u32, ke: u32, ms: u32, me: u32)
    requires |m| == 0x1_0000_0000 && StartMap(s, ks, ke, ms, me)
    ensures LeadsTo(s, [ReserveCall(ks, ke)] + [ReserveCall(ms, me)], BothReserved(s, ks, ke, ms, me))
  {
    hide LeadsTo, Reserve, Contained, Legal, Sound, LowFree, And, PagerFits, LowMachine, TakenRange, ReserveCall;
    BothTaken(m, s, ks, ke, ms, me);
    RoundedBounds(ks, ke);
    RoundedBounds(ms, me);
    StillContained(s, ks, ke, ms, me);
    var r1 := Reserve(s, ks, ke);
    ReserveServed(s, ks, ke);
    ReserveServed(r1, ms, me);
    LeadsOn(s, [ReserveCall(ks, ke)], r1, [ReserveCall(ms, me)], Reserve(r1, ms, me));
  }

  /** The boot as one run of the allocator. Its calls are legal and all of them
      are served; no two of their callers use the same memory, and that memory is
      just what is no longer free; and when the kernel is loaded, every page table
      is one of the pager's first four pages or the page one call returned, and
      the frames of every segment are the memory another returned. */
  lemma BootIsOneRun(m: Mem, s: seq<Region>, ks: u32, ke: u32, ms: u32, me: u32, h: Header) returns (tabs: Tables)
    requires StartMap(s, ks, ke, ms, me) && GoodModule(m, ms, me, h)
    requires FreePages(BothReserved(s, ks, ke, ms, me)) >= 4 + BootDemand(m, h)
    ensures PagerFits(Sys(m, BothReserved(s, ks, ke, ms, me))) && |m| > 0
    ensures var (s1, top) := Started(m, s, ks, ke, ms, me);
            var calls := BootCalls(m, s, ks, ke, ms, me, h);
            top.Some? ==>
              && PagerReady(s1, top.value) && Loadable(s1, top.value, h, 0)
              && var (s2, ok) := Expand(s1, top.value, h);
                 && Served(s, calls) && AfterCalls(s, calls) == s2.regions && UsesApart(calls)
                 && FreeLess(s, s2.regions, calls)
                 && (ok ==>
                       && Tree(s2.mem, tabs, top.value, false) && FirstTablesAt(calls, top.value)
                       && TablesServed(FirstKeys(top.value), tabs, calls) && FramesServed(s2, tabs, m, h, 0, calls))
  {
    hide *;
    ModuleParts(m, ms, me, h);
    StartSound(s, ks, ke, ms, me);
    FirmwareStart(s, ks, ke, ms, me);
    BothTaken(m, s, ks, ke, ms, me);
    StartIsLow(m, s, ks, ke, ms, me);
    BothServed(m, s, ks, ke, ms, me);
    StartedIs(m, s, ks, ke, ms, me);
    var s0 := Sys(m, BothReserved(s, ks, ke, ms, me));
    tabs := map[];
    var tabs1 := BootReady(s0, h, me - ms, ms, me - ms);
    var tabs0 := PagerServed(s0);
    var (s1, top) := Started(m, s, ks, ke, ms, me);
    if top.Some? {
      var root := top.value;
      TreeOf(s1, root, tabs1);
      TreeOf(s1, root, tabs0);
      TreeUnique(s1.mem, tabs1, tabs0, root);
      tabs := ExpandServed(s1, root, tabs1, h, m, me - ms, 0);
      ExpandIs(s1, root, h, m, me - ms);
      BootCallsAre(m, s, ks, ke, ms, me, h);
      var (s2, ok) := Expand(s1, root, h);
      var a, b, c := [ReserveCall(ks, ke)] + [ReserveCall(ms, me)], PagerCalls(s0), ExpandCalls(s1, root, h, 0);
      LeadsOn(s, a, s0.regions, b, s1.regions);
      LeadsOn(s, a + b, s1.regions, c, s2.regions);
      LeadsParts(s, a + b + c, s2.regions);
      UsesDisjoint(s, a + b + c);
      FreeAfterAll(s, a + b + c);
      if ok {
        ExpandedTree(s1, tabs1, s2, tabs, root, m, h);
        TreeOf(s2, root, tabs);
        SameTables(FirstKeys(root), a);
        ServedOn(FirstKeys(root), FirstKeys(root), tabs1, a, b);
        ServedOn(FirstKeys(root), tabs1, tabs, a + b, c);
        FramesMore(s2, tabs, m, h, a + b, c);
        FirstAt(a, b, c, root);
      }
    }
  }

  /** The third call of the boot returns the pager's first four tables. */
  predicate FirstTablesAt(calls: seq<Call>, root: nat) {
    |calls| > 2 && calls[2] == Call(DoAllocate(4, Allocated), Pages(root, 4))
  }

  lemma FirstAt(a: seq<Call>, b: seq<Call>, c: seq<Call>, root: nat)
    requires |a| == 2 && b != [] && b[0] == Call(DoAllocate(4, Allocated), Pages(root, 4))
    ensures FirstTablesAt(a + b + c, root)
  {
    hide Pages;
  }

  lemma FramesMore(s: Sys, tabs: Tables, m0: Mem, h: Header, a: seq<Call>, b: seq<Call>)
    requires |m0| > 0 && FramesServed(s, tabs, m0, h, 0, b)
    ensures FramesServed(s, tabs, m0, h, 0, a + b)
  {
    hide SegmentAt, SegmentCall, FirstFrame, PagesNeeded;
    forall j: nat | 0 <= j < h.phnum && SegmentAt(m0, h, j).load
      ensures FrameServed(s, tabs, SegmentAt(m0, h, j), a + b)
    {
      assert FrameServed(s, tabs, SegmentAt(m0, h, j), b);
    }
  }

  lemma LeadsParts(s: seq<Region>, calls: seq<Call>, t: seq<Region>)
    requires LeadsTo(s, calls, t)
    ensures Served(s, calls) && AfterCalls(s, calls) == t
  {
  }

  lemma StartSound(s: seq<Region>, ks: u32, ke: u32, ms: u32, me: u32)
    requires StartMap(s, ks, ke, ms, me)
    ensures Sound(s) && LowFree(s)
  {
  }

  lemma BootCallsAre(m: Mem, s: seq<Region>, ks: u32, ke: u32, ms: u32, me: u32, h: Header)
    requires PagerFits(Sys(m, BothReserved(s, ks, ke, ms, me)))
    ensures var (s1, top) := Started(m, s, ks, ke, ms, me);
            top.Some? && PagerReady(s1, top.value) && Loadable(s1, top.value, h, 0) ==>
              BootCalls(m, s, ks, ke, ms, me, h) ==
              [ReserveCall(ks, ke)] + [ReserveCall(ms, me)] + PagerCalls(Sys(m, BothReserved(s, ks, ke, ms, me))) +
              ExpandCalls(s1, top.value, h, 0)
  {
    hide Started, ReserveCall, PagerCalls, ExpandCalls, PagerReady, Loadable, PagerFits;
  }
}
