/** Sequences of `map_page` calls: a first-write-wins map from pages to
    frames, and how many tables such a sequence takes from the allocator. */
module MapRuns {
  import opened Bits
  import opened Options
  import opened PageTables
  import opened PageBudget
  import opened Paging
  import opened PagingLaws

  datatype Req = Req(phys: u64, virt: u64, perm: Perm) {
    function Page(): nat { PageOf(virt) }
  }

  function MapAll(s: Sys, root: nat, reqs: seq<Req>): (r: Sys)
    requires Machine(s) && root % 0x1000 == 0 && root + 0x1000 <= 0x1_0000_0000
    ensures Machine(r)
    decreases |reqs|
  {
    if reqs == [] then s
    else MapAll(MapPage(s, root, reqs[0].phys, reqs[0].virt, reqs[0].perm), root, reqs[1..])
  }

  /** The first request for page v. */
  function FirstFor(reqs: seq<Req>, v: nat): Option<Req> {
    if reqs == [] then None else if reqs[0].Page() == v then Some(reqs[0]) else FirstFor(reqs[1..], v)
  }

  /** Tables that mapping these pages, one after the other, adds. */
  function Need(have: set<Key>, reqs: seq<Req>): nat
    decreases |reqs|
  {
    if reqs == [] then 0
    else Missing(have, reqs[0].Page()) + Need(have + Path(reqs[0].Page()), reqs[1..])
  }

  /** The tables there are after mapping these pages. */
  function Covered(have: set<Key>, reqs: seq<Req>): set<Key>
    decreases |reqs|
  {
    if reqs == [] then have else Covered(have + Path(reqs[0].Page()), reqs[1..])
  }

  /** Neither depends on frames and permissions. */
  lemma {:induction false} NeedIgnoresFrames(have: set<Key>, a: seq<Req>, b: seq<Req>)
    requires |a| == |b| && forall i :: 0 <= i < |a| ==> a[i].Page() == b[i].Page()
    ensures Need(have, a) == Need(have, b) && Covered(have, a) == Covered(have, b)
    decreases |a|
  {
    if a != [] {
      assert a[0].Page() == b[0].Page();
      assert forall i :: 0 <= i < |a[1..]| ==> a[1..][i] == a[i + 1] && b[1..][i] == b[i + 1];
      NeedIgnoresFrames(have + Path(a[0].Page()), a[1..], b[1..]);
    }
  }

  /** The entry of page v after the requests, e being the one before. */
  function FirstEntry(e: nat, reqs: seq<Req>, v: nat): nat {
    if e != 0 then e else
      match FirstFor(reqs, v)
      case None => 0
      case Some(r) => Pte(r.phys, r.perm)
  }

  ghost predicate WholeFrames(reqs: seq<Req>) {
    forall i :: 0 <= i < |reqs| ==> TablePage(reqs[i].phys)
  }

  ghost predicate AllMapped(s: Sys, tabs: Tables, s': Sys, tabs': Tables, root: nat, reqs: seq<Req>) {
    && Booted(s', root, tabs')
    && tabs'.Keys == Covered(tabs.Keys, reqs)
    && (forall u: nat :: Leaf(s'.mem, tabs', u) == FirstEntry(Leaf(s.mem, tabs, u), reqs, u))
    && KeepsPrivate(s, tabs, s', tabs')
    && FreePages(s.regions) == FreePages(s'.regions) + Need(tabs.Keys, reqs)
    && |s'.regions| <= |s.regions| + Need(tabs.Keys, reqs)
    && (Need(tabs.Keys, reqs) == 0 ==> s'.regions == s.regions)
  }

  /** A run of calls refines the map in which the first request for a page wins. */
  lemma {:induction false} MapAllLaw(s: Sys, root: nat, tabs: Tables, reqs: seq<Req>) returns (tabs': Tables)
    requires Booted(s, root, tabs) && FreePages(s.regions) >= Need(tabs.Keys, reqs) && WholeFrames(reqs)
    ensures root % 0x1000 == 0 && root + 0x1000 <= 0x1_0000_0000
    ensures AllMapped(s, tabs, MapAll(s, root, reqs), tabs', root, reqs)
    decreases |reqs|
  {
    RootFits(s, root, tabs);
    if reqs == [] {
      tabs' := tabs;
    } else {
      var r := reqs[0];
      var tabs1 := MapPageLaw(s, root, tabs, r.phys, r.virt, r.perm);
      var s1 := MapPage(s, root, r.phys, r.virt, r.perm);
      TailFrames(reqs);
      tabs' := MapAllLaw(s1, root, tabs1, reqs[1..]);
      OneMore(s, tabs, s1, tabs1, MapAll(s1, root, reqs[1..]), tabs', root, reqs);
    }
  }

  lemma TailFrames(reqs: seq<Req>)
    requires WholeFrames(reqs) && reqs != []
    ensures WholeFrames(reqs[1..]) && TablePage(reqs[0].phys)
  {
  }

  lemma OneMore(s: Sys, tabs: Tables, s1: Sys, tabs1: Tables, s2: Sys, tabs2: Tables, root: nat, reqs: seq<Req>)
    requires reqs != [] && TablePage(reqs[0].phys)
    requires var r := reqs[0]; Mapped(s, tabs, s1, tabs1, root, r.Page(), Pte(r.phys, r.perm))
    requires AllMapped(s1, tabs1, s2, tabs2, root, reqs[1..])
    ensures AllMapped(s, tabs, s2, tabs2, root, reqs)
  {
    var r := reqs[0];
    PteIsPresent(r.phys, r.perm);
    forall u: nat ensures Leaf(s2.mem, tabs2, u) == FirstEntry(Leaf(s.mem, tabs, u), reqs, u) {
      assert Leaf(s2.mem, tabs2, u) == FirstEntry(Leaf(s1.mem, tabs1, u), reqs[1..], u);
    }
    forall x: nat | Private(s, tabs, x) ensures Private(s2, tabs2, x) && s2.mem[x] == s.mem[x] {
      assert Private(s1, tabs1, x);
    }
  }

  /** The same as the processor sees it: every page ends with the translation it
      had, or else with the first one requested for it. */
  lemma MapAllWalks(s: Sys, root: nat, tabs: Tables, reqs: seq<Req>, u: nat)
    requires Booted(s, root, tabs) && FreePages(s.regions) >= Need(tabs.Keys, reqs) && WholeFrames(reqs)
    requires u < 0x10_0000_0000
    ensures root % 0x1000 == 0 && root + 0x1000 <= 0x1_0000_0000
    ensures Walk(MapAll(s, root, reqs).mem, root, 4, u) ==
            if Walk(s.mem, root, 4, u).Some? then Walk(s.mem, root, 4, u) else
              match FirstFor(reqs, u)
              case None => None
              case Some(r) => Some(Trans(r.phys, r.perm.write, !r.perm.exec))
  {
    hide *;
    RootFits(s, root, tabs);
    var tabs' := MapAllLaw(s, root, tabs, reqs);
    FirstWalk(s, tabs, MapAll(s, root, reqs), tabs', root, reqs, u);
  }

  lemma FirstWalk(s: Sys, tabs: Tables, s': Sys, tabs': Tables, root: nat, reqs: seq<Req>, u: nat)
    requires Booted(s, root, tabs) && AllMapped(s, tabs, s', tabs', root, reqs) && WholeFrames(reqs)
    requires u < 0x10_0000_0000
    ensures Walk(s'.mem, root, 4, u) ==
            if Walk(s.mem, root, 4, u).Some? then Walk(s.mem, root, 4, u) else
              match FirstFor(reqs, u)
              case None => None
              case Some(r) => Some(Trans(r.phys, r.perm.write, !r.perm.exec))
  {
    hide Walk, FirstFor, Pte;
    WalkIsLeaf(s.mem, tabs, root, false, u);
    WalkIsLeaf(s'.mem, tabs', root, false, u);
    LeafZero(s.mem, tabs, root, false, u);
    assert Leaf(s'.mem, tabs', u) == FirstEntry(Leaf(s.mem, tabs, u), reqs, u);
    if FirstFor(reqs, u).Some? { FirstForEntry(reqs, u); }
  }

  lemma {:induction false} FirstForEntry(reqs: seq<Req>, v: nat)
    requires WholeFrames(reqs) && FirstFor(reqs, v).Some?
    ensures var r := FirstFor(reqs, v).value;
            TablePage(r.phys) && LeafTrans(Pte(r.phys, r.perm)) == Some(Trans(r.phys, r.perm.write, !r.perm.exec))
  {
    if reqs[0].Page() == v {
      PteMeans(reqs[0].phys, reqs[0].perm);
    } else {
      TailFrames(reqs);
      FirstForEntry(reqs[1..], v);
    }
  }

  /** Asking for a page that was mapped before, or anywhere in the run, changes
      neither the tables nor the allocator. */
  lemma RepeatIsNoOp(s: Sys, root: nat, tabs: Tables, reqs: seq<Req>, again: Req)
    requires Booted(s, root, tabs) && FreePages(s.regions) >= Need(tabs.Keys, reqs) && WholeFrames(reqs)
    requires TablePage(again.phys)
    requires Walk(s.mem, root, 4, again.Page()).Some? || FirstFor(reqs, again.Page()).Some?
    ensures root % 0x1000 == 0 && root + 0x1000 <= 0x1_0000_0000
    ensures var t := MapAll(s, root, reqs); MapPage(t, root, again.phys, again.virt, again.perm) == t
  {
    hide *;
    RootFits(s, root, tabs);
    AsPage(again);
    var v, t := PageOf(again.virt), MapAll(s, root, reqs);
    var tabs1 := MapAllLaw(s, root, tabs, reqs);
    EntryThere(s, tabs, t, tabs1, root, reqs, v);
    RootFits(t, root, tabs1);
    var tabs2 := MapPageLaw(t, root, tabs1, again.phys, again.virt, again.perm);
    NoChange(t, tabs1, MapPage(t, root, again.phys, again.virt, again.perm), tabs2, root, v,
             Pte(again.phys, again.perm));
  }

  lemma AsPage(r: Req)
    ensures r.Page() == PageOf(r.virt)
  {
  }

  lemma EntryThere(s: Sys, tabs: Tables, t: Sys, tabs1: Tables, root: nat, reqs: seq<Req>, v: nat)
    requires Booted(s, root, tabs) && AllMapped(s, tabs, t, tabs1, root, reqs) && WholeFrames(reqs)
    requires v < 0x10_0000_0000 && (Walk(s.mem, root, 4, v).Some? || FirstFor(reqs, v).Some?)
    ensures Leaf(t.mem, tabs1, v) != 0 && Booted(t, root, tabs1) && Budgeted(t, tabs1, v)
  {
    hide Walk, Pte, KeepsPrivate, Need, Covered, FreePages, Prefix, WholeFrames;
    WalkIsLeaf(s.mem, tabs, root, false, v);
    LeafZero(s.mem, tabs, root, false, v);
    if FirstFor(reqs, v).Some? {
      FirstForEntry(reqs, v);
      ZeroAbsent();
    }
    assert Leaf(t.mem, tabs1, v) == FirstEntry(Leaf(s.mem, tabs, v), reqs, v);
    LeafHasTables(t, root, tabs1, v);
  }

  lemma ZeroAbsent()
    ensures LeafTrans(0) == None
  {
  }

  /** Where an entry stands the tree lacks no table. */
  lemma LeafHasTables(s: Sys, root: nat, tabs: Tables, v: nat)
    requires Booted(s, root, tabs) && v < 0x10_0000_0000 && Leaf(s.mem, tabs, v) != 0
    ensures Budgeted(s, tabs, v)
  {
    hide Booted;
    PathParents(s, root, tabs, v);
  }

  lemma NoChange(s: Sys, tabs: Tables, t: Sys, tabs1: Tables, root: nat, v: nat, e: nat)
    requires Mapped(s, tabs, t, tabs1, root, v, e) && Leaf(s.mem, tabs, v) != 0
    ensures t == s
  {
  }

  // ----- how many tables a contiguous range takes -----

  /** Requests for n pages from v on. */
  ghost predicate Contiguous(reqs: seq<Req>, v: nat) {
    forall i :: 0 <= i < |reqs| ==> reqs[i].Page() == v + i
  }

  /** Tables of one level that the requests add. */
  function NeedAt(level: nat, have: set<nat>, reqs: seq<Req>): nat
    requires 1 <= level <= 3
    decreases |reqs|
  {
    if reqs == [] then 0 else
      var p := Prefix(reqs[0].Page(), level);
      (if p in have then 0 else 1) + NeedAt(level, have + {p}, reqs[1..])
  }

  ghost predicate SameAt(level: nat, have: set<Key>, prefixes: set<nat>) {
    forall p: nat :: p in prefixes <==> Key(level, p) in have
  }

  lemma {:induction false} NeedSplits(have: set<Key>, h3: set<nat>, h2: set<nat>, h1: set<nat>, reqs: seq<Req>)
    requires SameAt(3, have, h3) && SameAt(2, have, h2) && SameAt(1, have, h1)
    ensures Need(have, reqs) == NeedAt(3, h3, reqs) + NeedAt(2, h2, reqs) + NeedAt(1, h1, reqs)
    decreases |reqs|
  {
    if reqs != [] {
      var v := reqs[0].Page();
      NeedSplits(have + Path(v), h3 + {Prefix(v, 3)}, h2 + {Prefix(v, 2)}, h1 + {Prefix(v, 1)}, reqs[1..]);
    }
  }

  lemma {:induction false} NeedAtBound(level: nat, have: set<nat>, reqs: seq<Req>, v: nat)
    requires 1 <= level <= 3 && Contiguous(reqs, v) && reqs != []
    ensures NeedAt(level, have, reqs) <=
            (v + |reqs| - 1) / Span(level) - v / Span(level) + if v / Span(level) in have then 0 else 1
    decreases |reqs|
  {
    hide Span, Prefix;
    PrefixIsQuotient(v, level);
    if |reqs| > 1 {
      assert forall i :: 0 <= i < |reqs[1..]| ==> reqs[1..][i] == reqs[i + 1];
      NextSpan(v, level);
      NeedAtBound(level, have + {Prefix(v, level)}, reqs[1..], v + 1);
    }
  }

  lemma PrefixIsQuotient(v: nat, level: nat)
    requires 1 <= level <= 3
    ensures Prefix(v, level) == v / Span(level)
  {
  }

  lemma NextSpan(v: nat, level: nat)
    requires 1 <= level <= 3
    ensures v / Span(level) <= (v + 1) / Span(level) <= v / Span(level) + 1
  {
  }

  lemma RangeBound(v: nat, n: nat, span: nat)
    requires n > 0 && (span == 0x200 || span == 0x4_0000 || span == 0x800_0000)
    ensures (v + n - 1) / span - v / span + 1 <= (n + span - 2) / span + 1
  {
  }

  /** The tables of a level that are there, and those that the requests add. */
  function Prefixes(have: set<Key>, level: nat): set<nat> {
    set k | k in have && k.level == level :: k.prefix
  }

  function NewTables(level: nat, have: set<Key>, reqs: seq<Req>): nat
    requires 1 <= level <= 3
  {
    NeedAt(level, Prefixes(have, level), reqs)
  }

  /** floor((n + span - 2) / span) + 1 */
  function LevelBound(level: nat, n: nat): nat
    requires 1 <= level <= 3
  {
    (n + Span(level) - 2) / Span(level) + 1
  }

  /** Mapping n contiguous pages takes at most (n+510)/512+1 page tables from the
      allocator, and no more page directories and PDPTs than the same bound at
      their spans allows. */
  lemma TableBound(have: set<Key>, reqs: seq<Req>, v: nat)
    requires Contiguous(reqs, v) && reqs != []
    ensures NewTables(1, have, reqs) <= (|reqs| + 510) / 512 + 1
    ensures NewTables(2, have, reqs) <= (|reqs| + 0x3_FFFE) / 0x4_0000 + 1
    ensures NewTables(3, have, reqs) <= (|reqs| + 0x7FF_FFFE) / 0x800_0000 + 1
    ensures Need(have, reqs) == NewTables(3, have, reqs) + NewTables(2, have, reqs) + NewTables(1, have, reqs)
    ensures forall level :: 1 <= level <= 3 ==> NewTables(level, have, reqs) <= LevelBound(level, |reqs|)
  {
    hide Need, NeedAt, Contiguous, SameAt, Prefixes;
    LevelSet(3, have, Prefixes(have, 3));
    LevelSet(2, have, Prefixes(have, 2));
    LevelSet(1, have, Prefixes(have, 1));
    NeedSplits(have, Prefixes(have, 3), Prefixes(have, 2), Prefixes(have, 1), reqs);
    NeedAtBound(3, Prefixes(have, 3), reqs, v);
    NeedAtBound(2, Prefixes(have, 2), reqs, v);
    NeedAtBound(1, Prefixes(have, 1), reqs, v);
    RangeBound(v, |reqs|, 0x200);
    RangeBound(v, |reqs|, 0x4_0000);
    RangeBound(v, |reqs|, 0x800_0000);
  }

  lemma {:induction false} FirstOfContiguous(reqs: seq<Req>, v: nat, i: nat)
    requires Contiguous(reqs, v) && i < |reqs|
    ensures FirstFor(reqs, v + i) == Some(reqs[i])
  {
    assert reqs[0].Page() == v + 0;
    if i > 0 {
      assert forall j :: 0 <= j < |reqs[1..]| ==> reqs[1..][j] == reqs[j + 1];
      FirstOfContiguous(reqs[1..], v + 1, i - 1);
    }
  }

  /** So with that many free pages no table allocation fails: every page of the
      range ends translated, to its own frame unless it was mapped before. */
  lemma ContiguousMaps(s: Sys, root: nat, tabs: Tables, reqs: seq<Req>, v: nat, i: nat)
    requires Booted(s, root, tabs) && WholeFrames(reqs) && Contiguous(reqs, v) && i < |reqs|
    requires FreePages(s.regions) >= LevelBound(1, |reqs|) + LevelBound(2, |reqs|) + LevelBound(3, |reqs|)
    ensures root % 0x1000 == 0 && root + 0x1000 <= 0x1_0000_0000
    ensures var (w, w') := (Walk(s.mem, root, 4, v + i), Walk(MapAll(s, root, reqs).mem, root, 4, v + i));
            w' == if w.Some? then w else Some(Trans(reqs[i].phys, reqs[i].perm.write, !reqs[i].perm.exec))
  {
    hide *;
    TableBound(tabs.Keys, reqs, v);
    FirstOfContiguous(reqs, v, i);
    PageInRange(reqs, v, i);
    MapAllWalks(s, root, tabs, reqs, v + i);
  }

  lemma PageInRange(reqs: seq<Req>, v: nat, i: nat)
    requires Contiguous(reqs, v) && i < |reqs|
    ensures v + i < 0x10_0000_0000
  {
    assert reqs[i].Page() == v + i;
  }

  lemma LevelSet(level: nat, have: set<Key>, prefixes: set<nat>)
    requires prefixes == Prefixes(have, level)
    ensures SameAt(level, have, prefixes)
  {
    forall p: nat ensures p in prefixes <==> Key(level, p) in have {
      if Key(level, p) in have { assert Key(level, p).prefix == p; }
    }
  }
}
