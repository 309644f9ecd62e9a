/** `map_page` is a framed update of the translation: what it changes and what
    it leaves alone, on every well-formed tree. */
module PagingLaws {
  import opened Bits
  import opened Options
  import opened Memory
  import opened PageTables
  import opened RegionOps
  import opened PageBudget
  import opened Paging
  import Regions

  lemma TreeFrame(m: Mem, m': Mem, tabs: Tables, root: nat, rec: bool)
    requires Tree(m, tabs, root, rec) && |m'| == |m|
    requires forall k, i {:trigger Ent(m', tabs, k, i)} :: k in tabs && 0 <= i < 512 ==>
               Ent(m', tabs, k, i) == Ent(m, tabs, k, i)
    ensures Tree(m', tabs, root, rec)
  {
    forall k | k in tabs ensures KeyOk(m', tabs, k) { assert KeyOk(m, tabs, k); }
    forall a, b | a in tabs && b in tabs ensures OneOwner(tabs, a, b) { assert OneOwner(tabs, a, b); }
    forall k, i | k in tabs && 0 <= i < 512 ensures EntryOk(m', tabs, rec, k, i) {
      assert KeyOk(m, tabs, k);
      assert EntryOk(m, tabs, rec, k, i);
    }
  }

  /** A freshly granted page lies clear of every table. */
  lemma FreshApart(s: Sys, root: nat, tabs: Tables, p: nat, k: Key)
    requires Booted(s, root, tabs) && k in tabs
    requires forall a :: p <= a < p + 0x1000 ==> Regions.TypeAt(s.regions, a) == Some(Regions.Available)
    ensures tabs[k] + 0x1000 <= p || p + 0x1000 <= tabs[k]
  {
    var a := if p < tabs[k] then tabs[k] else p;
    assert OwnedTable(s, tabs, k);
    assert tabs[k] <= a < tabs[k] + 0x1000 ==> Regions.TypeAt(s.regions, a) == Some(Regions.Allocated);
  }

  lemma ZeroingKeepsSlots(s: Sys, root: nat, tabs: Tables, p: nat)
    requires Booted(s, root, tabs) && p + 0x1000 <= |s.mem|
    requires forall a :: p <= a < p + 0x1000 ==> Regions.TypeAt(s.regions, a) == Some(Regions.Available)
    ensures Tree(Zeroed(s.mem, p, 0x1000), tabs, root, false)
    ensures forall k, i {:trigger Ent(Zeroed(s.mem, p, 0x1000), tabs, k, i)} :: k in tabs && 0 <= i < 512 ==>
              Ent(Zeroed(s.mem, p, 0x1000), tabs, k, i) == Ent(s.mem, tabs, k, i)
  {
    var m' := Zeroed(s.mem, p, 0x1000);
    forall k, i {:trigger Ent(m', tabs, k, i)} | k in tabs && 0 <= i < 512
      ensures Ent(m', tabs, k, i) == Ent(s.mem, tabs, k, i)
    {
      FreshApart(s, root, tabs, p, k);
      assert KeyOk(s.mem, tabs, k);
      WordFrame(s.mem, m', SlotOf(tabs, k, i));
    }
    TreeFrame(s.mem, m', tabs, root, false);
  }

  lemma NewTableMemory(s: Sys, root: nat, tabs: Tables, k: Key, i: nat, p: nat)
    requires Booted(s, root, tabs) && k in tabs && i < 512
    requires p + 0x1000 <= 0x1_0000_0000
    requires forall a :: p <= a < p + 0x1000 ==> Regions.TypeAt(s.regions, a) == Some(Regions.Available)
    ensures SlotOf(tabs, k, i) + 8 <= |s.mem|
    ensures Grown(s.mem, StoreWord(Zeroed(s.mem, p, 0x1000), SlotOf(tabs, k, i), p + 3), tabs, k, i, p)
  {
    var m1 := Zeroed(s.mem, p, 0x1000);
    ZeroingKeepsSlots(s, root, tabs, p);
    StoreRewrites(m1, tabs, root, false, k, i, p + 3);
    var slot := SlotOf(tabs, k, i);
    var m2 := StoreWord(m1, slot, p + 3);
    FreshApart(s, root, tabs, p, k);
    forall i' | 0 <= i' < 512 ensures Word(m2, p + 8 * i') == 0 {
      WordZeroed(s.mem, p, 0x1000, p + 8 * i');
      WordFrame(m1, m2, p + 8 * i');
    }
  }

  /** Translation and private bytes unchanged, `cost` pages and at most as many
      array slots spent. */
  ghost predicate Advanced(s: Sys, tabs: Tables, s': Sys, tabs': Tables, root: nat, cost: nat) {
    && Booted(s', root, tabs')
    && (cost == 0 ==> s' == s && tabs' == tabs)
    && SameLeaves(s, tabs, s', tabs')
    && KeepsPrivate(s, tabs, s', tabs')
    && FreePages(s.regions) == FreePages(s'.regions) + cost
    && |s'.regions| <= |s.regions| + cost
  }

  ghost predicate SameLeaves(s: Sys, tabs: Tables, s': Sys, tabs': Tables) {
    forall v: nat :: Leaf(s'.mem, tabs', v) == Leaf(s.mem, tabs, v)
  }

  lemma AdvancedTwice(s: Sys, tabs: Tables, s1: Sys, tabs1: Tables, s2: Sys, tabs2: Tables, root: nat, a: nat, b: nat)
    requires Advanced(s, tabs, s1, tabs1, root, a) && Advanced(s1, tabs1, s2, tabs2, root, b)
    ensures Advanced(s, tabs, s2, tabs2, root, a + b)
  {
    forall x: nat | Private(s, tabs, x) ensures Private(s2, tabs2, x) && s2.mem[x] == s.mem[x] {
      assert Private(s1, tabs1, x);
    }
    forall v: nat ensures Leaf(s2.mem, tabs2, v) == Leaf(s.mem, tabs, v) {
      assert Leaf(s1.mem, tabs1, v) == Leaf(s.mem, tabs, v);
    }
  }

  function Lacks(have: set<Key>, k: Key): nat { if k in have then 0 else 1 }

  /** Tables for the keys of `path` have been made sure of. */
  ghost predicate Reached(s: Sys, tabs: Tables, s': Sys, tabs': Tables, root: nat, path: set<Key>, cost: nat) {
    Advanced(s, tabs, s', tabs', root, cost) && tabs'.Keys == tabs.Keys + path
  }

  /** The tables once the one for key c has been made sure of, at t. */
  function WithTable(tabs: Tables, c: Key, t: nat): Tables { if c in tabs then tabs else tabs[c := t] }

  /** The entry in slot i of table k, followed by the code. */
  lemma FollowSlot(s: Sys, root: nat, tabs: Tables, k: Key, i: nat, c: Key)
    requires Booted(s, root, tabs) && k in tabs && k.level > 1 && i < 512 && c == Child(k, i)
    ensures tabs[k] + 8 * i + 8 <= |s.mem|
    ensures var e := Word(s.mem, tabs[k] + 8 * i);
            if c in tabs then e != 0 && PageFloor32(Wrap32(e)) == tabs[c] else e == 0
  {
    assert KeyOk(s.mem, tabs, k) && EntryOk(s.mem, tabs, false, k, i);
    if c in tabs {
      assert KeyOk(s.mem, tabs, c);
      LinkFloor(tabs[c]);
    }
  }

  /** One table step, with c the key of the table it makes sure of. */
  lemma EnsureTableLaw(s: Sys, root: nat, tabs: Tables, k: Key, i: nat, c: Key) returns (tabs': Tables)
    requires Booted(s, root, tabs) && k in tabs && k.level > 1 && i < 512 && c == Child(k, i)
    requires FreePages(s.regions) >= Lacks(tabs.Keys, c)
    ensures tabs[k] + 8 * i + 8 <= |s.mem|
    ensures var (s', t) := EnsureTable(s, tabs[k] + 8 * i);
            && Reached(s, tabs, s', tabs', root, {c}, Lacks(tabs.Keys, c))
            && Booted(s', root, tabs') && c in tabs' && tabs'[c] == t && tabs' == WithTable(tabs, c, t)
            && FreePages(s.regions) == FreePages(s'.regions) + Lacks(tabs.Keys, c)
  {
    hide Booted, Tree, Reached, Granted, Allocate, Word, StoreWord, Zeroed, Or, PageFloor32, Child, FreePages;
    RootFits(s, root, tabs);
    FollowSlot(s, root, tabs, k, i, c);
    if c in tabs {
      tabs' := tabs;
      NothingReached(s, root, tabs, c);
    } else {
      GrantLaw(s.regions, 1, Regions.Allocated);
      var (regions, p) := Allocate(s.regions, 1, Regions.Allocated);
      GrantParts(s.regions, regions, p);
      LinkBits(p);
      tabs' := tabs[c := p];
      NewTable(s, root, tabs, k, i, regions, p);
    }
    ReachedCost(s, tabs, EnsureTable(s, tabs[k] + 8 * i).0, tabs', root, {c}, Lacks(tabs.Keys, c));
  }

  lemma NothingReached(s: Sys, root: nat, tabs: Tables, c: Key)
    requires Booted(s, root, tabs) && c in tabs
    ensures Reached(s, tabs, s, tabs, root, {c}, 0)
  {
    hide Booted;
    assert tabs.Keys == tabs.Keys + {c};
  }

  lemma GrantParts(s: seq<Regions.Region>, t: seq<Regions.Region>, p: nat)
    requires Granted(s, t, p, 1, Regions.Allocated)
    ensures p % 0x1000 == 0 && p + 0x1000 <= 0x1_0000_0000
  {
  }

  lemma ReachedCost(s: Sys, tabs: Tables, s': Sys, tabs': Tables, root: nat, path: set<Key>, cost: nat)
    requires Reached(s, tabs, s', tabs', root, path, cost)
    ensures Booted(s', root, tabs') && FreePages(s.regions) == FreePages(s'.regions) + cost
  {
    hide Booted, KeepsPrivate, FreePages, SameLeaves;
  }

  lemma LinkFloor(t: nat)
    requires t % 0x1000 == 0 && t + 0x1000 <= 0x1_0000_0000
    ensures PageFloor32(Wrap32(t + 3)) == t
  {
  }

  lemma TwoIsPow2()
    ensures Pow2(1) == 2
  {
    assert Pow2(0) == 1;
  }

  lemma LinkBits(p: nat)
    requires p % 0x1000 == 0
    ensures Or(Or(p, 0x2), 0x1) == p + 3
  {
    hide Or, Pow2;
    Pow2Values();
    assert Pow2(1) == 2 by { TwoIsPow2(); }
    OrAdds(p, 2, 12, 0x1000);
    OrAdds(p + 2, 1, 1, 2);
  }

  lemma NewTable(s: Sys, root: nat, tabs: Tables, k: Key, i: nat, regions: seq<Regions.Region>, p: nat)
    requires Booted(s, root, tabs) && k in tabs && k.level > 1 && i < 512 && Child(k, i) !in tabs
    requires Granted(s.regions, regions, p, 1, Regions.Allocated) && SlotOf(tabs, k, i) + 8 <= |s.mem|
    ensures var m' := StoreWord(Zeroed(s.mem, p, 0x1000), SlotOf(tabs, k, i), p + 3);
            Reached(s, tabs, Sys(m', regions), tabs[Child(k, i) := p], root, {Child(k, i)}, 1)
  {
    var m' := StoreWord(Zeroed(s.mem, p, 0x1000), SlotOf(tabs, k, i), p + 3);
    var s', tabs' := Sys(m', regions), tabs[Child(k, i) := p];
    NewTableMemory(s, root, tabs, k, i, p);
    forall k' | k' in tabs ensures tabs[k'] != p { FreshApart(s, root, tabs, p, k'); }
    TreeGrows(s.mem, m', tabs, root, false, k, i, p);
    GrownLeaves(s.mem, m', tabs, root, false, k, i, p);
    NewTableOwned(s, root, tabs, Child(k, i), regions, p);
    NewTablePrivate(s, root, tabs, k, i, regions, p);
  }

  lemma NewTableOwned(s: Sys, root: nat, tabs: Tables, c: Key, regions: seq<Regions.Region>, p: nat)
    requires Booted(s, root, tabs) && Granted(s.regions, regions, p, 1, Regions.Allocated)
    ensures var tabs' := tabs[c := p];
            forall m, k {:trigger OwnedTable(Sys(m, regions), tabs', k)} ::
              k in tabs' ==> OwnedTable(Sys(m, regions), tabs', k)
  {
    var tabs' := tabs[c := p];
    forall k | k in tabs' ensures Owned(regions, tabs'[k], 0x1000, Regions.Allocated) {
      if k != c { assert OwnedTable(s, tabs, k); }
    }
  }

  lemma NewTablePrivate(s: Sys, root: nat, tabs: Tables, k: Key, i: nat, regions: seq<Regions.Region>, p: nat)
    requires Booted(s, root, tabs) && k in tabs && k.level > 1 && i < 512
    requires Granted(s.regions, regions, p, 1, Regions.Allocated) && SlotOf(tabs, k, i) + 8 <= |s.mem|
    ensures var m' := StoreWord(Zeroed(s.mem, p, 0x1000), SlotOf(tabs, k, i), p + 3);
            KeepsPrivate(s, tabs, Sys(m', regions), tabs[Child(k, i) := p])
  {
    var m' := StoreWord(Zeroed(s.mem, p, 0x1000), SlotOf(tabs, k, i), p + 3);
    var s', tabs' := Sys(m', regions), tabs[Child(k, i) := p];
    forall a: nat | Private(s, tabs, a) ensures Private(s', tabs', a) && s'.mem[a] == s.mem[a] {
      assert OutOfTable(tabs, k, a);
      assert !(p <= a < p + 0x1000);
      forall k' | k' in tabs' ensures OutOfTable(tabs', k', a) {
        if k' != Child(k, i) { assert OutOfTable(tabs, k', a); }
      }
    }
  }

  // ----- map_page as a whole -----

  /** Tables that mapping page v has to add. */
  function Missing(have: set<Key>, v: nat): nat {
    Lacks(have, Key(3, Prefix(v, 3))) + Lacks(have, Key(2, Prefix(v, 2))) + Lacks(have, Key(1, Prefix(v, 1)))
  }

  /** What mapping page v with entry e does. */
  ghost predicate Mapped(s: Sys, tabs: Tables, s': Sys, tabs': Tables, root: nat, v: nat, e: nat) {
    && Booted(s', root, tabs')
    && tabs'.Keys == tabs.Keys + Path(v)
    && (Leaf(s.mem, tabs, v) != 0 ==> s' == s && tabs' == tabs)
    && (forall u: nat :: Leaf(s'.mem, tabs', u) ==
          if u == v && Leaf(s.mem, tabs, v) == 0 then e else Leaf(s.mem, tabs, u))
    && KeepsPrivate(s, tabs, s', tabs')
    && FreePages(s.regions) == FreePages(s'.regions) + Missing(tabs.Keys, v)
    && |s'.regions| <= |s.regions| + Missing(tabs.Keys, v)
    && (Missing(tabs.Keys, v) == 0 ==> s'.regions == s.regions)
  }

  lemma PathParents(s: Sys, root: nat, tabs: Tables, v: nat)
    requires Booted(s, root, tabs) && v < 0x10_0000_0000
    ensures Key(1, Prefix(v, 1)) in tabs ==> Key(2, Prefix(v, 2)) in tabs
    ensures Key(2, Prefix(v, 2)) in tabs ==> Key(3, Prefix(v, 3)) in tabs
  {
    if Key(1, Prefix(v, 1)) in tabs { NoTableNoChild(s.mem, tabs, root, false, v, 2); }
    if Key(2, Prefix(v, 2)) in tabs { NoTableNoChild(s.mem, tabs, root, false, v, 3); }
  }

  lemma RootFits(s: Sys, root: nat, tabs: Tables)
    requires Booted(s, root, tabs)
    ensures LowMachine(s) && Machine(s) && root % 0x1000 == 0 && root + 0x1000 <= |s.mem|
    ensures Key(4, 0) in tabs && tabs[Key(4, 0)] == root
  {
    assert KeyOk(s.mem, tabs, Key(4, 0));
  }

  lemma ReachedTwice(s: Sys, tabs: Tables, s1: Sys, tabs1: Tables, s2: Sys, tabs2: Tables, root: nat,
                     path: set<Key>, cost: nat, c: Key)
    requires Reached(s, tabs, s1, tabs1, root, path, cost) && c !in path
    requires Reached(s1, tabs1, s2, tabs2, root, {c}, Lacks(tabs1.Keys, c))
    ensures Reached(s, tabs, s2, tabs2, root, path + {c}, cost + Lacks(tabs.Keys, c))
  {
    assert c in tabs1.Keys <==> c in tabs.Keys;
    AdvancedTwice(s, tabs, s1, tabs1, s2, tabs2, root, cost, Lacks(tabs1.Keys, c));
    assert tabs2.Keys == tabs.Keys + (path + {c});
  }

  /** Follow one table step with another, through slot i of table k. */
  lemma StepOn(s: Sys, tabs: Tables, s1: Sys, tabs1: Tables, root: nat, path: set<Key>, cost: nat,
               k: Key, i: nat, c: Key) returns (tabs2: Tables)
    requires Reached(s, tabs, s1, tabs1, root, path, cost) && k in tabs1 && k.level > 1 && i < 512
    requires c == Child(k, i) && c !in path
    requires FreePages(s.regions) >= cost + Lacks(tabs.Keys, c)
    ensures Machine(s1) && tabs1[k] + 8 * i + 8 <= |s1.mem|
    ensures var (s2, t) := EnsureTable(s1, tabs1[k] + 8 * i);
            && Reached(s, tabs, s2, tabs2, root, path + {c}, cost + Lacks(tabs.Keys, c))
            && c in tabs2 && tabs2[c] == t && tabs2 == WithTable(tabs1, c, t)
  {
    assert c in tabs1.Keys <==> c in tabs.Keys;
    tabs2 := EnsureTableLaw(s1, root, tabs1, k, i, c);
    var (s2, t) := EnsureTable(s1, tabs1[k] + 8 * i);
    ReachedTwice(s, tabs, s1, tabs1, s2, tabs2, root, path, cost, c);
  }

  lemma DownUnfolds(s: Sys, root: nat, i4: nat, i3: nat, i2: nat, s1: Sys, pdp: nat, s2: Sys, pd: nat)
    requires Machine(s) && root % 0x1000 == 0 && root + 0x1000 <= |s.mem| && i4 < 512 && i3 < 512 && i2 < 512
    requires EnsureTable(s, root + 8 * i4) == (s1, pdp) && Machine(s1) && pdp + 8 * i3 + 8 <= |s1.mem|
    requires EnsureTable(s1, pdp + 8 * i3) == (s2, pd) && Machine(s2) && pd + 8 * i2 + 8 <= |s2.mem|
    ensures Down(s, root, i4, i3, i2) == EnsureTable(s2, pd + 8 * i2)
  {
    hide EnsureTable;
  }

  lemma DownLaw(s: Sys, root: nat, tabs: Tables, k3: Key, k2: Key, k1: Key, i4: nat, i3: nat, i2: nat)
    returns (tabs': Tables)
    requires Booted(s, root, tabs) && i4 < 512 && i3 < 512 && i2 < 512
    requires k3 == Child(Key(4, 0), i4) && k2 == Child(k3, i3) && k1 == Child(k2, i2)
    requires k3.level == 3 && k2.level == 2 && k1.level == 1
    requires FreePages(s.regions) >= Lacks(tabs.Keys, k3) + Lacks(tabs.Keys, k2) + Lacks(tabs.Keys, k1)
    ensures root % 0x1000 == 0 && root + 0x1000 <= |s.mem|
    ensures var (s', t) := Down(s, root, i4, i3, i2);
            && Reached(s, tabs, s', tabs', root, {k3} + {k2} + {k1},
                       Lacks(tabs.Keys, k3) + Lacks(tabs.Keys, k2) + Lacks(tabs.Keys, k1))
            && k1 in tabs' && tabs'[k1] == t
  {
    hide *;
    RootFits(s, root, tabs);
    var tabs1 := EnsureTableLaw(s, root, tabs, Key(4, 0), i4, k3);
    var (s1, pdp) := EnsureTable(s, root + 8 * i4);
    var tabs2 := StepOn(s, tabs, s1, tabs1, root, {k3}, Lacks(tabs.Keys, k3), k3, i3, k2);
    var (s2, pd) := EnsureTable(s1, pdp + 8 * i3);
    tabs' := StepOn(s, tabs, s2, tabs2, root, {k3} + {k2}, Lacks(tabs.Keys, k3) + Lacks(tabs.Keys, k2), k2, i2, k1);
    DownUnfolds(s, root, i4, i3, i2, s1, pdp, s2, pd);
  }

  predicate Budgeted(s: Sys, tabs: Tables, v: nat) {
    FreePages(s.regions) >= Missing(tabs.Keys, v)
  }

  /** The table steps of `map_page` for page v. */
  lemma TablesLaw(s: Sys, root: nat, tabs: Tables, v: nat) returns (tabs': Tables)
    requires Booted(s, root, tabs) && v < 0x10_0000_0000 && Budgeted(s, tabs, v)
    ensures root % 0x1000 == 0 && root + 0x1000 <= |s.mem|
    ensures var (s', t) := Down(s, root, Index(v, 4), Index(v, 3), Index(v, 2));
            && Reached(s, tabs, s', tabs', root, Path(v), Missing(tabs.Keys, v))
            && Key(1, v / 512) in tabs' && tabs'[Key(1, v / 512)] == t
  {
    PrefixStep(v, 4);
    PrefixStep(v, 3);
    PrefixStep(v, 2);
    assert Prefix(v, 4) == 0;
    var k3, k2, k1 := Key(3, Prefix(v, 3)), Key(2, Prefix(v, 2)), Key(1, Prefix(v, 1));
    assert Path(v) == {k3} + {k2} + {k1};
    assert Missing(tabs.Keys, v) == Lacks(tabs.Keys, k3) + Lacks(tabs.Keys, k2) + Lacks(tabs.Keys, k1);
    assert k1 == Key(1, v / 512);
    assert k3 == Child(Key(4, 0), Index(v, 4)) && k2 == Child(k3, Index(v, 3)) && k1 == Child(k2, Index(v, 2));
    hide *;
    tabs' := DownLaw(s, root, tabs, k3, k2, k1, Index(v, 4), Index(v, 3), Index(v, 2));
  }

  lemma MapPageUnfolds(s: Sys, root: nat, phys: u64, virt: u64, perm: Perm, s3: Sys, pt: nat)
    requires Machine(s) && root % 0x1000 == 0 && root + 0x1000 <= |s.mem|
    requires var v := PageOf(virt); Down(s, root, Index(v, 4), Index(v, 3), Index(v, 2)) == (s3, pt)
    ensures var slot := pt + 8 * Index(PageOf(virt), 1);
            && Machine(s3) && slot + 8 <= |s3.mem|
            && MapPage(s, root, phys, virt, perm) ==
               if Word(s3.mem, slot) != 0 then s3 else s3.(mem := StoreWord(s3.mem, slot, Pte(phys, perm)))
  {
    hide Down, Pte, Word, Index, PageOf, FreeAligned, ShiftIndex;
    IndexShift(virt);
  }

  /** `map_page` writes the entry only where there is none. */
  lemma MapPageLaw(s: Sys, root: nat, tabs: Tables, phys: u64, virt: u64, perm: Perm) returns (tabs': Tables)
    requires Booted(s, root, tabs) && Budgeted(s, tabs, PageOf(virt)) && TablePage(phys)
    ensures Machine(s) && root % 0x1000 == 0 && root + 0x1000 <= |s.mem|
    ensures Mapped(s, tabs, MapPage(s, root, phys, virt, perm), tabs', root, PageOf(virt), Pte(phys, perm))
  {
    hide *;
    var v, e := PageOf(virt), Pte(phys, perm);
    RootFits(s, root, tabs);
    tabs' := TablesLaw(s, root, tabs, v);
    var (s3, pt) := Down(s, root, Index(v, 4), Index(v, 3), Index(v, 2));
    MapPageUnfolds(s, root, phys, virt, perm, s3, pt);
    PteMeans(phys, perm);
    var slot := pt + 8 * Index(v, 1);
    LeafReached(s, tabs, s3, tabs', root, v);
    if Word(s3.mem, slot) != 0 {
      NothingNew(s, tabs, s3, tabs', root, v, e);
    } else {
      PteIsPresent(phys, perm);
      WriteLeaf(s3, root, tabs', v, e);
      MappedAfter(s, tabs, s3, tabs', s3.(mem := StoreWord(s3.mem, slot, e)), root, v, e);
    }
  }

  lemma PteIsPresent(phys: u64, perm: Perm)
    requires TablePage(phys)
    ensures Present(Pte(phys, perm))
  {
    PteMeans(phys, perm);
  }

  lemma LeafReached(s: Sys, tabs: Tables, s3: Sys, tabs': Tables, root: nat, v: nat)
    requires Reached(s, tabs, s3, tabs', root, Path(v), Missing(tabs.Keys, v)) && Key(1, v / 512) in tabs'
    ensures Booted(s3, root, tabs')
    ensures Leaf(s.mem, tabs, v) == Word(s3.mem, tabs'[Key(1, v / 512)] + 8 * Index(v, 1))
  {
    assert Leaf(s3.mem, tabs', v) == Leaf(s.mem, tabs, v);
  }

  lemma NothingNew(s: Sys, tabs: Tables, s3: Sys, tabs': Tables, root: nat, v: nat, e: nat)
    requires Booted(s, root, tabs) && v < 0x10_0000_0000
    requires Reached(s, tabs, s3, tabs', root, Path(v), Missing(tabs.Keys, v)) && Leaf(s.mem, tabs, v) != 0
    ensures Mapped(s, tabs, s3, tabs', root, v, e)
  {
    PathParents(s, root, tabs, v);
  }

  lemma WriteLeaf(s: Sys, root: nat, tabs: Tables, v: nat, e: u64)
    requires Booted(s, root, tabs) && Key(1, v / 512) in tabs && Present(e)
    ensures var slot := tabs[Key(1, v / 512)] + 8 * Index(v, 1);
            && slot + 8 <= |s.mem|
            && var s' := s.(mem := StoreWord(s.mem, slot, e));
               && Booted(s', root, tabs) && KeepsPrivate(s, tabs, s', tabs)
               && forall u: nat :: Leaf(s'.mem, tabs, u) == if u == v then e else Leaf(s.mem, tabs, u)
  {
    var k := Key(1, v / 512);
    var slot := SlotOf(tabs, k, v % 512);
    StoreRewrites(s.mem, tabs, root, false, k, v % 512, e);
    var s' := s.(mem := StoreWord(s.mem, slot, e));
    LeafWrite(s.mem, s'.mem, tabs, root, false, v, e);
    forall k' | k' in tabs ensures OwnedTable(s', tabs, k') { assert OwnedTable(s, tabs, k'); }
    forall a: nat | Private(s, tabs, a) ensures Private(s', tabs, a) && s'.mem[a] == s.mem[a] {
      assert OutOfTable(tabs, k, a);
      forall k' | k' in tabs ensures OutOfTable(tabs, k', a) { assert OutOfTable(tabs, k', a); }
    }
  }

  lemma MappedAfter(s: Sys, tabs: Tables, s1: Sys, tabs': Tables, s': Sys, root: nat, v: nat, e: nat)
    requires Reached(s, tabs, s1, tabs', root, Path(v), Missing(tabs.Keys, v))
    requires Booted(s', root, tabs') && s'.regions == s1.regions && KeepsPrivate(s1, tabs', s', tabs')
    requires Leaf(s.mem, tabs, v) == 0
    requires forall u: nat :: Leaf(s'.mem, tabs', u) == if u == v then e else Leaf(s1.mem, tabs', u)
    ensures Mapped(s, tabs, s', tabs', root, v, e)
  {
    forall x: nat | Private(s, tabs, x) ensures Private(s', tabs', x) && s'.mem[x] == s.mem[x] {
      assert Private(s1, tabs', x);
    }
    forall u: nat ensures Leaf(s'.mem, tabs', u) == if u == v then e else Leaf(s.mem, tabs, u) {
      assert Leaf(s1.mem, tabs', u) == Leaf(s.mem, tabs, u);
    }
  }

  /** `map_page` as a change of translation: it gives the page its frame and
      permissions if it had none, and changes the walk of no other page. */
  lemma MapPageWalks(s: Sys, root: nat, tabs: Tables, phys: u64, virt: u64, perm: Perm, u: nat)
    requires Booted(s, root, tabs) && Budgeted(s, tabs, PageOf(virt)) && TablePage(phys)
    requires u < 0x10_0000_0000
    ensures root % 0x1000 == 0 && root + 0x1000 <= |s.mem|
    ensures Walk(MapPage(s, root, phys, virt, perm).mem, root, 4, u) ==
            if u == PageOf(virt) && Walk(s.mem, root, 4, u) == None
            then Some(Trans(phys, perm.write, !perm.exec)) else Walk(s.mem, root, 4, u)
  {
    var tabs' := MapPageLaw(s, root, tabs, phys, virt, perm);
    PteMeans(phys, perm);
    WalkIsLeaf(s.mem, tabs, root, false, u);
    WalkIsLeaf(MapPage(s, root, phys, virt, perm).mem, tabs', root, false, u);
    LeafZero(s.mem, tabs, root, false, u);
  }
}
