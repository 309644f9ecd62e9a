/** Kickstart's pager as it runs: 4 GiB of memory and the region table, changed
    in place (Kickstart/Multiboot/pager.c). */
module Pager {
  import opened Bits
  import opened Bytes
  import opened Options
  import opened Memory
  import opened PageTables
  import opened RegionOps
  import opened PageBudget
  import opened Paging
  import opened PagingLaws
  import opened MapRuns
  import opened PagerInit
  import opened Pmm
  import ElfLoad
  import Regions

  /** Array slots `map_page` takes: one per table from the first missing one down. */
  function Adds(s: Sys, root: nat, virt: u64): nat
    requires Machine(s) && root % 0x1000 == 0 && root + 0x1000 <= |s.mem|
  {
    var e4 := Word(s.mem, root + 8 * ShiftIndex(virt, 39));
    if e4 == 0 then 3 else
      var e3 := Word(s.mem, PageFloor32(Wrap32(e4)) + 8 * ShiftIndex(virt, 30));
      if e3 == 0 then 2 else
        var e2 := Word(s.mem, PageFloor32(Wrap32(e3)) + 8 * ShiftIndex(virt, 21));
        if e2 == 0 then 1 else 0
  }

  lemma PathChildren(v: nat)
    requires v < 0x10_0000_0000
    ensures Child(Key(4, 0), Index(v, 4)) == Key(3, Prefix(v, 3))
    ensures Child(Key(3, Prefix(v, 3)), Index(v, 3)) == Key(2, Prefix(v, 2))
    ensures Child(Key(2, Prefix(v, 2)), Index(v, 2)) == Key(1, Prefix(v, 1))
  {
    PrefixStep(v, 4);
    PrefixStep(v, 3);
    PrefixStep(v, 2);
    assert Prefix(v, 4) == 0;
  }

  /** On a well-formed tree the code allocates exactly the tables that are missing. */
  lemma AddsIsMissing(s: Sys, root: nat, tabs: Tables, virt: u64)
    requires Booted(s, root, tabs)
    ensures Machine(s) && root % 0x1000 == 0 && root + 0x1000 <= |s.mem|
    ensures Adds(s, root, virt) == Missing(tabs.Keys, PageOf(virt))
  {
    hide Booted, Word, PageFloor32, Prefix, Index, Child, PageOf, ShiftIndex;
    var v := PageOf(virt);
    RootFits(s, root, tabs);
    IndexShift(virt);
    PathParents(s, root, tabs, v);
    PathChildren(v);
    var k3, k2, k1 := Key(3, Prefix(v, 3)), Key(2, Prefix(v, 2)), Key(1, Prefix(v, 1));
    FollowSlot(s, root, tabs, Key(4, 0), Index(v, 4), k3);
    if k3 in tabs {
      FollowSlot(s, root, tabs, k3, Index(v, 3), k2);
      if k2 in tabs { FollowSlot(s, root, tabs, k2, Index(v, 2), k1); }
    }
  }

  datatype PageType = Paging32Bit | Paging64Bit

  class PagingMachine {
    const mem: array<byte>
    const pmm: RegionTable
    var top_page_structure: nat

    ghost predicate Valid()
      reads this, pmm
    {
      mem.Length == 0x1_0000_0000 && pmm.Valid()
    }

    ghost function State(): Sys
      requires Valid()
      reads this, mem, pmm, pmm.regions
    {
      Sys(mem[..], pmm.List())
    }

    constructor (mem: array<byte>, pmm: RegionTable)
      requires mem.Length == 0x1_0000_0000 && pmm.Valid()
      ensures Valid() && this.mem == mem && this.pmm == pmm
    {
      this.mem, this.pmm, top_page_structure := mem, pmm, 0;
    }

    method LoadWord(a: nat) returns (w: nat)
      requires Valid() && a + 8 <= mem.Length
      ensures w == Word(mem[..], a)
    {
      w := ReadWord(mem, a);
    }

    /** `memcpy` of a 64-bit word to memory. */
    method PutWord(a: nat, w: nat)
      requires Valid() && a + 8 <= mem.Length
      modifies mem
      ensures mem[..] == StoreWord(old(mem[..]), a, w)
    {
      WriteWord(mem, a, w);
    }

    method Memset(a: nat, n: nat)
      requires Valid() && a + n <= mem.Length
      modifies mem
      ensures mem[..] == Zeroed(old(mem[..]), a, n)
    {
      ghost var m := mem[..];
      for i := 0 to n
        invariant forall x :: 0 <= x < mem.Length ==> mem[x] == if a <= x < a + i then 0 else m[x]
      {
        mem[a + i] := 0;
      }
      assert mem[..] == Store(m, a, Zeros(n));
    }

    method Memcpy(dst: nat, src: nat, n: nat)
      requires Valid() && dst + n <= mem.Length
      modifies mem
      ensures mem[..] == ElfLoad.CopyForward(old(mem[..]), dst, src, n)
    {
      for i := 0 to n
        invariant mem[..] == ElfLoad.CopyForward(old(mem[..]), dst, src, i)
      {
        ghost var r := mem[..];
        mem[dst + i] := mem[(src + i) % mem.Length];
        assert mem[..] == r[dst + i := r[(src + i) % |r|]];
      }
    }

    /** Make sure of the table behind a slot. */
    method Ensure(slot: nat) returns (table: nat)
      requires Valid() && Machine(State()) && slot + 8 <= mem.Length
      requires Word(mem[..], slot) == 0 ==> pmm.count < MAX_REGIONS
      modifies mem, pmm, pmm.regions
      ensures Valid() && (State(), table) == EnsureTable(old(State()), slot)
      ensures Word(old(mem[..]), slot) != 0 ==> pmm.count == old(pmm.count)
      ensures pmm.count <= old(pmm.count) + 1
    {
      hide RegionOps.Allocate, FreeAligned, Word, StoreWord, Zeroed, Or, PageFloor32, Wrap32;
      ghost var s := State();
      var e := LoadWord(slot);
      if e == 0 {
        AllocationGrows(s.regions, 1, Regions.Allocated);
        table := pmm.AllocateRegionWithType(1, Regions.Allocated);
        assert AllocateTable(s) == (pmm.List(), table);
        Memset(table, 0x1000);
        PutWord(slot, Or(Or(table, 0x2), 0x1));
      } else {
        table := PageFloor32(Wrap32(e));
      }
    }

    method MapPage(phys: u64, virt: u64, perm: Perm)
      requires Valid() && Machine(State())
      requires top_page_structure % 0x1000 == 0 && top_page_structure + 0x1000 <= mem.Length
      requires pmm.count + Adds(State(), top_page_structure, virt) <= MAX_REGIONS
      modifies mem, pmm, pmm.regions
      ensures Valid() && State() == Paging.MapPage(old(State()), top_page_structure, phys, virt, perm)
      ensures pmm.count <= old(pmm.count) + old(Adds(State(), top_page_structure, virt))
    {
      hide Down, ShiftIndex, Pte, Word, FreeAligned, Adds;
      var pt := Descend(virt);
      var slot := pt + 8 * ShiftIndex(virt, 12);
      var pte := LoadWord(slot);
      if pte != 0 {
        return;
      }
      PutWord(slot, Pte(phys, perm));
    }

    method InitializePager(page_type: PageType) returns (ok: bool)
      requires Valid() && PagerFits(State()) && pmm.count < MAX_REGIONS
      modifies this, mem, pmm, pmm.regions
      ensures Valid() && Machine(State())
      ensures page_type == Paging32Bit ==> !ok && State() == old(State())
      ensures page_type == Paging64Bit ==>
                (State(), if ok then Some(top_page_structure) else None) == PagerInit.InitializePager(old(State()))
    {
      if page_type == Paging32Bit {
        return false;
      }
      ghost var s := State();
      var p := pmm.AllocateRegionWithType(4, Regions.Allocated);
      assert AllocateFirst(s) == (pmm.List(), p);
      top_page_structure := p;
      if top_page_structure == 0 {
        return false;
      }
      ChainFirstTables();
      FirstLinks(s.mem, p);
      MapIdentity();
      return true;
    }

    /** Clear the four tables and chain them. */
    method ChainFirstTables()
      requires Valid() && top_page_structure + 0x4000 <= mem.Length
      modifies mem
      ensures mem[..] == FirstTables(old(mem[..]), top_page_structure)
    {
      var pml4_addr := top_page_structure;
      Memset(pml4_addr, 0x4000);
      var ident_pdp_addr := pml4_addr + 0x1000;
      var ident_pd_addr := ident_pdp_addr + 0x1000;
      var ident_pt_addr := ident_pd_addr + 0x1000;
      PutWord(pml4_addr, Or(Or(ident_pdp_addr, 0x2), 0x1));
      PutWord(ident_pdp_addr, Or(Or(ident_pd_addr, 0x2), 0x1));
      PutWord(ident_pd_addr, Or(Or(ident_pt_addr, 0x2), 0x1));
    }

    /** The loop over the low 2 MiB. */
    method MapIdentity()
      requires Valid() && Machine(State()) && Linked(mem[..], top_page_structure)
      modifies mem, pmm, pmm.regions
      ensures Valid() && Machine(State())
      ensures State() == MapAll(old(State()), top_page_structure, IdentityReqs(0))
    {
      hide IdentityReqs, Linked, Paging.MapPage, FreeAligned, Adds, Word;
      ghost var root := top_page_structure;
      LinkedFits(mem[..], root);
      var page := 0x0;
      while page < 0x20_0000
        invariant page % 0x1000 == 0 && page <= 0x20_0000
        invariant Valid() && Machine(State()) && Linked(mem[..], root)
        invariant MapAll(State(), root, IdentityReqs(page / 0x1000)) == MapAll(old(State()), root, IdentityReqs(0))
      {
        var i := page / 0x1000;
        ghost var s := State();
        LinkedStep(s, root, i);
        MapPage(page, page, Perm(true, true, true));
        IdentityStep(s, root, i);
        page := page + 0x1000;
      }
      IdentityEnd(State(), root);
    }

    /** The three table steps. */
    method Descend(virt: u64) returns (pt: nat)
      requires Valid() && Machine(State())
      requires top_page_structure % 0x1000 == 0 && top_page_structure + 0x1000 <= mem.Length
      requires pmm.count + Adds(State(), top_page_structure, virt) <= MAX_REGIONS
      modifies mem, pmm, pmm.regions
      ensures Valid() && Machine(State()) && pt % 0x1000 == 0 && pt + 0x1000 <= mem.Length
      ensures (State(), pt) ==
              Down(old(State()), top_page_structure,
                   ShiftIndex(virt, 39), ShiftIndex(virt, 30), ShiftIndex(virt, 21))
      ensures pmm.count <= old(pmm.count) + old(Adds(State(), top_page_structure, virt))
    {
      hide EnsureTable, FreeAligned, Down, ShiftIndex, Word, PageFloor32;
      ghost var s, root := State(), top_page_structure;
      var slot4 := top_page_structure + 8 * ShiftIndex(virt, 39);
      EnsureFollows(s, slot4);
      var pdp := Ensure(slot4);
      ghost var s1 := State();
      EnsureFollows(s1, pdp + 8 * ShiftIndex(virt, 30));
      var pd := Ensure(pdp + 8 * ShiftIndex(virt, 30));
      ghost var s2 := State();
      pt := Ensure(pd + 8 * ShiftIndex(virt, 21));
      DownUnfolds(s, root, ShiftIndex(virt, 39), ShiftIndex(virt, 30), ShiftIndex(virt, 21), s1, pdp, s2, pd);
    }
  }

  lemma EnsureFollows(s: Sys, slot: nat)
    requires Machine(s) && slot + 8 <= |s.mem|
    ensures var (s', t) := EnsureTable(s, slot);
            && Machine(s') && t % 0x1000 == 0 && t + 0x1000 <= |s'.mem|
            && (Word(s.mem, slot) != 0 ==> s' == s && t == PageFloor32(Wrap32(Word(s.mem, slot))))
  {
  }

  /** The first table leads through slot 0 to the second, and so on to the fourth. */
  predicate Linked(m: Mem, root: nat) {
    && 0 < root && root % 0x1000 == 0 && root + 0x4000 <= |m| == 0x1_0000_0000
    && Word(m, root) == root + 0x1003
    && Word(m, root + 0x1000) == root + 0x2003
    && Word(m, root + 0x2000) == root + 0x3003
  }

  lemma LinkedFits(m: Mem, root: nat)
    requires Linked(m, root)
    ensures root % 0x1000 == 0 && root + 0x4000 <= 0x1_0000_0000
  {
  }

  lemma FirstLinks(m: Mem, p: nat)
    requires |m| == 0x1_0000_0000 && 0 < p && p % 0x1000 == 0 && p + 0x4000 <= |m|
    ensures Linked(FirstTables(m, p), p)
  {
    hide Word, StoreWord, Zeroed;
    LinkBits(p + 0x1000);
    LinkBits(p + 0x2000);
    LinkBits(p + 0x3000);
    var m0 := Zeroed(m, p, 0x4000);
    var m1 := StoreWord(m0, p, p + 0x1003);
    var m2 := StoreWord(m1, p + 0x1000, p + 0x2003);
    var m3 := StoreWord(m2, p + 0x2000, p + 0x3003);
    WordStored(m0, p, p + 0x1003);
    WordStored(m1, p + 0x1000, p + 0x2003);
    WordStored(m2, p + 0x2000, p + 0x3003);
    WordBeside(m1, p + 0x1000, p + 0x2003, p);
    WordBeside(m2, p + 0x2000, p + 0x3003, p);
    WordBeside(m2, p + 0x2000, p + 0x3003, p + 0x1000);
  }

  lemma LinkedDown(s: Sys, root: nat)
    requires Machine(s) && Linked(s.mem, root)
    ensures root + 0x1000 <= |s.mem| && root % 0x1000 == 0
    ensures Down(s, root, 0, 0, 0) == (s, root + 0x3000)
  {
    hide Word, FreeAligned, PageFloor32, EnsureTable, Wrap32;
    LinkFloor(root + 0x1000);
    LinkFloor(root + 0x2000);
    LinkFloor(root + 0x3000);
    EnsureFollows(s, root);
    EnsureFollows(s, root + 0x1000);
    EnsureFollows(s, root + 0x2000);
  }

  lemma LinkedAdds(s: Sys, root: nat, virt: u64)
    requires Machine(s) && Linked(s.mem, root) && root + 0x1000 <= |s.mem|
    requires ShiftIndex(virt, 39) == 0 && ShiftIndex(virt, 30) == 0 && ShiftIndex(virt, 21) == 0
    ensures Adds(s, root, virt) == 0
  {
    hide Word, FreeAligned, PageFloor32, Wrap32, ShiftIndex;
    LinkFloor(root + 0x1000);
    LinkFloor(root + 0x2000);
  }

  /** Mapping a low page through the four tables adds none and keeps the links. */
  lemma LinkedStep(s: Sys, root: nat, i: nat)
    requires Machine(s) && Linked(s.mem, root) && i < 512
    ensures root + 0x1000 <= |s.mem| && root % 0x1000 == 0
    ensures Adds(s, root, i * 0x1000) == 0
    ensures Linked(Paging.MapPage(s, root, i * 0x1000, i * 0x1000, Perm(true, true, true)).mem, root)
  {
    hide Word, StoreWord, ShiftIndex, Index, Pte, FreeAligned, Down, Adds;
    IndexShift(i * 0x1000);
    LowIndices(i);
    LinkedAdds(s, root, i * 0x1000);
    LinkedDown(s, root);
    var slot, w := root + 0x3000 + 8 * i, Pte(i * 0x1000, Perm(true, true, true));
    WordBeside(s.mem, slot, w, root);
    WordBeside(s.mem, slot, w, root + 0x1000);
    WordBeside(s.mem, slot, w, root + 0x2000);
  }

  lemma LowIndices(i: nat)
    requires i < 512
    ensures var v := PageOf(i * 0x1000); Index(v, 4) == 0 && Index(v, 3) == 0 && Index(v, 2) == 0 && Index(v, 1) == i
  {
    LowPage(i);
  }

  lemma IdentityStep(s: Sys, root: nat, i: nat)
    requires Machine(s) && root % 0x1000 == 0 && root + 0x1000 <= 0x1_0000_0000 && i < 512
    ensures var t := Paging.MapPage(s, root, i * 0x1000, i * 0x1000, Perm(true, true, true));
            MapAll(s, root, IdentityReqs(i)) == MapAll(t, root, IdentityReqs(i + 1))
  {
    hide Paging.MapPage, FreeAligned;
    var r := IdentityReqs(i);
    assert r[1..] == IdentityReqs(i + 1);
  }

  lemma IdentityEnd(s: Sys, root: nat)
    requires Machine(s) && root % 0x1000 == 0 && root + 0x1000 <= 0x1_0000_0000
    ensures MapAll(s, root, IdentityReqs(512)) == s
  {
    assert IdentityReqs(512) == [];
  }
}
