/** `map_page` (64-bit branch, Kickstart/Multiboot/pager.c:54-153) as a function
    of physical memory and the region list, and what it does to translation. */
module Paging {
  import opened Bits
  import opened Options
  import opened Memory
  import opened PageTables
  import opened RegionOps
  import opened PageBudget
  import Regions

  /** Kickstart's machine: 4 GiB of memory and the allocator's list. */
  datatype Sys = Sys(mem: Mem, regions: seq<Regions.Region>)

  datatype Perm = Perm(read: bool, write: bool, exec: bool)

  predicate Machine(s: Sys) {
    |s.mem| == 0x1_0000_0000 && FreeAligned(s.regions)
  }

  /** ... with all memory the allocator may hand out below 4 GiB. */
  predicate LowMachine(s: Sys) {
    Machine(s) && Ready(s.regions)
  }

  /** The code's index expression `(virt_addr >> shift) & 0x1FF`. */
  function ShiftIndex(virt: u64, shift: nat): (i: nat)
    ensures i < 512
  {
    AndLowMask(Shr(virt, shift), 9);
    Pow2Values();
    And(Shr(virt, shift), 0x1FF)
  }

  lemma IndexShift(virt: u64)
    ensures ShiftIndex(virt, 12) == Index(PageOf(virt), 1)
    ensures ShiftIndex(virt, 21) == Index(PageOf(virt), 2)
    ensures ShiftIndex(virt, 30) == Index(PageOf(virt), 3)
    ensures ShiftIndex(virt, 39) == Index(PageOf(virt), 4)
    ensures ShiftIndex(virt, 12) == virt / 0x1000 % 0x200 && ShiftIndex(virt, 21) == virt / 0x20_0000 % 0x200
    ensures ShiftIndex(virt, 30) == virt / 0x4000_0000 % 0x200 && ShiftIndex(virt, 39) == virt / 0x80_0000_0000 % 0x200
  {
    Pow2Values();
    AndLowMask(Shr(virt, 12), 9);
    AndLowMask(Shr(virt, 21), 9);
    AndLowMask(Shr(virt, 30), 9);
    AndLowMask(Shr(virt, 39), 9);
    PageDigits(virt);
  }

  lemma PageDigits(a: nat)
    ensures a / 0x1000 % 0x200 == Index(PageOf(a), 1)
    ensures a / 0x20_0000 % 0x200 == Index(PageOf(a), 2)
    ensures a / 0x4000_0000 % 0x200 == Index(PageOf(a), 3)
    ensures a / 0x80_0000_0000 % 0x200 == Index(PageOf(a), 4)
  {
    var p := a / 0x1000;
    Regroup(a);
    CanonicalDigits(p / 0x10_0000_0000, PageOf(a));
    assert p == 0x10_0000_0000 * (p / 0x10_0000_0000) + PageOf(a);
  }

  lemma Regroup(a: nat)
    ensures a / 0x20_0000 == a / 0x1000 / 0x200
    ensures a / 0x4000_0000 == a / 0x1000 / 0x4_0000
    ensures a / 0x80_0000_0000 == a / 0x1000 / 0x800_0000
  {
  }

  /** Bits above the 36 of the page number do not reach the four indices. */
  lemma CanonicalDigits(h: nat, v: nat)
    requires v < 0x10_0000_0000
    ensures (0x10_0000_0000 * h + v) % 0x200 == v % 0x200
    ensures (0x10_0000_0000 * h + v) / 0x200 % 0x200 == v / 0x200 % 0x200
    ensures (0x10_0000_0000 * h + v) / 0x4_0000 % 0x200 == v / 0x4_0000 % 0x200
    ensures (0x10_0000_0000 * h + v) / 0x800_0000 % 0x200 == v / 0x800_0000 % 0x200
  {
    MultipleOut(0x800_0000 * h, v, 0x200);
    MultipleOut(0x4_0000 * h, v, 0x4_0000);
    MultipleOut(0x200 * h, v, 0x800_0000);
    MultipleOut(0x4_0000 * h, v / 0x200, 0x200);
    MultipleOut(0x200 * h, v / 0x4_0000, 0x200);
    MultipleOut(h, v / 0x800_0000, 0x200);
  }

  /** The page-table entry `map_page` composes from address and permissions. */
  function Pte(phys: u64, perm: Perm): nat {
    var e := Or(phys, 0x1);
    var e := if perm.write then Or(e, 0x2) else e;
    if !perm.exec then Or(e, Shl(1, 63)) else e
  }

  lemma PteMeans(phys: u64, perm: Perm)
    requires TablePage(phys)
    ensures Pte(phys, perm) < 0x1_0000_0000_0000_0000
    ensures LeafTrans(Pte(phys, perm)) == Some(Trans(phys, perm.write, !perm.exec))
  {
    PteSum(phys, perm);
    PteFields(phys, perm.write, !perm.exec);
  }

  lemma PteSum(phys: u64, perm: Perm)
    requires TablePage(phys)
    ensures Pte(phys, perm) ==
            phys + 1 + (if perm.write then 2 else 0) + (if perm.exec then 0 else 0x8000_0000_0000_0000)
  {
    Pow2Values();
    OrAdds(phys, 1, 12, 0x1000);
    SecondBit(phys);
    var e := phys + 1 + if perm.write then 2 else 0;
    OrAdds(0x8000_0000_0000_0000, e, 63, 0x8000_0000_0000_0000);
  }

  lemma SecondBit(phys: nat)
    requires phys % 0x1000 == 0
    ensures Or(phys + 1, 2) == phys + 3
  {
    var q := phys / 2;
    assert Or(phys + 1, 2) == 1 + 2 * Or((phys + 1) / 2, 1);
    assert (phys + 1) / 2 == q && q % 2 == 0;
    assert Or(q, 1) == 1 + 2 * Or(q / 2, 0) by { assert 1 / 2 == 0; }
  }

  lemma PteFields(phys: nat, w: bool, nx: bool)
    requires TablePage(phys)
    ensures LeafTrans(phys + 1 + (if w then 2 else 0) + (if nx then 0x8000_0000_0000_0000 else 0)) ==
            Some(Trans(phys, w, nx))
  {
    var flags := 1 + if w then 2 else 0;
    EntryFields(phys / 0x1000, flags);
    if nx { AddNoExec(phys + flags); }
  }

  /** Follow the entry at `slot`, allocating, clearing and linking a new table
      if it is zero. The allocator's result is not tested. */
  function EnsureTable(s: Sys, slot: nat): (r: (Sys, nat))
    requires Machine(s) && slot + 8 <= |s.mem|
    ensures Machine(r.0) && r.1 % 0x1000 == 0 && r.1 + 0x1000 <= |r.0.mem|
  {
    var e := Word(s.mem, slot);
    if e != 0 then (s, PageFloor32(Wrap32(e))) else
      var (regions, p) := AllocateTable(s);
      var entry := Or(Or(p, 0x2), 0x1);
      (Sys(StoreWord(Zeroed(s.mem, p, 0x1000), slot, entry), regions), p)
  }

  /** `pmm_allocate_region(1)`. */
  function AllocateTable(s: Sys): (r: (seq<Regions.Region>, u32))
    requires Machine(s)
    ensures FreeAligned(r.0) && r.1 % 0x1000 == 0 && r.1 + 0x1000 <= 0x1_0000_0000
  {
    AllocateAligned(s.regions, 1, Regions.Allocated);
    Allocate(s.regions, 1, Regions.Allocated)
  }

  /** All three table steps, through slots i4, i3 and i2. */
  function Down(s: Sys, root: nat, i4: nat, i3: nat, i2: nat): (r: (Sys, nat))
    requires Machine(s) && root % 0x1000 == 0 && root + 0x1000 <= |s.mem| && i4 < 512 && i3 < 512 && i2 < 512
    ensures Machine(r.0) && r.1 % 0x1000 == 0 && r.1 + 0x1000 <= |r.0.mem|
  {
    var (s1, pdp) := EnsureTable(s, root + 8 * i4);
    var (s2, pd) := EnsureTable(s1, pdp + 8 * i3);
    EnsureTable(s2, pd + 8 * i2)
  }

  function MapPage(s: Sys, root: nat, phys: u64, virt: u64, perm: Perm): (r: Sys)
    requires Machine(s) && root % 0x1000 == 0 && root + 0x1000 <= |s.mem|
    ensures Machine(r)
  {
    var (s3, pt) := Down(s, root, ShiftIndex(virt, 39), ShiftIndex(virt, 30), ShiftIndex(virt, 21));
    var slot := pt + 8 * ShiftIndex(virt, 12);
    if Word(s3.mem, slot) != 0 then s3
    else s3.(mem := StoreWord(s3.mem, slot, Pte(phys, perm)))
  }

  // ----- the state the pager keeps -----

  /** The bytes [p, p+n) have one type in the allocator's map. */
  ghost predicate Owned(regions: seq<Regions.Region>, p: nat, n: nat, k: Regions.Kind) {
    forall a :: p <= a < p + n ==> Regions.TypeAt(regions, a) == Some(k)
  }

  /** A tree whose tables the allocator knows to be taken. */
  ghost predicate Booted(s: Sys, root: nat, tabs: Tables) {
    && LowMachine(s) && Tree(s.mem, tabs, root, false)
    && forall k {:trigger OwnedTable(s, tabs, k)} :: k in tabs ==> OwnedTable(s, tabs, k)
  }

  ghost predicate OwnedTable(s: Sys, tabs: Tables, k: Key)
    requires k in tabs
  {
    Owned(s.regions, tabs[k], 0x1000, Regions.Allocated)
  }

  /** A byte that belongs neither to the allocator nor to a table. */
  ghost predicate Private(s: Sys, tabs: Tables, a: nat) {
    && a < |s.mem| && Regions.TypeAt(s.regions, a).Some?
    && Regions.TypeAt(s.regions, a) != Some(Regions.Available)
    && forall k {:trigger OutOfTable(tabs, k, a)} :: k in tabs ==> OutOfTable(tabs, k, a)
  }

  predicate OutOfTable(tabs: Tables, k: Key, a: nat)
    requires k in tabs
  {
    !(tabs[k] <= a < tabs[k] + 0x1000)
  }

  /** Private bytes stay private and keep their value. */
  ghost predicate KeepsPrivate(s: Sys, tabs: Tables, s': Sys, tabs': Tables) {
    && |s'.mem| == |s.mem|
    && forall a: nat :: Private(s, tabs, a) ==> Private(s', tabs', a) && s'.mem[a] == s.mem[a]
  }

  /** Keys on the path of page v, below the top table. */
  function Path(v: nat): set<Key> {
    {Key(3, Prefix(v, 3)), Key(2, Prefix(v, 2)), Key(1, Prefix(v, 1))}
  }
}
