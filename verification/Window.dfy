/** The recursive window on the page tables: slot 510 of the top table holds the
    top table's own frame, and shift-and-mask arithmetic on an address yields
    the virtual address of each table that translates it
    (Kernel/Arch/x86_64/memory-manager.c:27-62, 80-84). */
module Window {
  import opened Bits
  import opened Options
  import opened Memory
  import opened PageTables

  // ----- the window's addresses, as the code computes them -----

  const FRACTAL_MAP_PML4_IDX: nat := 510

  function PtBase(): u64 { 0xFFFF_FF00_0000_0000 }

  function PdBase(): u64 { 0xFFFF_FF7F_8000_0000 }

  function PdpBase(): u64 { 0xFFFF_FF7F_BFC0_0000 }

  function Pml4Base(): u64 { 0xFFFF_FF7F_BFDF_E000 }

  /** The constants are the sums of shifted slot numbers. */
  lemma BasesAre()
    ensures PtBase() == 0xFFFF_0000_0000_0000 + Shl(510, 39)
    ensures PdBase() == PtBase() + Shl(510, 30)
    ensures PdpBase() == PdBase() + Shl(510, 21)
    ensures Pml4Base() == PdpBase() + Shl(510, 12)
  {
    Pow2Values();
  }

  function GetPml4(addr: u64): nat { Pml4Base() }

  function GetPdpt(addr: u64): nat { PdpBase() + And(Shr(addr, 27), 0x1F_F000) }

  function GetPd(addr: u64): nat { PdBase() + And(Shr(addr, 18), 0x3FFF_F000) }

  function GetPt(addr: u64): nat { PtBase() + And(Shr(addr, 9), 0x7F_FFFF_F000) }

  /** Window address of the table of a level. */
  function WindowOf(addr: u64, level: nat): nat
    requires 1 <= level <= 4
  {
    if level == 1 then GetPt(addr) else if level == 2 then GetPd(addr)
    else if level == 3 then GetPdpt(addr) else GetPml4(addr)
  }

  /** The page it lies in. */
  function WindowPage(v: nat, level: nat): nat
    requires 1 <= level <= 4
  {
    if level == 1 then 510 * 0x800_0000 + v / 0x200
    else if level == 2 then 510 * 0x800_0000 + 510 * 0x4_0000 + v / 0x4_0000
    else if level == 3 then 510 * 0x800_0000 + 510 * 0x4_0000 + 510 * 0x200 + v / 0x800_0000
    else 510 * 0x800_0000 + 510 * 0x4_0000 + 510 * 0x200 + 510
  }

  lemma MaskedFields(a: u64)
    ensures And(Shr(a, 27), 0x1F_F000) == a / 0x80_0000_0000 % 0x200 * 0x1000
    ensures And(Shr(a, 18), 0x3FFF_F000) == a / 0x4000_0000 % 0x4_0000 * 0x1000
    ensures And(Shr(a, 9), 0x7F_FFFF_F000) == a / 0x20_0000 % 0x800_0000 * 0x1000
  {
    Pow2Values();
    AndField(Shr(a, 27), 12, 9);
    AndField(Shr(a, 18), 12, 18);
    AndField(Shr(a, 9), 12, 27);
    ShiftTwice(a);
  }

  lemma ShiftTwice(a: nat)
    ensures a / 0x800_0000 / 0x1000 == a / 0x80_0000_0000
    ensures a / 0x4_0000 / 0x1000 == a / 0x4000_0000
    ensures a / 0x200 / 0x1000 == a / 0x20_0000
  {
  }

  lemma TopDigits(a: u64)
    ensures a / 0x20_0000 % 0x800_0000 == PageOf(a) / 0x200
    ensures a / 0x4000_0000 % 0x4_0000 == PageOf(a) / 0x4_0000
    ensures a / 0x80_0000_0000 % 0x200 == PageOf(a) / 0x800_0000
  {
    var p := a / 0x1000;
    assert a / 0x20_0000 == p / 0x200 && a / 0x4000_0000 == p / 0x4_0000 && a / 0x80_0000_0000 == p / 0x800_0000;
    TopDigitsOf(p / 0x10_0000_0000, PageOf(a));
    assert p == 0x10_0000_0000 * (p / 0x10_0000_0000) + PageOf(a);
  }

  lemma TopDigitsOf(h: nat, v: nat)
    requires v < 0x10_0000_0000
    ensures (0x10_0000_0000 * h + v) / 0x200 % 0x800_0000 == v / 0x200
    ensures (0x10_0000_0000 * h + v) / 0x4_0000 % 0x4_0000 == v / 0x4_0000
    ensures (0x10_0000_0000 * h + v) / 0x800_0000 % 0x200 == v / 0x800_0000
  {
    MultipleOut(0x800_0000 * h, v, 0x200);
    MultipleOut(0x4_0000 * h, v, 0x4_0000);
    MultipleOut(0x200 * h, v, 0x800_0000);
    DivUnique(0x800_0000 * h + v / 0x200, 0x800_0000, h, v / 0x200);
    DivUnique(0x4_0000 * h + v / 0x4_0000, 0x4_0000, h, v / 0x4_0000);
    DivUnique(0x200 * h + v / 0x800_0000, 0x200, h, v / 0x800_0000);
  }

  /** An address in the upper half from its page number. */
  lemma HighPage(w: nat)
    requires w < 0x10_0000_0000
    ensures PageOf(0xFFFF_0000_0000_0000 + 0x1000 * w) == w
  {
    DivUnique(0xFFFF_0000_0000_0000 + 0x1000 * w, 0x1000, 0xF_FFF0_0000_0000 + w, 0);
    DivUnique(0xF_FFF0_0000_0000 + w, 0x10_0000_0000, 0xFFFF, w);
  }

  lemma WindowSums(a: u64, level: nat)
    requires 1 <= level <= 4
    ensures WindowPage(PageOf(a), level) < 0x10_0000_0000
    ensures WindowOf(a, level) == 0xFFFF_0000_0000_0000 + 0x1000 * WindowPage(PageOf(a), level)
  {
    hide And, Shr, PageOf;
    MaskedFields(a);
    TopDigits(a);
  }

  /** The shift-and-mask form: page-aligned, inside the window, in that page. */
  lemma WindowAddress(a: u64, level: nat)
    requires 1 <= level <= 4
    ensures WindowOf(a, level) % 0x1000 == 0 && WindowOf(a, level) + 0x1000 <= 0x1_0000_0000_0000_0000
    ensures PageOf(WindowOf(a, level)) == WindowPage(PageOf(a), level)
  {
    hide WindowOf, WindowPage, PageOf;
    WindowSums(a, level);
    var w := WindowPage(PageOf(a), level);
    HighPage(w);
    DivUnique(WindowOf(a, level), 0x1000, 0xF_FFF0_0000_0000 + w, 0);
  }

  /** The indices of a window page: slot 510 as often as needed, then the
      indices of the address itself, shifted down. */
  lemma WindowIndices(v: nat)
    requires v < 0x10_0000_0000
    ensures var w := WindowPage(v, 1);
            Index(w, 4) == 510 && Index(w, 3) == Index(v, 4) && Index(w, 2) == Index(v, 3) && Index(w, 1) == Index(v, 2)
    ensures var w := WindowPage(v, 2);
            Index(w, 4) == 510 && Index(w, 3) == 510 && Index(w, 2) == Index(v, 4) && Index(w, 1) == Index(v, 3)
    ensures var w := WindowPage(v, 3);
            Index(w, 4) == 510 && Index(w, 3) == 510 && Index(w, 2) == 510 && Index(w, 1) == Index(v, 4)
    ensures var w := WindowPage(v, 4);
            Index(w, 4) == 510 && Index(w, 3) == 510 && Index(w, 2) == 510 && Index(w, 1) == 510
  {
    WindowIndices1(v);
    WindowIndices2(v);
    WindowIndices3(v);
  }

  lemma WindowIndices1(v: nat)
    requires v < 0x10_0000_0000
    ensures var w := 510 * 0x800_0000 + v / 0x200;
            Index(w, 4) == 510 && Index(w, 3) == Index(v, 4) && Index(w, 2) == Index(v, 3) && Index(w, 1) == Index(v, 2)
  {
    var f := v / 0x200;
    assert (510 * 0x800_0000 + f) / 0x800_0000 == 510;
    assert (510 * 0x800_0000 + f) / 0x4_0000 == 510 * 0x200 + f / 0x4_0000 && f / 0x4_0000 == v / 0x800_0000;
    assert (510 * 0x800_0000 + f) / 0x200 == 510 * 0x4_0000 + f / 0x200 && f / 0x200 == v / 0x4_0000;
  }

  lemma WindowIndices2(v: nat)
    requires v < 0x10_0000_0000
    ensures var w := 510 * 0x800_0000 + 510 * 0x4_0000 + v / 0x4_0000;
            Index(w, 4) == 510 && Index(w, 3) == 510 && Index(w, 2) == Index(v, 4) && Index(w, 1) == Index(v, 3)
  {
    var f := v / 0x4_0000;
    var w := 510 * 0x800_0000 + 510 * 0x4_0000 + f;
    assert w / 0x800_0000 == 510;
    assert w / 0x4_0000 == 510 * 0x200 + 510;
    assert w / 0x200 == 510 * 0x4_0000 + 510 * 0x200 + f / 0x200 && f / 0x200 == v / 0x800_0000;
  }

  lemma WindowIndices3(v: nat)
    requires v < 0x10_0000_0000
    ensures var w := 510 * 0x800_0000 + 510 * 0x4_0000 + 510 * 0x200 + v / 0x800_0000;
            Index(w, 4) == 510 && Index(w, 3) == 510 && Index(w, 2) == 510 && Index(w, 1) == Index(v, 4)
  {
    var f := v / 0x800_0000;
    var w := 510 * 0x800_0000 + 510 * 0x4_0000 + 510 * 0x200 + f;
    assert w / 0x800_0000 == 510;
    assert w / 0x4_0000 == 510 * 0x200 + 510;
    assert w / 0x200 == 510 * 0x4_0000 + 510 * 0x200 + 510;
  }

  // ----- the structural walk -----

  predicate Link(e: nat) { Present(e) && !Large(e) }

  /** The entry the ordinary walk of v reads at a level. */
  function EntryRead(m: Mem, root: nat, v: nat, level: nat): Option<nat>
    requires 1 <= level <= 4
    decreases 4 - level
  {
    if level == 4 then Some(Word(m, root + 8 * Index(v, 4))) else
      match EntryRead(m, root, v, level + 1)
      case None => None
      case Some(e) => if Link(e) then Some(Word(m, FrameOf(e) + 8 * Index(v, level))) else None
  }

  /** The table frame it uses at a level. */
  function TableFrame(m: Mem, root: nat, v: nat, level: nat): Option<nat>
    requires 1 <= level <= 4
  {
    if level == 4 then Some(root) else
      match EntryRead(m, root, v, level + 1)
      case None => None
      case Some(e) => if Link(e) then Some(FrameOf(e)) else None
  }

  /** Slot 510 of the table at root holds root. */
  predicate Recursive(m: Mem, root: nat) {
    TablePage(root) && Word(m, root + 8 * 510) == RecursiveEntry(root)
  }

  lemma RecursiveFields(root: nat)
    requires TablePage(root)
    ensures var e := RecursiveEntry(root);
            Present(e) && !Large(e) && Writable(e) && NoExec(e) && FrameOf(e) == root
  {
    LinkEntry(root);
    assert root + 3 < 0x10_0000_0000_0000;
    AddNoExec(root + 3);
  }

  function FrameAt(w: Option<Trans>): Option<nat> {
    match w
    case None => None
    case Some(t) => Some(t.frame)
  }

  lemma ThroughSelf(m: Mem, root: nat, level: nat, w: nat)
    requires Recursive(m, root) && 1 <= level <= 4 && Index(w, level) == 510
    ensures level > 1 ==> FrameAt(Walk(m, root, level, w)) == FrameAt(Walk(m, root, level - 1, w))
    ensures level == 1 ==> FrameAt(Walk(m, root, level, w)) == Some(root)
  {
    RecursiveFields(root);
  }

  lemma ThroughEntry(m: Mem, table: nat, level: nat, w: nat)
    requires 2 <= level <= 4
    ensures var e := Word(m, table + 8 * Index(w, level));
            FrameAt(Walk(m, table, level, w)) ==
            if Link(e) then FrameAt(Walk(m, FrameOf(e), level - 1, w)) else None
  {
  }

  /** The window refines the walk: in any memory with the recursive slot, the
      window address of each level translates to exactly the frame named by the
      entry that the ordinary walk of the address reads one level up, and to
      nothing where that walk does not get so far. */
  lemma WindowWalk(m: Mem, root: nat, a: u64, level: nat)
    requires Recursive(m, root) && 1 <= level <= 4
    ensures FrameAt(Walk(m, root, 4, PageOf(WindowOf(a, level)))) ==
            if level == 4 then Some(root) else
              match EntryRead(m, root, PageOf(a), level + 1)
              case None => None
              case Some(e) => if Present(e) then Some(FrameOf(e)) else None
  {
    hide Index, Walk, WindowPage, WindowOf, PageOf, Recursive;
    var v := PageOf(a);
    WindowAddress(a, level);
    WindowIndices(v);
    var w := WindowPage(v, level);
    ThroughSelf(m, root, 4, w);
    if level == 4 {
      ThroughSelf(m, root, 3, w);
      ThroughSelf(m, root, 2, w);
      ThroughSelf(m, root, 1, w);
    } else if level == 3 {
      ThroughSelf(m, root, 3, w);
      ThroughSelf(m, root, 2, w);
      LastEntry(m, root, w);
    } else if level == 2 {
      ThroughSelf(m, root, 3, w);
      WindowTwo(m, root, v, w);
    } else {
      WindowThree(m, root, v, w);
    }
  }

  lemma LastEntry(m: Mem, table: nat, w: nat)
    ensures var e := Word(m, table + 8 * Index(w, 1));
            FrameAt(Walk(m, table, 1, w)) == if Present(e) then Some(FrameOf(e)) else None
  {
  }

  lemma WindowTwo(m: Mem, root: nat, v: nat, w: nat)
    requires Index(w, 2) == Index(v, 4) && Index(w, 1) == Index(v, 3)
    ensures FrameAt(Walk(m, root, 2, w)) ==
            match EntryRead(m, root, v, 3)
            case None => None
            case Some(e) => if Present(e) then Some(FrameOf(e)) else None
  {
    hide Index, Walk;
    ThroughEntry(m, root, 2, w);
    var e4 := Word(m, root + 8 * Index(v, 4));
    assert EntryRead(m, root, v, 4) == Some(e4);
    LastEntry(m, FrameOf(e4), w);
  }

  lemma WindowThree(m: Mem, root: nat, v: nat, w: nat)
    requires Index(w, 3) == Index(v, 4) && Index(w, 2) == Index(v, 3) && Index(w, 1) == Index(v, 2)
    ensures FrameAt(Walk(m, root, 3, w)) ==
            match EntryRead(m, root, v, 2)
            case None => None
            case Some(e) => if Present(e) then Some(FrameOf(e)) else None
  {
    hide Index, Walk;
    ThroughEntry(m, root, 3, w);
    var e4 := Word(m, root + 8 * Index(v, 4));
    assert EntryRead(m, root, v, 4) == Some(e4);
    ThroughEntry(m, FrameOf(e4), 2, w);
    var e3 := Word(m, FrameOf(e4) + 8 * Index(v, 3));
    assert Link(e4) ==> EntryRead(m, root, v, 3) == Some(e3);
    LastEntry(m, FrameOf(e3), w);
  }

  /** In the words of the code: where the upper levels are present, the window
      address of a level leads to the table the ordinary walk uses there. */
  lemma WindowIsTable(m: Mem, root: nat, a: u64, level: nat)
    requires Recursive(m, root) && 1 <= level <= 4 && TableFrame(m, root, PageOf(a), level).Some?
    ensures FrameAt(Walk(m, root, 4, PageOf(WindowOf(a, level)))) == TableFrame(m, root, PageOf(a), level)
  {
    hide Walk, WindowOf, PageOf, Recursive;
    WindowWalk(m, root, a, level);
  }

  // ----- installing the slot -----

  /** `NX_BIT | bootstrap_kernel | PAGE_WRITABLE | PAGE_PRESENT`. */
  function FractalEntry(root: u64): nat {
    Or(Or(Or(Shl(1, 63), root), 0x2), 0x1)
  }

  lemma FractalEntryIs(root: u64)
    requires TablePage(root)
    ensures FractalEntry(root) == RecursiveEntry(root)
  {
    hide Or, Shl, Pow2;
    ShlOne();
    OrAdds(0x8000_0000_0000_0000, root, 63, 0x8000_0000_0000_0000);
    OrAdds(0x8000_0000_0000_0000 + root, 2, 12, 0x1000);
    OrAdds(0x8000_0000_0000_0000 + root + 2, 1, 1, 2);
  }

  lemma ShlOne()
    ensures Shl(1, 63) == 0x8000_0000_0000_0000 == Pow2(63) && Pow2(12) == 0x1000 && Pow2(1) == 2
  {
    Pow2Values();
    assert Pow2(0) == 1;
  }

  /** Filling an empty slot 510 keeps the tree well formed and changes the walk
      of no page outside that slot. */
  lemma InstallSlot(m: Mem, tabs: Tables, root: nat, v: nat)
    requires Tree(m, tabs, root, false) && Word(m, root + 8 * 510) == 0
    requires v < 0x10_0000_0000 && Index(v, 4) != 510
    ensures root + 0x1000 <= |m| && TablePage(root)
    ensures var m' := StoreWord(m, root + 8 * 510, FractalEntry(root));
            && Tree(m', tabs, root, true) && Recursive(m', root)
            && Walk(m', root, 4, v) == Walk(m, root, 4, v)
  {
    hide Walk, Index;
    assert KeyOk(m, tabs, Key(4, 0));
    FractalEntryIs(root);
    InstalledTree(m, tabs, root);
    var m' := StoreWord(m, root + 8 * 510, RecursiveEntry(root));
    WalkIsLeaf(m, tabs, root, false, v);
    WalkIsLeaf(m', tabs, root, true, v);
  }

  lemma InstalledTree(m: Mem, tabs: Tables, root: nat)
    requires Tree(m, tabs, root, false) && Word(m, root + 8 * 510) == 0 && root + 0x1000 <= |m| && TablePage(root)
    ensures var m' := StoreWord(m, root + 8 * 510, RecursiveEntry(root));
            && Tree(m', tabs, root, true) && Recursive(m', root)
            && forall u: nat :: Leaf(m', tabs, u) == Leaf(m, tabs, u)
  {
    var k := Key(4, 0);
    var m' := StoreWord(m, root + 8 * 510, RecursiveEntry(root));
    assert RecursiveEntry(root) < 0x1_0000_0000_0000_0000;
    StoreRewrites(m, tabs, root, false, k, 510, RecursiveEntry(root));
    assert SlotOf(tabs, k, 510) == root + 8 * 510;
    assert EntryOk(m, tabs, false, k, 510);
    WordStored(m, root + 8 * 510, RecursiveEntry(root));
    forall k' | k' in tabs ensures KeyOk(m', tabs, k') { assert KeyOk(m, tabs, k'); }
    forall a, b | a in tabs && b in tabs ensures OneOwner(tabs, a, b) { assert OneOwner(tabs, a, b); }
    forall k', i' | k' in tabs && 0 <= i' < 512 ensures EntryOk(m', tabs, true, k', i') {
      assert KeyOk(m, tabs, k') && EntryOk(m, tabs, false, k', i');
    }
  }
}
