/** `virt_map_pages_kernel_end` (Kernel/Arch/x86_64/memory-manager.c:389-461):
    pages mapped at the end of the kernel through the recursive window. Every
    access of the code goes through the walk of the processor. */
module KernelMap {
  import opened Bits
  import opened Options
  import opened Memory
  import opened PageTables
  import opened Paging
  import opened PagerInit
  import opened Window

  /** Memory and `kernel_end_addr`. */
  datatype Kern = Kern(mem: Mem, end: u64)

  /** All pages mapped, NULL returned, or an access that does not translate. */
  datatype Outcome = Mapped | Refused | Fault

  // ----- virtual accesses -----

  function VLoad(m: Mem, root: nat, a: nat): Option<nat> {
    match Walk(m, root, 4, PageOf(a))
    case None => None
    case Some(t) => Some(Word(m, t.frame + a % 0x1000))
  }

  function VStore(m: Mem, root: nat, a: nat, w: nat): Option<Mem> {
    match Walk(m, root, 4, PageOf(a))
    case None => None
    case Some(t) =>
      if t.writable && t.frame + a % 0x1000 + 8 <= |m| then Some(StoreWord(m, t.frame + a % 0x1000, w)) else None
  }

  // ----- the code -----

  /** One turn of the loop. Absent entries of the two middle levels are not
      refused: the next access goes through them. */
  function MapOne(k: Kern, root: nat, phys: u64, perm: Perm): (Kern, Outcome) {
    match VLoad(k.mem, root, GetPml4(k.end) + 8 * ShiftIndex(k.end, 39))
    case None => (k, Fault)
    case Some(pml4e) =>
      if !Present(pml4e) then (k, Refused) else
        match VLoad(k.mem, root, GetPdpt(k.end) + 8 * ShiftIndex(k.end, 30))
        case None => (k, Fault)
        case Some(pdpe) =>
          match VLoad(k.mem, root, GetPd(k.end) + 8 * ShiftIndex(k.end, 21))
          case None => (k, Fault)
          case Some(pde) =>
            match VLoad(k.mem, root, GetPt(k.end) + 8 * ShiftIndex(k.end, 12))
            case None => (k, Fault)
            case Some(pte) =>
              if Present(pte) then (k, Refused) else
                match VStore(k.mem, root, GetPt(k.end) + 8 * ShiftIndex(k.end, 12), Pte(phys, perm))
                case None => (k, Fault)
                case Some(m) => (Kern(m, Wrap64(k.end + 0x1000)), Mapped)
  }

  function MapEnd(k: Kern, root: nat, phys: u64, n: nat, perm: Perm): (Kern, Outcome)
    decreases n
  {
    if n == 0 then (k, Mapped) else
      var (k1, o) := MapOne(k, root, phys, perm);
      if o != Mapped then (k1, o) else MapEnd(k1, root, Wrap64(phys + 0x1000), n - 1, perm)
  }

  // ----- the window on a well-formed tree -----

  predicate Follows(v: nat, level: nat, w: nat, l: nat)
    requires 1 <= l < level <= 4
  {
    && Index(w, l) == Index(v, level)
    && (l >= 2 ==> Index(w, l - 1) == Index(v, level - 1))
    && (l >= 3 ==> Index(w, l - 2) == Index(v, level - 2))
  }

  function TableTrans(tabs: Tables, k: Key, nx: bool): Option<Trans> {
    if k in tabs then Some(Trans(tabs[k], true, nx)) else None
  }

  lemma TableEntry(m: Mem, tabs: Tables, root: nat, v: nat, level: nat)
    requires Tree(m, tabs, root, true) && Ordinary(v, true) && 2 <= level <= 4
    requires Key(level, Prefix(v, level)) in tabs
    ensures var k, c := Key(level, Prefix(v, level)), Key(level - 1, Prefix(v, level - 1));
            var e := Word(m, tabs[k] + 8 * Index(v, level));
            if c in tabs then TablePage(tabs[c]) && e == tabs[c] + 3 else e == 0
  {
    var k := Key(level, Prefix(v, level));
    PrefixStep(v, level);
    assert KeyOk(m, tabs, k);
    assert EntryOk(m, tabs, true, k, Index(v, level));
    if Child(k, Index(v, level)) in tabs { assert KeyOk(m, tabs, Child(k, Index(v, level))); }
  }

  lemma LastWalk(m: Mem, table: nat, w: nat, t: nat)
    ensures Word(m, table + 8 * Index(w, 1)) == 0 ==> Walk(m, table, 1, w) == None
    ensures TablePage(t) && Word(m, table + 8 * Index(w, 1)) == t + 3 ==>
        Walk(m, table, 1, w) == Some(Trans(t, true, false))
  {
    if TablePage(t) { LinkEntry(t); }
  }

  /** A walk that enters the tree one or more levels late ends that many levels early, at a table. */
  lemma {:induction false} LateWalk(m: Mem, tabs: Tables, root: nat, v: nat, level: nat, w: nat, l: nat)
    requires Tree(m, tabs, root, true) && Ordinary(v, true) && 1 <= l < level <= 4
    requires Key(level, Prefix(v, level)) in tabs && Follows(v, level, w, l)
    ensures Walk(m, tabs[Key(level, Prefix(v, level))], l, w) ==
            TableTrans(tabs, Key(level - l, Prefix(v, level - l)), false)
    decreases l
  {
    hide Walk, Tree, Word, Index, Prefix;
    var k, c := Key(level, Prefix(v, level)), Key(level - 1, Prefix(v, level - 1));
    TableEntry(m, tabs, root, v, level);
    if l == 1 {
      LastWalk(m, tabs[k], w, if c in tabs then tabs[c] else 0);
    } else if c in tabs {
      WalkThroughLink(m, tabs[k], l, w, tabs[c]);
      LateWalk(m, tabs, root, v, level - 1, w, l - 1);
    } else {
      WalkStopsAtZero(m, tabs[k], l, w);
      NoTableBelow(m, tabs, root, v, level - 1, level - l);
    }
  }

  lemma {:induction false} NoTableBelow(m: Mem, tabs: Tables, root: nat, v: nat, level: nat, low: nat)
    requires Tree(m, tabs, root, true) && 1 <= low <= level <= 3 && Key(level, Prefix(v, level)) !in tabs
    ensures Key(low, Prefix(v, low)) !in tabs
  {
    hide Prefix;
    if low < level {
      if Key(level - 1, Prefix(v, level - 1)) in tabs { NoTableNoChild(m, tabs, root, true, v, level); }
      NoTableBelow(m, tabs, root, v, level - 1, low);
    }
  }

  function ThroughSlot(w: Option<Trans>): Option<Trans> {
    match w
    case None => None
    case Some(t) => Some(Trans(t.frame, t.writable, true))
  }

  lemma SelfWalk(m: Mem, root: nat, level: nat, w: nat)
    requires Recursive(m, root) && 1 <= level <= 4 && Index(w, level) == 510
    ensures level > 1 ==> Walk(m, root, level, w) == ThroughSlot(Walk(m, root, level - 1, w))
    ensures level == 1 ==> Walk(m, root, level, w) == Some(Trans(root, true, true))
  {
    RecursiveFields(root);
  }

  lemma TreeRecursive(m: Mem, tabs: Tables, root: nat)
    requires Tree(m, tabs, root, true)
    ensures Recursive(m, root)
  {
    assert KeyOk(m, tabs, Key(4, 0)) && EntryOk(m, tabs, true, Key(4, 0), 510);
  }

  /** On a well-formed tree the window page of each level translates, writable,
      to the table of that level, and to nothing where there is none. */
  lemma TreeWindow(m: Mem, tabs: Tables, root: nat, v: nat, level: nat)
    requires Tree(m, tabs, root, true) && Ordinary(v, true) && 1 <= level <= 4
    ensures Walk(m, root, 4, WindowPage(v, level)) == TableTrans(tabs, Key(level, Prefix(v, level)), true)
  {
    hide Walk, Index, WindowPage, Recursive;
    TreeRecursive(m, tabs, root);
    WindowIndices(v);
    var w := WindowPage(v, level);
    assert Prefix(v, 4) == 0;
    SelfWalk(m, root, 4, w);
    if level == 4 {
      SelfWalk(m, root, 3, w);
      SelfWalk(m, root, 2, w);
      SelfWalk(m, root, 1, w);
    } else if level == 3 {
      SelfWalk(m, root, 3, w);
      SelfWalk(m, root, 2, w);
      LateWalk(m, tabs, root, v, 4, w, 1);
    } else if level == 2 {
      SelfWalk(m, root, 3, w);
      LateWalk(m, tabs, root, v, 4, w, 2);
    } else {
      LateWalk(m, tabs, root, v, 4, w, 3);
    }
  }

  lemma SlotInPage(b: nat, i: nat)
    requires b % 0x1000 == 0 && i < 512
    ensures PageOf(b + 8 * i) == PageOf(b) && (b + 8 * i) % 0x1000 == 8 * i
  {
    DivUnique(b + 8 * i, 0x1000, b / 0x1000, 8 * i);
  }

  /** Loads and stores through the window are loads and stores in the table. */
  lemma WindowAccess(m: Mem, tabs: Tables, root: nat, a: u64, level: nat, i: nat, e: nat)
    requires Tree(m, tabs, root, true) && Ordinary(PageOf(a), true) && 1 <= level <= 4 && i < 512
    ensures var k := Key(level, Prefix(PageOf(a), level));
            && VLoad(m, root, WindowOf(a, level) + 8 * i) == (if k in tabs then Some(Ent(m, tabs, k, i)) else None)
            && (k in tabs ==> SlotOf(tabs, k, i) + 8 <= |m|)
            && VStore(m, root, WindowOf(a, level) + 8 * i, e) ==
               (if k in tabs then Some(StoreWord(m, SlotOf(tabs, k, i), e)) else None)
  {
    hide Walk, WindowOf, WindowPage, PageOf, Prefix;
    WindowAddress(a, level);
    SlotInPage(WindowOf(a, level), i);
    TreeWindow(m, tabs, root, PageOf(a), level);
    var k := Key(level, Prefix(PageOf(a), level));
    if k in tabs { assert KeyOk(m, tabs, k); }
  }

  // ----- one page -----

  /** Nothing stands in the way of page v. */
  predicate Free(m: Mem, tabs: Tables, v: nat) {
    Key(1, Prefix(v, 1)) in tabs && Leaf(m, tabs, v) == 0
  }

  /** How the code stops at a page that is not free. */
  function Obstacle(tabs: Tables, v: nat): Outcome {
    if Key(3, Prefix(v, 3)) !in tabs || Key(1, Prefix(v, 1)) in tabs then Refused else Fault
  }

  lemma UpperFree(m: Mem, tabs: Tables, root: nat, v: nat)
    requires Tree(m, tabs, root, true) && Ordinary(v, true)
    ensures Key(4, 0) in tabs
    ensures Present(Ent(m, tabs, Key(4, 0), Index(v, 4))) <==> Key(3, Prefix(v, 3)) in tabs
    ensures Key(1, Prefix(v, 1)) in tabs ==> Key(2, Prefix(v, 2)) in tabs
    ensures Key(2, Prefix(v, 2)) in tabs ==> Key(3, Prefix(v, 3)) in tabs
    ensures Key(1, Prefix(v, 1)) in tabs ==>
              && Ent(m, tabs, Key(1, Prefix(v, 1)), Index(v, 1)) == Leaf(m, tabs, v)
              && (Present(Leaf(m, tabs, v)) <==> Leaf(m, tabs, v) != 0)
  {
    assert Prefix(v, 4) == 0;
    TableEntry(m, tabs, root, v, 4);
    if Key(3, Prefix(v, 3)) in tabs { LinkEntry(tabs[Key(3, Prefix(v, 3))]); }
    if Key(1, Prefix(v, 1)) in tabs {
      NoTableNoChild(m, tabs, root, true, v, 2);
      assert EntryOk(m, tabs, true, Key(1, v / 512), v % 512);
    }
    if Key(2, Prefix(v, 2)) in tabs { NoTableNoChild(m, tabs, root, true, v, 3); }
  }

  /** One turn: the entry is written exactly when the page is free. */
  lemma MapOneIs(k: Kern, tabs: Tables, root: nat, phys: u64, perm: Perm)
    requires Tree(k.mem, tabs, root, true) && Ordinary(PageOf(k.end), true)
    ensures var v := PageOf(k.end);
            var kt := Key(1, Prefix(v, 1));
            && (kt in tabs ==> SlotOf(tabs, kt, Index(v, 1)) + 8 <= |k.mem|)
            && MapOne(k, root, phys, perm) ==
               if Free(k.mem, tabs, v)
               then (Kern(StoreWord(k.mem, SlotOf(tabs, kt, Index(v, 1)), Pte(phys, perm)),
                          Wrap64(k.end + 0x1000)), Mapped)
               else (k, Obstacle(tabs, v))
  {
    hide PageOf, ShiftIndex, VLoad, VStore, GetPml4, GetPdpt, GetPd, GetPt, Pte, Prefix, Index, Tree, Leaf;
    hide Present, Ordinary;
    var v := PageOf(k.end);
    IndexShift(k.end);
    WindowOfIs(k.end);
    var e := Pte(phys, perm);
    WindowAccess(k.mem, tabs, root, k.end, 4, Index(v, 4), e);
    WindowAccess(k.mem, tabs, root, k.end, 3, Index(v, 3), e);
    WindowAccess(k.mem, tabs, root, k.end, 2, Index(v, 2), e);
    WindowAccess(k.mem, tabs, root, k.end, 1, Index(v, 1), e);
    UpperFree(k.mem, tabs, root, v);
    assert Prefix(v, 4) == 0 by { TopPrefix(k.end); }
  }

  lemma TopPrefix(a: nat)
    ensures Prefix(PageOf(a), 4) == 0
  {
  }

  lemma WindowOfIs(a: u64)
    ensures WindowOf(a, 4) == GetPml4(a) && WindowOf(a, 3) == GetPdpt(a) && WindowOf(a, 2) == GetPd(a)
    ensures WindowOf(a, 1) == GetPt(a)
  {
  }

  // ----- what a written entry changes -----

  /** Walks that start high enough never read a page table. */
  lemma {:induction false} UpperStable(m: Mem, m': Mem, tabs: Tables, root: nat, p: nat, i: nat, e: nat,
                                       k: Key, level: nat, u: nat)
    requires Tree(m, tabs, root, true) && Rewritten(m, m', tabs, Key(1, p), i, e)
    requires k in tabs && 1 <= level < k.level <= 4
    ensures Walk(m', tabs[k], level, u) == Walk(m, tabs[k], level, u)
    decreases level
  {
    hide *;
    var j := Index(u, level);
    SlotKept(m, m', tabs, root, p, i, e, k, j);
    var f := Ent(m, tabs, k, j);
    WalkReads(m, tabs, k, level, u);
    WalkReads(m', tabs, k, level, u);
    if level > 1 && Link(f) {
      if k.level == 4 && j == 510 {
        UpperStable(m, m', tabs, root, p, i, e, k, level - 1, u);
      } else {
        UpperStable(m, m', tabs, root, p, i, e, Child(k, j), level - 1, u);
      }
    }
  }

  lemma WalkReads(m: Mem, tabs: Tables, k: Key, level: nat, u: nat)
    requires k in tabs && 1 <= level <= 4
    ensures var e := Ent(m, tabs, k, Index(u, level));
            Walk(m, tabs[k], level, u) ==
            if level == 1 then LeafTrans(e)
            else if !Link(e) then None
            else Through(e, Walk(m, FrameOf(e), level - 1, u))
  {
    hide Index, Word;
  }

  function Through(e: nat, w: Option<Trans>): Option<Trans> {
    match w
    case None => None
    case Some(x) => Some(Trans(x.frame, x.writable && Writable(e), x.noexec || NoExec(e)))
  }

  /** A slot of an upper table is not the one that changes; it leads to a table one level down, or back. */
  lemma SlotKept(m: Mem, m': Mem, tabs: Tables, root: nat, p: nat, i: nat, e: nat, k: Key, j: nat)
    requires Tree(m, tabs, root, true) && Rewritten(m, m', tabs, Key(1, p), i, e)
    requires k in tabs && 1 < k.level && j < 512
    ensures k.level <= 4 && Ent(m', tabs, k, j) == Ent(m, tabs, k, j)
    ensures var f := Ent(m, tabs, k, j);
            Link(f) ==> if k.level == 4 && j == 510 then FrameOf(f) == tabs[k]
                        else Child(k, j) in tabs && Child(k, j).level == k.level - 1 && FrameOf(f) == tabs[Child(k, j)]
  {
    assert EntryOk(m, tabs, true, k, j) && KeyOk(m, tabs, k);
    if k.level == 4 && j == 510 {
      RecursiveFields(tabs[k]);
    } else if Child(k, j) in tabs {
      assert KeyOk(m, tabs, Child(k, j));
      LinkEntry(tabs[Child(k, j)]);
    }
  }

  /** The window's own walks survive a page-table write. */
  lemma WindowStable(m: Mem, m': Mem, tabs: Tables, root: nat, p: nat, i: nat, e: nat, u: nat)
    requires Tree(m, tabs, root, true) && Tree(m', tabs, root, true) && Rewritten(m, m', tabs, Key(1, p), i, e)
    requires Index(u, 4) == 510
    ensures Walk(m', root, 4, u) == Walk(m, root, 4, u)
  {
    hide Walk, Index, Recursive;
    TreeRecursive(m, tabs, root);
    TreeRecursive(m', tabs, root);
    SelfWalk(m, root, 4, u);
    SelfWalk(m', root, 4, u);
    UpperStable(m, m', tabs, root, p, i, e, Key(4, 0), 3, u);
  }

  /** Pages [v, v + j) translate to the frames from phys on, all others as before. */
  ghost predicate Extended(m: Mem, m': Mem, root: nat, v: nat, j: nat, phys: nat, perm: Perm) {
    && |m'| == |m|
    && forall u: nat {:trigger Walk(m', root, 4, u)} :: u < 0x10_0000_0000 ==>
         Walk(m', root, 4, u) ==
         if v <= u < v + j then Some(Trans(phys + 0x1000 * (u - v), perm.write, !perm.exec)) else Walk(m, root, 4, u)
  }

  /** The same of the entries, and of memory outside the tables. */
  ghost predicate Written(m: Mem, m': Mem, tabs: Tables, v: nat, j: nat, phys: nat, perm: Perm) {
    && (forall u: nat {:trigger Leaf(m', tabs, u)} :: !(v <= u < v + j) ==> Leaf(m', tabs, u) == Leaf(m, tabs, u))
    && |m'| == |m|
    && forall a: nat {:trigger NoTable(tabs, a)} :: a < |m| && NoTable(tabs, a) ==> m'[a] == m[a]
  }

  ghost predicate NoTable(tabs: Tables, a: nat) {
    forall k {:trigger OutOfTable(tabs, k, a)} :: k in tabs ==> OutOfTable(tabs, k, a)
  }

  lemma OnePage(m: Mem, tabs: Tables, root: nat, v: nat, phys: u64, perm: Perm)
    requires Tree(m, tabs, root, true) && Ordinary(v, true) && TablePage(phys) && Free(m, tabs, v)
    ensures SlotOf(tabs, Key(1, Prefix(v, 1)), Index(v, 1)) + 8 <= |m|
    ensures var m' := StoreWord(m, SlotOf(tabs, Key(1, Prefix(v, 1)), Index(v, 1)), Pte(phys, perm));
            && Tree(m', tabs, root, true) && Extended(m, m', root, v, 1, phys, perm)
            && Written(m, m', tabs, v, 1, phys, perm)
  {
    hide Walk, Pte, Tree, Leaf, Rewritten, StoreWord, LeafTrans, Present, Word;
    var k, i, e := Key(1, v / 512), v % 512, Pte(phys, perm);
    PteMeans(phys, perm);
    StoreRewrites(m, tabs, root, true, k, i, e);
    var m' := StoreWord(m, SlotOf(tabs, k, i), e);
    PtePresent(e);
    LeafWrite(m, m', tabs, root, true, v, e);
    forall u: nat {:trigger Walk(m', root, 4, u)} | u < 0x10_0000_0000
      ensures Walk(m', root, 4, u) ==
              if v <= u < v + 1 then Some(Trans(phys + 0x1000 * (u - v), perm.write, !perm.exec))
              else Walk(m, root, 4, u)
    {
      if Index(u, 4) == 510 {
        WindowStable(m, m', tabs, root, v / 512, i, e, u);
      } else {
        WalkIsLeaf(m, tabs, root, true, u);
        WalkIsLeaf(m', tabs, root, true, u);
      }
    }
    StoredInTable(m, tabs, k, i, e);
  }

  lemma PtePresent(e: nat)
    requires LeafTrans(e) != None
    ensures Present(e)
  {
  }

  lemma StoredInTable(m: Mem, tabs: Tables, k: Key, i: nat, e: nat)
    requires k in tabs && i < 512 && SlotOf(tabs, k, i) + 8 <= |m|
    ensures forall a: nat {:trigger NoTable(tabs, a)} :: a < |m| && NoTable(tabs, a) ==>
              StoreWord(m, SlotOf(tabs, k, i), e)[a] == m[a]
  {
    forall a: nat {:trigger NoTable(tabs, a)} | a < |m| && NoTable(tabs, a)
      ensures StoreWord(m, SlotOf(tabs, k, i), e)[a] == m[a]
    {
      assert OutOfTable(tabs, k, a);
    }
  }

  // ----- the loop -----

  /** How many of the n pages from v on are free before the first that is not. */
  function FreeRun(m: Mem, tabs: Tables, v: nat, n: nat): (j: nat)
    ensures j <= n
    ensures j == n <==> forall u: nat :: v <= u < v + n ==> Free(m, tabs, u)
    decreases n
  {
    if n == 0 || !Free(m, tabs, v) then 0 else 1 + FreeRun(m, tabs, v + 1, n - 1)
  }

  ghost predicate AllOrdinary(v: nat, n: nat) {
    forall u :: v <= u < v + n ==> Ordinary(u, true)
  }

  /** The range stands clear of wrap-around and of the window's slot. */
  ghost predicate Fits(k: Kern, phys: u64, n: nat) {
    && k.end % 0x1000 == 0 && phys % 0x1000 == 0
    && k.end + 0x1000 * n < 0x1_0000_0000_0000_0000 && phys + 0x1000 * n <= 0x10_0000_0000_0000
    && AllOrdinary(PageOf(k.end), n)
  }

  lemma NextPage(k: Kern, phys: u64, n: nat)
    requires Fits(k, phys, n) && n > 0
    ensures k.end + 0x1000 < 0x1_0000_0000_0000_0000 && TablePage(phys) && Ordinary(PageOf(k.end), true)
    ensures n > 1 ==> PageOf(k.end + 0x1000) == PageOf(k.end) + 1
    ensures (k.end + 0x1000) % 0x1000 == 0 && (phys + 0x1000) % 0x1000 == 0
    ensures k.end + 0x1000 + 0x1000 * (n - 1) < 0x1_0000_0000_0000_0000
    ensures phys + 0x1000 + 0x1000 * (n - 1) <= 0x10_0000_0000_0000
    ensures AllOrdinary(PageOf(k.end) + 1, n - 1)
  {
    var v, q := PageOf(k.end), k.end / 0x1000;
    assert 0x1000 * n >= 0x1000;
    assert (k.end + 0x1000) / 0x1000 == q + 1;
    if n > 1 {
      assert Ordinary(v + 1, true);
      assert q == 0x10_0000_0000 * (q / 0x10_0000_0000) + v;
      DivUnique(q + 1, 0x10_0000_0000, q / 0x10_0000_0000, v + 1);
    }
  }

  lemma FreeLater(m: Mem, m': Mem, tabs: Tables, v: nat, n: nat, phys: nat, perm: Perm)
    requires Written(m, m', tabs, v, 1, phys, perm)
    ensures FreeRun(m', tabs, v + 1, n) == FreeRun(m, tabs, v + 1, n)
  {
    FreeSame(m, m', tabs, v + 1, n);
  }

  lemma {:induction false} FreeSame(m: Mem, m': Mem, tabs: Tables, v: nat, n: nat)
    requires forall u: nat {:trigger Leaf(m', tabs, u)} :: u >= v ==> Leaf(m', tabs, u) == Leaf(m, tabs, u)
    ensures FreeRun(m', tabs, v, n) == FreeRun(m, tabs, v, n)
    decreases n
  {
    hide Leaf;
    if n > 0 {
      assert Leaf(m', tabs, v) == Leaf(m, tabs, v);
      FreeSame(m, m', tabs, v + 1, n - 1);
    }
  }

  lemma Compose(m: Mem, m1: Mem, m2: Mem, tabs: Tables, root: nat, v: nat, j: nat, phys: nat, perm: Perm)
    requires Extended(m, m1, root, v, 1, phys, perm) && Extended(m1, m2, root, v + 1, j, phys + 0x1000, perm)
    requires Written(m, m1, tabs, v, 1, phys, perm) && Written(m1, m2, tabs, v + 1, j, phys + 0x1000, perm)
    ensures Extended(m, m2, root, v, j + 1, phys, perm) && Written(m, m2, tabs, v, j + 1, phys, perm)
  {
    hide Walk, Leaf, NoTable;
    forall u: nat {:trigger Walk(m2, root, 4, u)} | u < 0x10_0000_0000
      ensures Walk(m2, root, 4, u) ==
              if v <= u < v + j + 1 then Some(Trans(phys + 0x1000 * (u - v), perm.write, !perm.exec))
              else Walk(m, root, 4, u)
    {
      assert Walk(m1, root, 4, u) == Walk(m1, root, 4, u);
    }
    forall u: nat {:trigger Leaf(m2, tabs, u)} | !(v <= u < v + j + 1) ensures Leaf(m2, tabs, u) == Leaf(m, tabs, u) {
      assert Leaf(m1, tabs, u) == Leaf(m, tabs, u);
    }
  }

  lemma NothingDone(m: Mem, tabs: Tables, root: nat, v: nat, phys: nat, perm: Perm)
    ensures Extended(m, m, root, v, 0, phys, perm) && Written(m, m, tabs, v, 0, phys, perm)
  {
    hide Walk, Leaf, NoTable;
  }

  lemma ObstacleStops(tabs: Tables, v: nat)
    ensures Obstacle(tabs, v) != Mapped
  {
  }

  /** The whole call, however it ends: the free pages up to the first obstacle
      are mapped to consecutive frames, the end of the kernel has moved past
      exactly those, every other translation is what it was, the window's own
      among them, and the result says what stood in the way, if anything. */
  lemma {:induction false} MapEndLaw(k: Kern, tabs: Tables, root: nat, phys: u64, n: nat, perm: Perm)
    requires Tree(k.mem, tabs, root, true) && Fits(k, phys, n)
    ensures var (k', o) := MapEnd(k, root, phys, n, perm);
            var v := PageOf(k.end);
            var j := FreeRun(k.mem, tabs, v, n);
            && k'.end == k.end + 0x1000 * j && o == (if j == n then Mapped else Obstacle(tabs, v + j))
            && Tree(k'.mem, tabs, root, true)
            && Extended(k.mem, k'.mem, root, v, j, phys, perm) && Written(k.mem, k'.mem, tabs, v, j, phys, perm)
    decreases n
  {
    hide *;
    var v := PageOf(k.end);
    MapEndUnfolds(k, root, phys, n, perm);
    FreeUnfolds(k.mem, tabs, v, n);
    if n == 0 {
      NothingDone(k.mem, tabs, root, v, phys, perm);
    } else {
      NextPage(k, phys, n);
      MapOneIs(k, tabs, root, phys, perm);
      if Free(k.mem, tabs, v) {
        OnePage(k.mem, tabs, root, v, phys, perm);
        var m1 := MapOne(k, root, phys, perm).0.mem;
        var k1 := Kern(m1, k.end + 0x1000);
        FreeLater(k.mem, m1, tabs, v, n - 1, phys, perm);
        if n > 1 {
          FitsNext(k, phys, n, m1);
          MapEndLaw(k1, tabs, root, phys + 0x1000, n - 1, perm);
          var k2 := MapEnd(k1, root, phys + 0x1000, n - 1, perm).0;
          Compose(k.mem, m1, k2.mem, tabs, root, v, FreeRun(k.mem, tabs, v + 1, n - 1), phys, perm);
        } else {
          MapEndUnfolds(k1, root, phys + 0x1000, 0, perm);
          FreeUnfolds(k.mem, tabs, v + 1, 0);
        }
      } else {
        ObstacleStops(tabs, v);
        NothingDone(k.mem, tabs, root, v, phys, perm);
      }
    }
  }

  lemma FitsNext(k: Kern, phys: u64, n: nat, m1: Mem)
    requires Fits(k, phys, n) && n > 1
    ensures k.end + 0x1000 < 0x1_0000_0000_0000_0000 && phys + 0x1000 < 0x1_0000_0000_0000_0000
    ensures Fits(Kern(m1, k.end + 0x1000), phys + 0x1000, n - 1)
  {
    hide PageOf, AllOrdinary;
    NextPage(k, phys, n);
  }

  lemma MapEndUnfolds(k: Kern, root: nat, phys: u64, n: nat, perm: Perm)
    ensures MapEnd(k, root, phys, n, perm) ==
            if n == 0 then (k, Mapped) else
              var (k1, o) := MapOne(k, root, phys, perm);
              if o != Mapped then (k1, o) else MapEnd(k1, root, Wrap64(phys + 0x1000), n - 1, perm)
  {
    hide MapOne;
  }

  lemma FreeUnfolds(m: Mem, tabs: Tables, v: nat, n: nat)
    ensures FreeRun(m, tabs, v, n) == if n == 0 || !Free(m, tabs, v) then 0 else 1 + FreeRun(m, tabs, v + 1, n - 1)
    ensures n == 0 ==> FreeRun(m, tabs, v, n) == 0
  {
    hide Free;
  }

  /** Success, exactly: every page of the range has a page table and an empty
      entry in it; and then the i-th page translates to the i-th frame. */
  lemma MapEndMaps(k: Kern, tabs: Tables, root: nat, phys: u64, n: nat, perm: Perm)
    requires Tree(k.mem, tabs, root, true) && Fits(k, phys, n)
    ensures var (k', o) := MapEnd(k, root, phys, n, perm);
            var v := PageOf(k.end);
            && (o == Mapped <==> forall u: nat :: v <= u < v + n ==> Free(k.mem, tabs, u))
            && (o == Mapped ==>
                  && k'.end == k.end + 0x1000 * n
                  && (forall i: nat :: i < n ==>
                        Walk(k'.mem, root, 4, v + i) == Some(Trans(phys + 0x1000 * i, perm.write, !perm.exec)))
                  && (forall u: nat :: u < 0x10_0000_0000 && !(v <= u < v + n) ==>
                        Walk(k'.mem, root, 4, u) == Walk(k.mem, root, 4, u)))
  {
    hide Walk, Free, Tree, Written, Leaf, MapEnd, PageOf, Ordinary;
    MapEndLaw(k, tabs, root, phys, n, perm);
    var k' := MapEnd(k, root, phys, n, perm).0;
    var v := PageOf(k.end);
    if FreeRun(k.mem, tabs, v, n) < n {
      ObstacleStops(tabs, v + FreeRun(k.mem, tabs, v, n));
    } else {
      forall i: nat | i < n
        ensures Walk(k'.mem, root, 4, v + i) == Some(Trans(phys + 0x1000 * i, perm.write, !perm.exec))
      {
        InRange(v, n, i);
      }
    }
  }

  lemma InRange(v: nat, n: nat, i: nat)
    requires AllOrdinary(v, n) && i < n
    ensures v + i < 0x10_0000_0000
  {
    assert Ordinary(v + i, true);
  }

  // ----- a directory that is not there -----

  /** A top table at 0 whose slot 511 links an empty PDPT at 0x1000. */
  function TopOnly(): Mem { StoreWord(Zeros(0x2000), 8 * 511, 0x1003) }

  function TopKeys(): Tables { map[Key(4, 0) := 0, Key(3, 511) := 0x1000] }

  lemma TopTree()
    ensures Tree(TopOnly(), TopKeys(), 0, false)
  {
    hide Word, StoreWord;
    var m, k := Zeros(0x2000), Key(4, 0);
    var tabs: Tables := map[k := 0];
    forall a: nat | a + 8 <= 0x2000 ensures Word(m, a) == 0 { NothingThere(a); }
    LoneRoot(m, 0);
    StoreRewrites(m, tabs, 0, false, k, 511, 0x1003);
    forall i | 0 <= i < 512 ensures Word(TopOnly(), 0x1000 + 8 * i) == 0 {
      WordBeside(m, 8 * 511, 0x1003, 0x1000 + 8 * i);
    }
    assert SlotOf(tabs, k, 511) == 8 * 511;
    TreeGrows(m, TopOnly(), tabs, 0, false, k, 511, 0x1000);
    assert TopKeys() == tabs[Child(k, 511) := 0x1000];
  }

  lemma NothingThere(a: nat)
    requires a + 8 <= 0x2000
    ensures Word(Zeros(0x2000), a) == 0
  {
    assert Zeros(0x2000)[a..a + 8] == Zeros(8);
    LeZeros(8);
  }

  /** With the window installed there, mapping a page at the end of the address
      space finds the PDPT's entry absent, goes on, and faults. */
  lemma AbsentDirectory(phys: u64, perm: Perm)
    requires TablePage(phys)
    ensures var k := Kern(StoreWord(TopOnly(), 8 * 510, FractalEntry(0)), 0xFFFF_FF80_0000_0000);
            var (k', o) := MapEnd(k, 0, phys, 1, perm);
            o == Fault && k'.end == k.end
  {
    hide Tree, Word, StoreWord, MapEnd, FractalEntry, TopOnly;
    TopTree();
    TopEmpty();
    FractalEntryIs(0);
    InstalledTree(TopOnly(), TopKeys(), 0);
    var k := Kern(StoreWord(TopOnly(), 8 * 510, FractalEntry(0)), 0xFFFF_FF80_0000_0000);
    assert PageOf(k.end) == 0xF_F800_0000;
    assert Ordinary(0xF_F800_0000, true);
    FrameBelow(phys);
    MapEndLaw(k, TopKeys(), 0, phys, 1, perm);
    FreeUnfolds(k.mem, TopKeys(), 0xF_F800_0000, 1);
  }

  lemma FrameBelow(phys: nat)
    requires TablePage(phys)
    ensures phys + 0x1000 <= 0x10_0000_0000_0000
  {
  }

  lemma TopEmpty()
    ensures Word(TopOnly(), 8 * 510) == 0 && |TopOnly()| == 0x2000
  {
    hide Word, StoreWord;
    TopTree();
    assert EntryOk(TopOnly(), TopKeys(), false, Key(4, 0), 510);
  }
}
