/** Four-level page tables in physical memory: the walk of the processor
    (Intel SDM volume 3A, section 4.5) and the shape the code keeps. */
module PageTables {
  import opened Bits
  import opened Memory
  import opened Options

  // ----- addresses -----

  /** The 36-bit page number the processor translates. */
  function PageOf(a: nat): (v: nat)
    ensures v < 0x10_0000_0000
  {
    a / 0x1000 % 0x10_0000_0000
  }

  /** Bytes covered, in pages, by one table of a level. */
  function Span(level: nat): nat
    requires 1 <= level <= 4
  {
    if level == 1 then 0x200 else if level == 2 then 0x4_0000 else if level == 3 then 0x800_0000 else 0x10_0000_0000
  }

  /** Which table of a level page v lies under. */
  function Prefix(v: nat, level: nat): nat
    requires 1 <= level <= 4
  {
    if level == 1 then v / 0x200 else if level == 2 then v / 0x4_0000
    else if level == 3 then v / 0x800_0000 else v / 0x10_0000_0000
  }

  /** Its slot there. */
  function Index(v: nat, level: nat): (i: nat)
    requires 1 <= level <= 4
    ensures i < 512
  {
    if level == 1 then v % 0x200 else if level == 2 then v / 0x200 % 0x200
    else if level == 3 then v / 0x4_0000 % 0x200 else v / 0x800_0000 % 0x200
  }

  lemma PrefixStep(v: nat, level: nat)
    requires 2 <= level <= 4
    ensures Prefix(v, level - 1) == 512 * Prefix(v, level) + Index(v, level)
  {
  }

  // ----- entries -----

  predicate Present(e: nat) { e % 2 == 1 }

  predicate Writable(e: nat) { e / 2 % 2 == 1 }

  predicate Large(e: nat) { e / 0x80 % 2 == 1 }

  predicate NoExec(e: nat) { e / 0x8000_0000_0000_0000 % 2 == 1 }

  /** Bits 12 to 51. */
  function FrameOf(e: nat): nat { e / 0x1000 % 0x100_0000_0000 * 0x1000 }

  predicate TablePage(t: nat) { t % 0x1000 == 0 && t < 0x10_0000_0000_0000 }

  /** An entry split into frame number and flags. */
  lemma EntryFields(q: nat, flags: nat)
    requires q < 0x100_0000_0000 && flags < 0x1000
    ensures var e := 0x1000 * q + flags;
            && e < 0x10_0000_0000_0000 && FrameOf(e) == 0x1000 * q && !NoExec(e)
            && Present(e) == Present(flags) && Writable(e) == Writable(flags) && Large(e) == Large(flags)
  {
    EntryFrame(q, flags);
    EntryFlags(q, flags);
  }

  lemma EntryFrame(q: nat, flags: nat)
    requires q < 0x100_0000_0000 && flags < 0x1000
    ensures FrameOf(0x1000 * q + flags) == 0x1000 * q
  {
    DivUnique(0x1000 * q + flags, 0x1000, q, flags);
  }

  lemma EntryFlags(q: nat, flags: nat)
    ensures var e := 0x1000 * q + flags;
            Present(e) == Present(flags) && Writable(e) == Writable(flags) && Large(e) == Large(flags)
  {
    LowBit(q, flags);
    SecondLowBit(q, flags);
    EighthBit(q, flags);
  }

  lemma LowBit(q: nat, flags: nat)
    ensures (0x1000 * q + flags) % 2 == flags % 2
  {
  }

  lemma SecondLowBit(q: nat, flags: nat)
    ensures (0x1000 * q + flags) / 2 % 2 == flags / 2 % 2
  {
    DivUnique(0x1000 * q + flags, 2, 0x800 * q + flags / 2, flags % 2);
    DivUnique(0x800 * q + flags / 2, 2, 0x400 * q + flags / 2 / 2, flags / 2 % 2);
  }

  lemma EighthBit(q: nat, flags: nat)
    ensures (0x1000 * q + flags) / 0x80 % 2 == flags / 0x80 % 2
  {
    assert (0x1000 * q + flags) / 0x80 == 0x20 * q + flags / 0x80;
  }

  /** The no-execute bit stands clear of the other fields. */
  lemma AddNoExec(e: nat)
    requires e < 0x10_0000_0000_0000
    ensures var f := e + 0x8000_0000_0000_0000;
            Present(f) == Present(e) && Writable(f) == Writable(e) && NoExec(f) && FrameOf(f) == FrameOf(e)
            && Large(f) == Large(e)
  {
    var f := e + 0x8000_0000_0000_0000;
    assert f / 2 == e / 2 + 0x4000_0000_0000_0000;
    assert f / 0x80 == e / 0x80 + 0x100_0000_0000_0000;
    assert f / 0x1000 == e / 0x1000 + 0x8_0000_0000_0000;
  }

  /** The entry the code writes for a table at t: present and writable. */
  lemma LinkEntry(t: nat)
    requires TablePage(t)
    ensures var e := t + 3;
            Present(e) && Writable(e) && !Large(e) && !NoExec(e) && FrameOf(e) == t
  {
    EntryFields(t / 0x1000, 3);
  }

  // ----- the processor's walk -----

  datatype Trans = Trans(frame: nat, writable: bool, noexec: bool)

  /** Translation of page v starting at a table of a level. An upper entry that
      is absent or maps a large page leads to no 4 KiB translation. */
  function Walk(m: Mem, table: nat, level: nat, v: nat): Option<Trans>
    requires 1 <= level <= 4
    decreases level
  {
    var e := Word(m, table + 8 * Index(v, level));
    if !Present(e) then None
    else if level == 1 then Some(Trans(FrameOf(e), Writable(e), NoExec(e)))
    else if Large(e) then None
    else
      match Walk(m, FrameOf(e), level - 1, v)
      case None => None
      case Some(x) => Some(Trans(x.frame, x.writable && Writable(e), x.noexec || NoExec(e)))
  }

  /** The walk passes through a link unchanged and stops at a zero entry. */
  lemma WalkThroughLink(m: Mem, table: nat, level: nat, v: nat, t: nat)
    requires 2 <= level <= 4 && TablePage(t) && Word(m, table + 8 * Index(v, level)) == t + 3
    ensures Walk(m, table, level, v) == Walk(m, t, level - 1, v)
  {
    LinkEntry(t);
  }

  lemma WalkStopsAtZero(m: Mem, table: nat, level: nat, v: nat)
    requires 2 <= level <= 4 && Word(m, table + 8 * Index(v, level)) == 0
    ensures Walk(m, table, level, v) == None
  {
  }

  // ----- well-formed trees -----

  datatype Key = Key(level: nat, prefix: nat)

  /** Where each table of the tree lies. */
  type Tables = map<Key, nat>

  function Child(k: Key, i: nat): Key
    requires k.level > 1
  {
    Key(k.level - 1, 512 * k.prefix + i)
  }

  /** Address and content of slot i of table k. */
  function SlotOf(tabs: Tables, k: Key, i: nat): nat
    requires k in tabs
  {
    tabs[k] + 8 * i
  }

  function Ent(m: Mem, tabs: Tables, k: Key, i: nat): nat
    requires k in tabs
  {
    Word(m, SlotOf(tabs, k, i))
  }

  /** What the recursive slot holds. */
  function RecursiveEntry(root: nat): nat { 0x8000_0000_0000_0000 + root + 3 }

  /** Slot i of table k: zero or a link to the one table it owns; in a page
      table, zero or a present entry. `rec` says that slot 510 of the top
      table points back at the top table. */
  predicate EntryOk(m: Mem, tabs: Tables, rec: bool, k: Key, i: nat)
    requires k in tabs
  {
    var e := Ent(m, tabs, k, i);
    if k.level <= 1 then e == 0 || Present(e)
    else if rec && k.level == 4 && i == 510 then e == RecursiveEntry(tabs[k]) && Child(k, i) !in tabs
    else if Child(k, i) in tabs then e == tabs[Child(k, i)] + 3
    else e == 0
  }

  predicate KeyOk(m: Mem, tabs: Tables, k: Key)
    requires k in tabs
  {
    && 1 <= k.level <= 4 && TablePage(tabs[k]) && tabs[k] + 0x1000 <= |m|
    && (k.level == 4 ==> k.prefix == 0)
    && (k.level < 4 ==> Key(k.level + 1, k.prefix / 512) in tabs)
  }

  ghost predicate Tree(m: Mem, tabs: Tables, root: nat, rec: bool) {
    && Key(4, 0) in tabs && tabs[Key(4, 0)] == root
    && (forall k {:trigger KeyOk(m, tabs, k)} :: k in tabs ==> KeyOk(m, tabs, k))
    && (forall k, k' {:trigger OneOwner(tabs, k, k')} :: k in tabs && k' in tabs ==> OneOwner(tabs, k, k'))
    && (forall k, i {:trigger EntryOk(m, tabs, rec, k, i)} ::
          k in tabs && 0 <= i < 512 ==> EntryOk(m, tabs, rec, k, i))
  }

  predicate OneOwner(tabs: Tables, k: Key, k': Key)
    requires k in tabs && k' in tabs
  {
    tabs[k] == tabs[k'] ==> k == k'
  }

  /** The page-table entry of page v, zero where there is no table for it. */
  function Leaf(m: Mem, tabs: Tables, v: nat): nat {
    var k := Key(1, v / 512);
    if k in tabs then Ent(m, tabs, k, v % 512) else 0
  }

  function LeafTrans(e: nat): Option<Trans> {
    if Present(e) then Some(Trans(FrameOf(e), Writable(e), NoExec(e))) else None
  }

  predicate Ordinary(v: nat, rec: bool) {
    v < 0x10_0000_0000 && (rec ==> Index(v, 4) != 510)
  }

  lemma WalkStep(m: Mem, tabs: Tables, root: nat, rec: bool, v: nat, level: nat)
    requires Tree(m, tabs, root, rec) && 2 <= level <= 4 && Ordinary(v, rec)
    requires Key(level, Prefix(v, level)) in tabs
    ensures var k, c := Key(level, Prefix(v, level)), Key(level - 1, Prefix(v, level - 1));
            Walk(m, tabs[k], level, v) == if c in tabs then Walk(m, tabs[c], level - 1, v) else None
  {
    var k, c := Key(level, Prefix(v, level)), Key(level - 1, Prefix(v, level - 1));
    PrefixStep(v, level);
    assert KeyOk(m, tabs, k);
    assert EntryOk(m, tabs, rec, k, Index(v, level));
    assert Child(k, Index(v, level)) == c;
    if c in tabs {
      assert KeyOk(m, tabs, c);
      WalkThroughLink(m, tabs[k], level, v, tabs[c]);
    } else {
      WalkStopsAtZero(m, tabs[k], level, v);
    }
  }

  lemma NoTableNoChild(m: Mem, tabs: Tables, root: nat, rec: bool, v: nat, level: nat)
    requires Tree(m, tabs, root, rec) && 2 <= level <= 4
    requires Key(level - 1, Prefix(v, level - 1)) in tabs
    ensures Key(level, Prefix(v, level)) in tabs
  {
    var c := Key(level - 1, Prefix(v, level - 1));
    assert KeyOk(m, tabs, c);
    PrefixStep(v, level);
    assert c.prefix / 512 == Prefix(v, level);
  }

  lemma {:induction false} MissingBelow(m: Mem, tabs: Tables, root: nat, rec: bool, v: nat, level: nat)
    requires Tree(m, tabs, root, rec) && 1 <= level <= 3 && Key(level, Prefix(v, level)) !in tabs
    ensures Key(1, Prefix(v, 1)) !in tabs
  {
    if level > 1 {
      if Key(level - 1, Prefix(v, level - 1)) in tabs { NoTableNoChild(m, tabs, root, rec, v, level); }
      MissingBelow(m, tabs, root, rec, v, level - 1);
    }
  }

  lemma {:induction false} WalkFrom(m: Mem, tabs: Tables, root: nat, rec: bool, v: nat, level: nat)
    requires Tree(m, tabs, root, rec) && 1 <= level <= 4 && Ordinary(v, rec)
    requires Key(level, Prefix(v, level)) in tabs
    ensures Walk(m, tabs[Key(level, Prefix(v, level))], level, v) == LeafTrans(Leaf(m, tabs, v))
  {
    if level > 1 {
      WalkStep(m, tabs, root, rec, v, level);
      if Key(level - 1, Prefix(v, level - 1)) in tabs {
        WalkFrom(m, tabs, root, rec, v, level - 1);
      } else {
        MissingBelow(m, tabs, root, rec, v, level - 1);
      }
    }
  }

  /** On a well-formed tree the walk reads off the page-table entry. */
  lemma WalkIsLeaf(m: Mem, tabs: Tables, root: nat, rec: bool, v: nat)
    requires Tree(m, tabs, root, rec) && Ordinary(v, rec)
    ensures Walk(m, root, 4, v) == LeafTrans(Leaf(m, tabs, v))
  {
    assert Prefix(v, 4) == 0;
    WalkFrom(m, tabs, root, rec, v, 4);
  }

  /** In a well-formed tree a page is unmapped exactly where its entry is zero. */
  lemma LeafZero(m: Mem, tabs: Tables, root: nat, rec: bool, v: nat)
    requires Tree(m, tabs, root, rec)
    ensures Leaf(m, tabs, v) == 0 <==> LeafTrans(Leaf(m, tabs, v)) == None
  {
    var k := Key(1, v / 512);
    if k in tabs { assert EntryOk(m, tabs, rec, k, v % 512); }
  }

  /** Memory and root determine the tables of a tree. */
  lemma {:induction false} SameTable(m: Mem, tabs: Tables, tabs': Tables, root: nat, k: Key)
    requires Tree(m, tabs, root, false) && Tree(m, tabs', root, false) && k in tabs
    ensures k in tabs' && tabs'[k] == tabs[k]
    decreases 4 - k.level
  {
    assert KeyOk(m, tabs, k);
    if k.level < 4 {
      var parent, i := Key(k.level + 1, k.prefix / 512), k.prefix % 512;
      SameTable(m, tabs, tabs', root, parent);
      assert Child(parent, i) == k;
      assert EntryOk(m, tabs, false, parent, i) && EntryOk(m, tabs', false, parent, i);
      assert Ent(m, tabs, parent, i) == Ent(m, tabs', parent, i);
    }
  }

  lemma TreeUnique(m: Mem, tabs: Tables, tabs': Tables, root: nat)
    requires Tree(m, tabs, root, false) && Tree(m, tabs', root, false)
    ensures tabs == tabs'
  {
    forall k | k in tabs ensures k in tabs' && tabs'[k] == tabs[k] { SameTable(m, tabs, tabs', root, k); }
    forall k | k in tabs' ensures k in tabs { SameTable(m, tabs', tabs, root, k); }
  }

  // ----- changes to a tree -----

  lemma PagesApart(a: nat, b: nat)
    requires a % 0x1000 == 0 && b % 0x1000 == 0 && a != b
    ensures a + 0x1000 <= b || b + 0x1000 <= a
  {
  }

  /** Two slots of the tree are the same word of memory only if they are the same slot. */
  lemma SlotsApart(m: Mem, tabs: Tables, root: nat, rec: bool, k: Key, i: nat, k': Key, i': nat)
    requires Tree(m, tabs, root, rec) && k in tabs && k' in tabs && i < 512 && i' < 512
    requires k != k' || i != i'
    ensures var a, b := SlotOf(tabs, k, i), SlotOf(tabs, k', i'); a + 8 <= b || b + 8 <= a
  {
    assert KeyOk(m, tabs, k) && KeyOk(m, tabs, k');
    assert OneOwner(tabs, k, k');
    if k != k' { PagesApart(tabs[k], tabs[k']); }
  }

  /** Of all slots of the tree only slot i of k changes, to e. */
  ghost predicate Rewritten(m: Mem, m': Mem, tabs: Tables, k: Key, i: nat, e: nat) {
    && |m'| == |m|
    && forall k', i' {:trigger Ent(m', tabs, k', i')} :: k' in tabs && 0 <= i' < 512 ==>
         Ent(m', tabs, k', i') == if k' == k && i' == i then e else Ent(m, tabs, k', i')
  }

  lemma StoreRewrites(m: Mem, tabs: Tables, root: nat, rec: bool, k: Key, i: nat, e: u64)
    requires Tree(m, tabs, root, rec) && k in tabs && i < 512
    ensures SlotOf(tabs, k, i) + 8 <= |m|
    ensures Rewritten(m, StoreWord(m, SlotOf(tabs, k, i), e), tabs, k, i, e)
  {
    assert KeyOk(m, tabs, k);
    var a := SlotOf(tabs, k, i);
    var m' := StoreWord(m, a, e);
    WordStored(m, a, e);
    forall k', i' {:trigger Ent(m', tabs, k', i')} | k' in tabs && 0 <= i' < 512
      ensures Ent(m', tabs, k', i') == if k' == k && i' == i then e else Ent(m, tabs, k', i')
    {
      if k' != k || i' != i {
        SlotsApart(m, tabs, root, rec, k, i, k', i');
        assert KeyOk(m, tabs, k');
        WordFrame(m, m', SlotOf(tabs, k', i'));
      }
    }
  }

  /** Writing a present entry into a page table. */
  lemma LeafWrite(m: Mem, m': Mem, tabs: Tables, root: nat, rec: bool, v: nat, e: u64)
    requires Tree(m, tabs, root, rec) && Key(1, v / 512) in tabs && Present(e)
    requires Rewritten(m, m', tabs, Key(1, v / 512), v % 512, e)
    ensures Tree(m', tabs, root, rec)
    ensures forall u: nat :: Leaf(m', tabs, u) == if u == v then e else Leaf(m, tabs, u)
  {
    forall k' | k' in tabs ensures KeyOk(m', tabs, k') { assert KeyOk(m, tabs, k'); }
    forall a, b | a in tabs && b in tabs ensures OneOwner(tabs, a, b) { assert OneOwner(tabs, a, b); }
    forall k', i' | k' in tabs && 0 <= i' < 512 ensures EntryOk(m', tabs, rec, k', i') {
      assert KeyOk(m, tabs, k');
      assert EntryOk(m, tabs, rec, k', i');
    }
    forall u: nat ensures Leaf(m', tabs, u) == if u == v then e else Leaf(m, tabs, u) {
      assert u / 512 == v / 512 && u % 512 == v % 512 ==> u == v;
    }
  }

  /** Slot i of table k comes to own a zeroed table at p. */
  ghost predicate Grown(m: Mem, m': Mem, tabs: Tables, k: Key, i: nat, p: nat) {
    && Rewritten(m, m', tabs, k, i, p + 3)
    && forall i' :: 0 <= i' < 512 ==> Word(m', p + 8 * i') == 0
  }

  lemma TreeGrows(m: Mem, m': Mem, tabs: Tables, root: nat, rec: bool, k: Key, i: nat, p: nat)
    requires Tree(m, tabs, root, rec) && k in tabs && k.level > 1 && i < 512 && Child(k, i) !in tabs
    requires !(rec && k.level == 4 && i == 510)
    requires TablePage(p) && p + 0x1000 <= |m| && forall k' :: k' in tabs ==> tabs[k'] != p
    requires Grown(m, m', tabs, k, i, p)
    ensures Tree(m', tabs[Child(k, i) := p], root, rec)
  {
    var c := Child(k, i);
    var tabs' := tabs[c := p];
    assert KeyOk(m, tabs, k);
    forall k' | k' in tabs' ensures KeyOk(m', tabs', k') {
      if k' != c { assert KeyOk(m, tabs, k'); }
    }
    forall a, b | a in tabs' && b in tabs' ensures OneOwner(tabs', a, b) {
      if a != c && b != c { assert OneOwner(tabs, a, b); }
    }
    forall k', i' | k' in tabs' && 0 <= i' < 512 ensures EntryOk(m', tabs', rec, k', i') {
      if k' == c {
        NewEntryOk(m, m', tabs, root, rec, k, i, p, i');
      } else {
        OldEntryOk(m, m', tabs, root, rec, k, i, p, k', i');
      }
    }
  }

  lemma OldEntryOk(m: Mem, m': Mem, tabs: Tables, root: nat, rec: bool, k: Key, i: nat, p: nat, k': Key, i': nat)
    requires Tree(m, tabs, root, rec) && k in tabs && k.level > 1 && i < 512 && Child(k, i) !in tabs
    requires !(rec && k.level == 4 && i == 510)
    requires Grown(m, m', tabs, k, i, p) && k' in tabs && i' < 512
    ensures EntryOk(m', tabs[Child(k, i) := p], rec, k', i')
  {
    var tabs' := tabs[Child(k, i) := p];
    assert EntryOk(m, tabs, rec, k', i');
    assert Ent(m', tabs', k', i') == Ent(m', tabs, k', i');
    assert KeyOk(m, tabs, k) && KeyOk(m, tabs, k');
    if k'.level > 1 && Child(k', i') == Child(k, i) {
      SameParent(k, i, k', i');
    }
  }

  lemma SameParent(k: Key, i: nat, k': Key, i': nat)
    requires k.level > 1 && k'.level > 1 && i < 512 && i' < 512 && Child(k, i) == Child(k', i')
    ensures k == k' && i == i'
  {
  }

  lemma NewEntryOk(m: Mem, m': Mem, tabs: Tables, root: nat, rec: bool, k: Key, i: nat, p: nat, i': nat)
    requires Tree(m, tabs, root, rec) && k in tabs && k.level > 1 && i < 512 && Child(k, i) !in tabs
    requires Grown(m, m', tabs, k, i, p) && i' < 512
    ensures EntryOk(m', tabs[Child(k, i) := p], rec, Child(k, i), i')
  {
    var c := Child(k, i);
    var tabs' := tabs[c := p];
    assert KeyOk(m, tabs, k);
    assert Ent(m', tabs', c, i') == Word(m', p + 8 * i') == 0;
    if c.level > 1 && Child(c, i') in tabs { ChildNeedsParent(m, tabs, root, rec, c, i'); }
  }

  lemma ChildNeedsParent(m: Mem, tabs: Tables, root: nat, rec: bool, c: Key, i: nat)
    requires Tree(m, tabs, root, rec) && 1 < c.level < 4 && i < 512 && Child(c, i) in tabs
    ensures c in tabs
  {
    assert KeyOk(m, tabs, Child(c, i));
    assert Child(c, i).prefix / 512 == c.prefix;
  }

  lemma GrownLeaves(m: Mem, m': Mem, tabs: Tables, root: nat, rec: bool, k: Key, i: nat, p: nat)
    requires Tree(m, tabs, root, rec) && k in tabs && k.level > 1 && i < 512 && Child(k, i) !in tabs
    requires Grown(m, m', tabs, k, i, p)
    ensures forall v: nat :: Leaf(m', tabs[Child(k, i) := p], v) == Leaf(m, tabs, v)
  {
    var tabs' := tabs[Child(k, i) := p];
    forall v: nat ensures Leaf(m', tabs', v) == Leaf(m, tabs, v) {
      var kv := Key(1, v / 512);
      if kv in tabs {
        assert Ent(m', tabs', kv, v % 512) == Ent(m', tabs, kv, v % 512);
      } else if kv == Child(k, i) {
        assert Ent(m', tabs', kv, v % 512) == Word(m', p + 8 * (v % 512));
      }
    }
  }
}
