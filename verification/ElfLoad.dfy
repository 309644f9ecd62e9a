/** `elf_expand` (AMD64 branch, Kickstart/Multiboot/elf.c:228-331): allocate,
    clear, map and fill one segment after the other. */
module ElfLoad {
  import opened Bits
  import opened Bytes
  import opened Options
  import opened Memory
  import opened PageTables
  import opened RegionOps
  import opened PageBudget
  import opened Paging
  import opened PagingLaws
  import opened MapRuns
  import opened Elf
  import Regions

  /** A program header, as far as the loader looks at it. */
  datatype Segment = Segment(load: bool, flags: nat, offset: nat, vaddr: nat, filesz: nat, memsz: nat)

  function ParseSegment(m: Mem, a: nat, c: Class, e: Endian): Segment
    requires |m| > 0
  {
    var kind := Word32(m, a, 0, e);
    var flags := Word32(m, a, kind.offset, e);
    var off := Addr(m, a, flags.offset, c, e);
    var vaddr := Addr(m, a, off.offset, c, e);
    var paddr := Addr(m, a, vaddr.offset, c, e);
    var filesz := Xword(m, a, paddr.offset, e);
    var memsz := Xword(m, a, filesz.offset, e);
    Segment(kind.value == 1, flags.value, off.value, vaddr.value, filesz.value, memsz.value)
  }

  /** A program header of the gABI, chapter 5; class 32 keeps the flags near the end. */
  datatype ProgramHeader = ProgramHeader(kind: nat, flags: nat, offset: nat, vaddr: nat, paddr: nat,
                                         filesz: nat, memsz: nat, align: nat)

  function PhdrFields(p: ProgramHeader, c: Class): seq<Field> {
    if c == Class64 then
      [Field(p.kind, 4), Field(p.flags, 4), Field(p.offset, 8), Field(p.vaddr, 8), Field(p.paddr, 8),
       Field(p.filesz, 8), Field(p.memsz, 8), Field(p.align, 8)]
    else
      [Field(p.kind, 4), Field(p.offset, 4), Field(p.vaddr, 4), Field(p.paddr, 4), Field(p.filesz, 4),
       Field(p.memsz, 4), Field(p.flags, 4), Field(p.align, 4)]
  }

  ghost predicate HoldsPhdr(m: Mem, a: nat, c: Class, e: Endian, p: ProgramHeader) {
    HoldsFile(m, a, EncodeFields(PhdrFields(p, c), e)) && forall i :: 0 <= i < 8 ==> FieldOk(PhdrFields(p, c)[i])
  }

  /** What the loader should make of a program header. */
  function SegmentOf(p: ProgramHeader): Segment {
    Segment(p.kind == 1, p.flags, p.offset, p.vaddr, p.filesz, p.memsz)
  }

  lemma PhdrStarts(p: ProgramHeader, c: Class)
    ensures var fs := PhdrFields(p, c);
            if c == Class64 then
              && Start(fs, 0) == 0 && Start(fs, 1) == 4 && Start(fs, 2) == 8 && Start(fs, 3) == 16
              && Start(fs, 4) == 24 && Start(fs, 5) == 32 && Start(fs, 6) == 40
            else
              && Start(fs, 0) == 0 && Start(fs, 1) == 4 && Start(fs, 2) == 8 && Start(fs, 3) == 12
              && Start(fs, 4) == 16 && Start(fs, 5) == 20 && Start(fs, 6) == 24 && Start(fs, 7) == 28
  {
    var fs := PhdrFields(p, c);
    assert Start(fs, 1) == 4;
    assert Start(fs, 2) == 8;
    assert Start(fs, 3) == if c == Class64 then 16 else 12;
    assert Start(fs, 4) == if c == Class64 then 24 else 16;
    assert Start(fs, 5) == if c == Class64 then 32 else 20;
    assert c == Class32 ==> Start(fs, 6) == 24;
  }

  /** The loader reads back every field of an encoded class-64 program header, in
      both byte orders. */
  lemma SegmentRoundTrip(m: Mem, a: nat, e: Endian, p: ProgramHeader)
    requires HoldsPhdr(m, a, Class64, e, p)
    ensures |m| > 0 && ParseSegment(m, a, Class64, e) == SegmentOf(p)
  {
    hide EncodeFields, Word32, Addr, Xword, HoldsFile, FieldOk, Start;
    var fs := PhdrFields(p, Class64);
    PhdrStarts(p, Class64);
    WordField(m, a, 0, fs, e, 0);
    WordField(m, a, 0, fs, e, 1);
    AddrField(m, a, 0, fs, Class64, e, 2);
    AddrField(m, a, 0, fs, Class64, e, 3);
    AddrField(m, a, 0, fs, Class64, e, 4);
    AddrField(m, a, 0, fs, Class64, e, 5);
    AddrField(m, a, 0, fs, Class64, e, 6);
    XwordIsAddr(m, a, 32, e);
    XwordIsAddr(m, a, 40, e);
  }

  /** Two words, one after the other, read as one of twice the width. */
  function WordPair(e: Endian, first: nat, second: nat): nat {
    if e == Little then first + 0x1_0000_0000 * second else 0x1_0000_0000 * first + second
  }

  /** A class-32 header is read in class-64 order: each field is taken for the
      one that stands there, p_filesz swallows two fields, and p_memsz the last
      field and four bytes behind the header. */
  lemma SegmentMisread(m: Mem, a: nat, e: Endian, p: ProgramHeader)
    requires HoldsPhdr(m, a, Class32, e, p)
    ensures |m| > 0
    ensures var g := ParseSegment(m, a, Class32, e);
            && g.load == (p.kind == 1) && g.flags == p.offset && g.offset == p.vaddr && g.vaddr == p.paddr
            && g.filesz == WordPair(e, p.memsz, p.flags)
            && g.memsz == WordPair(e, p.align, ReadU32(e, Peek(m, a + 32, 4)))
  {
    hide EncodeFields, EncodeField, Word32, Addr, Xword, HoldsFile, FieldOk, Start, Peek, WordPair, ReadU32;
    var fs := PhdrFields(p, Class32);
    PhdrStarts(p, Class32);
    WordField(m, a, 0, fs, e, 0);
    WordField(m, a, 0, fs, e, 1);
    AddrField(m, a, 0, fs, Class32, e, 2);
    AddrField(m, a, 0, fs, Class32, e, 3);
    AddrField(m, a, 0, fs, Class32, e, 4);
    TwoFields(m, a, fs, e, 5);
    FieldAndMore(m, a, fs, e, 7);
  }

  lemma TwoFields(m: Mem, a: nat, fs: seq<Field>, e: Endian, i: nat)
    requires HoldsFile(m, a, EncodeFields(fs, e)) && i + 1 < |fs| && FieldOk(fs[i]) && FieldOk(fs[i + 1])
    requires fs[i].width == 4 && fs[i + 1].width == 4
    ensures |m| > 0
    ensures Xword(m, a, Start(fs, i), e) == Cursor(WordPair(e, fs[i].value, fs[i + 1].value), Start(fs, i) + 8)
  {
    hide EncodeFields, EncodeField, HoldsFile, ReadU64, ReadU32, Start, WordPair, Xword, Peek;
    FieldAndMore(m, a, fs, e, i);
    NextStart(fs, i);
    PeekField(m, a, fs, e, i + 1);
    DecodeField(fs[i + 1], e);
  }

  lemma FieldAndMore(m: Mem, a: nat, fs: seq<Field>, e: Endian, i: nat)
    requires HoldsFile(m, a, EncodeFields(fs, e)) && i < |fs| && FieldOk(fs[i]) && fs[i].width == 4
    ensures |m| > 0
    ensures Xword(m, a, Start(fs, i), e) ==
            Cursor(WordPair(e, fs[i].value, ReadU32(e, Peek(m, a + Start(fs, i) + 4, 4))), Start(fs, i) + 8)
  {
    hide EncodeFields, EncodeField, HoldsFile, ReadU64, ReadU32, Start;
    PeekField(m, a, fs, e, i);
    var x, y := EncodeField(fs[i], e), Peek(m, a + Start(fs, i) + 4, 4);
    assert Peek(m, a + Start(fs, i), 8) == x + y by { PeekBoth(m, a + Start(fs, i)); }
    DecodeField(fs[i], e);
    JoinedWords(x, y, e);
  }

  lemma NextStart(fs: seq<Field>, i: nat)
    requires i < |fs|
    ensures Start(fs, i + 1) == Start(fs, i) + fs[i].width
  {
  }

  lemma PeekBoth(m: Mem, a: nat)
    requires |m| > 0
    ensures Peek(m, a, 8) == Peek(m, a, 4) + Peek(m, a + 4, 4)
  {
    var p, q := Peek(m, a, 4), Peek(m, a + 4, 4);
    forall i | 0 <= i < 8 ensures Peek(m, a, 8)[i] == (p + q)[i] {
      if i >= 4 { assert q[i - 4] == m[(a + 4 + (i - 4)) % |m|]; }
    }
  }

  lemma JoinedWords(x: seq<byte>, y: seq<byte>, e: Endian)
    requires |x| == 4 && |y| == 4
    ensures ReadU64(e, x + y) == WordPair(e, ReadU32(e, x), ReadU32(e, y))
  {
    hide ReadU32Le, ReadU64Le, ReadU32Be, ReadU64Be, Le;
    if e == Little {
      LittleJoined(x, y);
    } else {
      var z := x + y;
      assert Reverse(z) == Reverse(y) + Reverse(x);
      BigIsReversedLittle(z);
      BigIsReversedLittle(x);
      BigIsReversedLittle(y);
      LittleJoined(Reverse(y), Reverse(x));
    }
  }

  lemma LittleJoined(x: seq<byte>, y: seq<byte>)
    requires |x| == 4 && |y| == 4
    ensures ReadU64Le(x + y) == ReadU32Le(x) + 0x1_0000_0000 * ReadU32Le(y)
  {
    hide ReadU32Le, ReadU64Le;
    ReadersAreLe(x);
    ReadersAreLe(y);
    ReadersAreLe(x + y);
    assert x[..4] == x && y[..4] == y && (x + y)[..8] == x + y;
    LeJoined(x, y);
    assert Pow2(8 * 4) == 0x1_0000_0000 by { ThirtyTwo(); }
  }

  lemma ThirtyTwo()
    ensures Pow2(32) == 0x1_0000_0000
  {
    Pow2Values();
    Pow2Add(30, 2);
    assert Pow2(1) == 2 && Pow2(2) == 4;
  }

  lemma {:induction false} LeJoined(x: seq<byte>, y: seq<byte>)
    ensures Le(x + y) == Le(x) + Pow2(8 * |x|) * Le(y)
  {
    if x == [] {
      assert x + y == y;
    } else {
      assert (x + y)[1..] == x[1..] + y;
      LeJoined(x[1..], y);
      Pow2Byte(|x|);
      Distribute256(Pow2(8 * (|x| - 1)), Le(y));
    }
  }

  lemma Distribute256(p: nat, v: nat)
    ensures 256 * (p * v) == (256 * p) * v
  {
  }

  /** Program headers are read back for class 64 and for no other class. */
  lemma ReadBackExactly(c: Class)
    ensures (forall m, a, e, p :: HoldsPhdr(m, a, c, e, p) && |m| > 0 ==> ParseSegment(m, a, c, e) == SegmentOf(p))
            <==> c == Class64
  {
    hide HoldsPhdr, ParseSegment;
    if c == Class64 {
      forall m, a, e, p | HoldsPhdr(m, a, c, e, p) && |m| > 0 ensures ParseSegment(m, a, c, e) == SegmentOf(p) {
        SegmentRoundTrip(m, a, e, p);
      }
    } else {
      var p := ProgramHeader(1, 5, 0, 0, 0, 0, 0, 0);
      var m := EncodeFields(PhdrFields(p, Class32), Little);
      SmallHeader(p);
      SegmentMisread(m, 0, Little, p);
      assert ParseSegment(m, 0, c, Little) != SegmentOf(p);
    }
  }

  lemma SmallHeader(p: ProgramHeader)
    requires p == ProgramHeader(1, 5, 0, 0, 0, 0, 0, 0)
    ensures HoldsPhdr(EncodeFields(PhdrFields(p, Class32), Little), 0, Class32, Little, p)
  {
    hide EncodeFields, EncodeField, HoldsFile, Pow2;
    var fs := PhdrFields(p, Class32);
    ThirtyTwo();
    FieldBytes(fs, Little, 0);
    HoldsItself(EncodeFields(fs, Little));
  }

  lemma HoldsItself(file: seq<byte>)
    requires file != []
    ensures HoldsFile(file, 0, file)
  {
    forall i {:trigger file[i]} | 0 <= i < |file| ensures file[(0 + i) % |file|] == file[i] { SmallIndex(i, |file|); }
  }

  lemma XwordIsAddr(m: Mem, a: nat, off: nat, e: Endian)
    requires |m| > 0
    ensures Xword(m, a, off, e) == Addr(m, a, off, Class64, e)
  {
  }

  /** Address of program header i, in 32-bit pointer arithmetic. */
  function HeaderAt(h: Header, i: nat): u32 {
    Wrap32(Wrap32(h.base + h.phoff) + Wrap32(h.phentsize * i))
  }

  function SegmentPerm(flags: nat): Perm {
    Perm(And(flags, 0x4) != 0, And(flags, 0x2) != 0, And(flags, 0x1) != 0)
  }

  function PagesNeeded(memsz: nat): u32 {
    Wrap32(Wrap32(memsz / 0x1000) + if memsz % 0x1000 != 0 then 1 else 0)
  }

  /** The loader's inner loop: n consecutive pages at vaddr to frames at p. */
  function SegmentReqs(p: u32, vaddr: nat, perm: Perm, i: nat, n: nat): (r: seq<Req>)
    requires i <= n
    ensures |r| == n - i
    ensures forall j :: 0 <= j < |r| ==>
              r[j] == Req(Wrap64(p + (i + j) * 0x1000), Wrap64(vaddr + (i + j) * 0x1000), perm)
    decreases n - i
  {
    if i == n then [] else
      [Req(Wrap64(p + i * 0x1000), Wrap64(vaddr + i * 0x1000), perm)] + SegmentReqs(p, vaddr, perm, i + 1, n)
  }

  /** `memcpy`, byte by byte from the front. */
  function CopyForward(m: Mem, dst: nat, src: nat, n: nat): (r: Mem)
    requires |m| > 0 && dst + n <= |m|
    ensures |r| == |m|
  {
    if n == 0 then m else
      var r := CopyForward(m, dst, src, n - 1);
      r[dst + n - 1 := r[(src + n - 1) % |m|]]
  }

  /** The sizes this loader can handle: less than 4 GiB in memory, and no more
      bytes in the file than in memory. */
  predicate SizesOk(g: Segment) {
    g.memsz <= 0xFFFF_F000 && g.filesz <= g.memsz
  }

  lemma PagesCover(memsz: nat)
    requires memsz <= 0xFFFF_F000
    ensures var n := PagesNeeded(memsz);
            n < 0x10_0000 && memsz <= n * 0x1000 < memsz + 0x1000 && n == (memsz + 0xFFF) / 0x1000
  {
  }

  /** Of a size the loader can handle, and given frames inside memory. */
  predicate Placeable(s: Sys, g: Segment) {
    SizesOk(g) && Placed(s.regions, PagesNeeded(g.memsz), Regions.Kernel)
  }

  lemma LowPlaceable(s: Sys, g: Segment)
    requires LowMachine(s) && SizesOk(g)
    ensures Placeable(s, g)
  {
    PagesCover(g.memsz);
    ReadyPlaces(s.regions, PagesNeeded(g.memsz), Regions.Kernel);
  }

  function AllocateSegment(s: Sys, n: u32): (r: (seq<Regions.Region>, u32))
    requires Machine(s) && Placed(s.regions, n, Regions.Kernel)
    ensures r == Allocate(s.regions, n, Regions.Kernel)
    ensures FreeAligned(r.0) && r.1 % 0x1000 == 0 && r.1 + n * 0x1000 <= 0x1_0000_0000
  {
    AllocateAligned(s.regions, n, Regions.Kernel);
    Allocate(s.regions, n, Regions.Kernel)
  }

  /** One turn of the loader's loop for a PT_LOAD segment. */
  function LoadSegment(s: Sys, root: nat, h: Header, g: Segment): (r: (Sys, bool))
    requires Machine(s) && root % 0x1000 == 0 && root + 0x1000 <= 0x1_0000_0000 && Placeable(s, g)
    ensures Machine(r.0)
  {
    hide Allocate, SegmentReqs;
    PagesCover(g.memsz);
    var n := PagesNeeded(g.memsz);
    var (regions, p) := AllocateSegment(s, n);
    if p == 0 then (s.(regions := regions), false) else
      var s1 := Sys(Zeroed(s.mem, p, n * 0x1000), regions);
      var s2 := MapAll(s1, root, SegmentReqs(p, g.vaddr, SegmentPerm(g.flags), 0, n));
      (s2.(mem := CopyForward(s2.mem, p, Wrap32(h.base + g.offset), g.filesz)), true)
  }

  /** The state when the segment's pages are mapped and nothing is copied yet. */
  function MappedSegment(s: Sys, root: nat, g: Segment): (r: Sys)
    requires Machine(s) && root % 0x1000 == 0 && root + 0x1000 <= 0x1_0000_0000 && Placeable(s, g)
    ensures Machine(r)
  {
    var n := PagesNeeded(g.memsz);
    var (regions, p) := AllocateSegment(s, n);
    MapAll(Sys(Zeroed(s.mem, p, n * 0x1000), regions), root, SegReqs(p, g))
  }

  // ----- private memory may be written freely -----

  /** Nothing but the bytes [p, p+n) differs. */
  ghost predicate DiffersIn(m: Mem, m': Mem, p: nat, n: nat) {
    |m'| == |m| && forall a :: 0 <= a < |m| && !(p <= a < p + n) ==> m'[a] == m[a]
  }

  ghost predicate ClearOfTables(tabs: Tables, p: nat, n: nat) {
    forall k {:trigger k in tabs} :: k in tabs ==> tabs[k] + 0x1000 <= p || p + n <= tabs[k]
  }

  /** Memory clear of the tables can change without touching translation. */
  lemma TreeElsewhere(m: Mem, m': Mem, tabs: Tables, root: nat, rec: bool, p: nat, n: nat)
    requires Tree(m, tabs, root, rec) && DiffersIn(m, m', p, n) && ClearOfTables(tabs, p, n)
    ensures Tree(m', tabs, root, rec) && forall u: nat :: Leaf(m', tabs, u) == Leaf(m, tabs, u)
  {
    forall k, i {:trigger Ent(m', tabs, k, i)} | k in tabs && 0 <= i < 512
      ensures Ent(m', tabs, k, i) == Ent(m, tabs, k, i)
    {
      assert KeyOk(m, tabs, k);
      WordFrame(m, m', SlotOf(tabs, k, i));
    }
    TreeFrame(m, m', tabs, root, rec);
  }

  lemma BootedElsewhere(s: Sys, m': Mem, tabs: Tables, root: nat, p: nat, n: nat)
    requires Booted(s, root, tabs) && DiffersIn(s.mem, m', p, n) && ClearOfTables(tabs, p, n)
    ensures Booted(s.(mem := m'), root, tabs)
    ensures SameLeaves(s, tabs, s.(mem := m'), tabs)
  {
    TreeElsewhere(s.mem, m', tabs, root, false, p, n);
    forall k | k in tabs ensures OwnedTable(s.(mem := m'), tabs, k) { assert OwnedTable(s, tabs, k); }
  }

  lemma SmallIndex(x: nat, n: nat)
    requires x < n
    ensures x % n == x
  {
  }

  /** Between ranges that do not overlap the loop copies. */
  lemma {:induction false} CopyBytes(m: Mem, dst: nat, src: nat, n: nat)
    requires |m| > 0 && dst + n <= |m| && src + n <= |m| && (src + n <= dst || dst + n <= src)
    ensures var r := CopyForward(m, dst, src, n);
            && DiffersIn(m, r, dst, n)
            && forall a :: dst <= a < dst + n ==> r[a] == m[src + (a - dst)]
  {
    if n > 0 {
      CopyBytes(m, dst, src, n - 1);
      SmallIndex(src + n - 1, |m|);
    }
  }

  // ----- one segment -----

  /** Free memory is clear of the tables. */
  lemma GrantClear(s: Sys, root: nat, tabs: Tables, regions: seq<Regions.Region>, p: nat, n: nat, k: Regions.Kind)
    requires Booted(s, root, tabs) && Granted(s.regions, regions, p, n, k) && n > 0
    ensures ClearOfTables(tabs, p, n * 0x1000)
  {
    forall key | key in tabs ensures tabs[key] + 0x1000 <= p || p + n * 0x1000 <= tabs[key] {
      var a := if p < tabs[key] then tabs[key] else p;
      assert OwnedTable(s, tabs, key);
      assert tabs[key] <= a < tabs[key] + 0x1000 ==> Regions.TypeAt(s.regions, a) == Some(Regions.Allocated);
    }
  }

  /** The state once the segment's memory is allocated and cleared. */
  lemma ClearedLaw(s: Sys, root: nat, tabs: Tables, regions: seq<Regions.Region>, p: nat, n: nat)
    requires Booted(s, root, tabs) && Granted(s.regions, regions, p, n, Regions.Kernel) && n > 0
    ensures p + n * 0x1000 <= |s.mem|
    ensures var s1 := Sys(Zeroed(s.mem, p, n * 0x1000), regions);
            && Booted(s1, root, tabs) && SameLeaves(s, tabs, s1, tabs) && KeepsPrivate(s, tabs, s1, tabs)
            && forall a: nat :: p <= a < p + n * 0x1000 ==> Private(s1, tabs, a) && s1.mem[a] == 0
  {
    var m' := Zeroed(s.mem, p, n * 0x1000);
    var s1 := Sys(m', regions);
    GrantClear(s, root, tabs, regions, p, n, Regions.Kernel);
    BootedElsewhere(s, m', tabs, root, p, n * 0x1000);
    forall k | k in tabs ensures OwnedTable(s1, tabs, k) {
      assert OwnedTable(s, tabs, k);
    }
    forall a: nat | Private(s, tabs, a) ensures Private(s1, tabs, a) && s1.mem[a] == s.mem[a] {
      forall k | k in tabs ensures OutOfTable(tabs, k, a) { assert OutOfTable(tabs, k, a); }
    }
    forall a: nat | p <= a < p + n * 0x1000 ensures Private(s1, tabs, a) {
      forall k | k in tabs ensures OutOfTable(tabs, k, a) { assert k in tabs; }
    }
  }

  /** Page number and frame of the j-th page of a segment. */
  function SegPage(g: Segment, j: nat): nat { PageOf(g.vaddr + j * 0x1000) }

  /** The file is intact: private bytes that still hold what m0 holds. */
  ghost predicate FileHeld(s: Sys, tabs: Tables, m0: Mem, lo: nat, len: nat) {
    && |m0| == |s.mem| && lo + len <= |s.mem|
    && forall a: nat :: lo <= a < lo + len ==> Private(s, tabs, a) && s.mem[a] == m0[a]
  }

  /** What the loader may assume of a segment, given which pages are mapped. */
  predicate GoodSegment(g: Segment, len: nat) {
    && 0 < g.memsz <= 0xFFFF_F000 && g.filesz <= g.memsz && g.offset + g.filesz <= len
    && g.vaddr % 0x1000 == 0 && g.vaddr + g.memsz <= 0x1_0000_0000_0000_0000
  }

  lemma SegmentPages(p: u32, g: Segment, len: nat, j: nat)
    requires GoodSegment(g, len) && j < PagesNeeded(g.memsz) && p + PagesNeeded(g.memsz) * 0x1000 <= 0x1_0000_0000
    requires p % 0x1000 == 0
    ensures var n := PagesNeeded(g.memsz);
            var r := SegmentReqs(p, g.vaddr, SegmentPerm(g.flags), 0, n)[j];
            r.Page() == SegPage(g, j) && r.phys == p + j * 0x1000 && r.perm == SegmentPerm(g.flags) && TablePage(r.phys)
  {
    PagesCover(g.memsz);
    var n := PagesNeeded(g.memsz);
    var r := SegmentReqs(p, g.vaddr, SegmentPerm(g.flags), 0, n)[j];
    LastPageFits(g.vaddr, g.memsz, n, j);
    assert r.virt == g.vaddr + j * 0x1000;
    PagesOn(p, j);
  }

  lemma LastPageFits(vaddr: nat, memsz: nat, n: nat, j: nat)
    requires vaddr % 0x1000 == 0 && vaddr + memsz <= 0x1_0000_0000_0000_0000 && j < n
    requires n == (memsz + 0xFFF) / 0x1000
    ensures vaddr + j * 0x1000 < 0x1_0000_0000_0000_0000
  {
  }

  /** Pages of one segment are distinct. */
  lemma PagesDistinct(g: Segment, i: nat, j: nat)
    requires i < j < 0x10_0000
    ensures SegPage(g, i) != SegPage(g, j)
  {
    var a, b := g.vaddr + i * 0x1000, g.vaddr + j * 0x1000;
    assert b / 0x1000 == a / 0x1000 + (j - i);
  }

  lemma {:induction false} FirstOfSegment(p: u32, g: Segment, len: nat, i: nat, j: nat)
    requires GoodSegment(g, len) && i <= j < PagesNeeded(g.memsz)
    requires p + PagesNeeded(g.memsz) * 0x1000 <= 0x1_0000_0000 && p % 0x1000 == 0
    ensures var r := FirstFor(SegmentReqs(p, g.vaddr, SegmentPerm(g.flags), i, PagesNeeded(g.memsz)), SegPage(g, j));
            r.Some? && r.value.phys == p + j * 0x1000 && r.value.perm == SegmentPerm(g.flags)
    decreases j - i
  {
    PagesCover(g.memsz);
    var n := PagesNeeded(g.memsz);
    var perm := SegmentPerm(g.flags);
    var reqs := SegmentReqs(p, g.vaddr, perm, i, n);
    SegmentPages(p, g, len, i);
    assert reqs[0] == SegmentReqs(p, g.vaddr, perm, 0, n)[i];
    assert reqs[1..] == SegmentReqs(p, g.vaddr, perm, i + 1, n);
    if i < j {
      PagesDistinct(g, i, j);
      FirstOfSegment(p, g, len, i + 1, j);
    }
  }

  lemma {:induction false} NoneOfSegment(p: u32, g: Segment, len: nat, i: nat, u: nat)
    requires GoodSegment(g, len) && i <= PagesNeeded(g.memsz)
    requires p + PagesNeeded(g.memsz) * 0x1000 <= 0x1_0000_0000 && p % 0x1000 == 0
    requires forall j: nat :: j < PagesNeeded(g.memsz) ==> SegPage(g, j) != u
    ensures FirstFor(SegmentReqs(p, g.vaddr, SegmentPerm(g.flags), i, PagesNeeded(g.memsz)), u) == None
    decreases PagesNeeded(g.memsz) - i
  {
    var n := PagesNeeded(g.memsz);
    var perm := SegmentPerm(g.flags);
    if i < n {
      var reqs := SegmentReqs(p, g.vaddr, perm, i, n);
      SegmentPages(p, g, len, i);
      assert reqs[0] == SegmentReqs(p, g.vaddr, perm, 0, n)[i];
      assert reqs[1..] == SegmentReqs(p, g.vaddr, perm, i + 1, n);
      NoneOfSegment(p, g, len, i + 1, u);
    }
  }

  // ----- the step for one segment -----

  lemma FileKept(s: Sys, tabs: Tables, s': Sys, tabs': Tables, m0: Mem, lo: nat, len: nat)
    requires FileHeld(s, tabs, m0, lo, len) && KeepsPrivate(s, tabs, s', tabs')
    ensures FileHeld(s', tabs', m0, lo, len)
  {
  }

  lemma KeepsTwice(s: Sys, tabs: Tables, s1: Sys, tabs1: Tables, s2: Sys, tabs2: Tables)
    requires KeepsPrivate(s, tabs, s1, tabs1) && KeepsPrivate(s1, tabs1, s2, tabs2)
    ensures KeepsPrivate(s, tabs, s2, tabs2)
  {
    forall x: nat | Private(s, tabs, x) ensures Private(s2, tabs2, x) && s2.mem[x] == s.mem[x] {
      assert Private(s1, tabs1, x);
    }
  }

  /** [p, p+n) is private and cleared. */
  ghost predicate ClearedAt(s: Sys, tabs: Tables, p: nat, n: nat) {
    p + n <= |s.mem| && forall a: nat :: p <= a < p + n ==> Private(s, tabs, a) && s.mem[a] == 0
  }

  /** [p, p+n) is private and holds the bytes of m0 from src on, k of them, then zeros. */
  ghost predicate FilledAt(s: Sys, tabs: Tables, p: nat, n: nat, m0: Mem, src: nat, k: nat) {
    && p + n <= |s.mem| && src + k <= |m0|
    && forall a: nat :: p <= a < p + n ==>
         Private(s, tabs, a) && s.mem[a] == if a - p < k then m0[src + (a - p)] else 0
  }

  lemma PrivateClear(s: Sys, tabs: Tables, p: nat, n: nat)
    requires n > 0 && ClearedAt(s, tabs, p, n)
    ensures ClearOfTables(tabs, p, n)
  {
    forall k | k in tabs ensures tabs[k] + 0x1000 <= p || p + n <= tabs[k] {
      var a := if p < tabs[k] then tabs[k] else p;
      assert p <= a < p + n ==> Private(s, tabs, a);
      assert p <= a < p + n ==> OutOfTable(tabs, k, a);
    }
  }

  /** Copying the file's bytes into the cleared memory. */
  lemma FilledLaw(s: Sys, root: nat, tabs: Tables, p: nat, n: nat, m0: Mem, src: nat, k: nat)
    requires Booted(s, root, tabs) && ClearedAt(s, tabs, p, n) && k <= n && n > 0
    requires |m0| == |s.mem| && src + k <= |m0| && (src + k <= p || p + n <= src)
    requires forall a: nat :: src <= a < src + k ==> s.mem[a] == m0[a]
    ensures |s.mem| > 0
    ensures var s' := s.(mem := CopyForward(s.mem, p, src, k));
            && Booted(s', root, tabs) && SameLeaves(s, tabs, s', tabs) && DiffersIn(s.mem, s'.mem, p, n)
            && FilledAt(s', tabs, p, n, m0, src, k)
  {
    var m' := CopyForward(s.mem, p, src, k);
    CopyBytes(s.mem, p, src, k);
    PrivateClear(s, tabs, p, n);
    BootedElsewhere(s, m', tabs, root, p, n);
    var s' := s.(mem := m');
    forall a: nat | p <= a < p + n
      ensures Private(s', tabs, a) && m'[a] == if a - p < k then m0[src + (a - p)] else 0
    {
      assert Private(s, tabs, a);
      forall key | key in tabs ensures OutOfTable(tabs, key, a) { assert OutOfTable(tabs, key, a); }
      if a - p < k { assert m'[a] == s.mem[src + (a - p)]; }
    }
  }

  /** Granted memory lies clear of the file. */
  lemma GrantClearOfFile(s: Sys, tabs: Tables, m0: Mem, lo: nat, len: nat,
                         regions: seq<Regions.Region>, p: nat, n: nat)
    requires FileHeld(s, tabs, m0, lo, len) && Granted(s.regions, regions, p, n, Regions.Kernel)
    ensures len > 0 && n > 0 ==> lo + len <= p || p + n * 0x1000 <= lo
  {
    var a := if p < lo then lo else p;
    assert lo <= a < lo + len ==> Private(s, tabs, a);
    assert p <= a < p + n * 0x1000 ==> Regions.TypeAt(s.regions, a) == Some(Regions.Available);
  }

  /** Bytes private before the grant are not among the granted ones. */
  lemma KeptAcrossFill(s: Sys, tabs: Tables, s2: Sys, tabs2: Tables, m': Mem, regions: seq<Regions.Region>,
                       p: nat, n: nat)
    requires Granted(s.regions, regions, p, n, Regions.Kernel) && KeepsPrivate(s, tabs, s2, tabs2)
    requires DiffersIn(s2.mem, m', p, n * 0x1000)
    ensures KeepsPrivate(s, tabs, s2.(mem := m'), tabs2)
  {
    forall x: nat | Private(s, tabs, x) ensures Private(s2.(mem := m'), tabs2, x) && m'[x] == s.mem[x] {
      assert Private(s2, tabs2, x);
      assert !(p <= x < p + n * 0x1000);
      forall k | k in tabs2 ensures OutOfTable(tabs2, k, x) { assert OutOfTable(tabs2, k, x); }
    }
  }

  /** Requests of a segment loaded at p; where p does not matter, 0 stands for it. */
  function SegReqs(p: u32, g: Segment): seq<Req> {
    SegmentReqs(p, g.vaddr, SegmentPerm(g.flags), 0, PagesNeeded(g.memsz))
  }

  predicate Fits(p: nat, g: Segment) {
    p % 0x1000 == 0 && p + PagesNeeded(g.memsz) * 0x1000 <= 0x1_0000_0000
  }

  lemma SegReqsFrames(p: u32, g: Segment, len: nat)
    requires GoodSegment(g, len) && Fits(p, g)
    ensures WholeFrames(SegReqs(p, g))
  {
    forall j | 0 <= j < |SegReqs(p, g)| ensures TablePage(SegReqs(p, g)[j].phys) {
      SegmentPages(p, g, len, j);
    }
  }

  lemma SegReqsNeed(have: set<Key>, p: u32, g: Segment, len: nat)
    requires GoodSegment(g, len) && Fits(p, g)
    ensures Need(have, SegReqs(p, g)) == Need(have, SegReqs(0, g))
    ensures Covered(have, SegReqs(p, g)) == Covered(have, SegReqs(0, g))
  {
    PagesCover(g.memsz);
    forall j | 0 <= j < PagesNeeded(g.memsz) ensures SegReqs(p, g)[j].Page() == SegReqs(0, g)[j].Page() {
      SegmentPages(p, g, len, j);
      SegmentPages(0, g, len, j);
    }
    NeedIgnoresFrames(have, SegReqs(p, g), SegReqs(0, g));
  }

  ghost predicate Unmapped(s: Sys, tabs: Tables, g: Segment) {
    forall j: nat :: j < PagesNeeded(g.memsz) ==> Leaf(s.mem, tabs, SegPage(g, j)) == 0
  }

  ghost predicate PageOfSegment(g: Segment, u: nat) {
    exists j: nat :: j < PagesNeeded(g.memsz) && SegPage(g, j) == u
  }

  /** The segment's pages map to consecutive frames from p on. */
  ghost predicate MappedTo(s: Sys, tabs: Tables, g: Segment, p: nat) {
    forall j: nat :: j < PagesNeeded(g.memsz) ==>
      Leaf(s.mem, tabs, SegPage(g, j)) == Pte(Wrap64(p + j * 0x1000), SegmentPerm(g.flags))
  }

  ghost predicate OthersKept(s: Sys, tabs: Tables, s': Sys, tabs': Tables, g: Segment) {
    forall u: nat :: !PageOfSegment(g, u) ==> Leaf(s'.mem, tabs', u) == Leaf(s.mem, tabs, u)
  }

  lemma SegmentMapped(s: Sys, tabs: Tables, s': Sys, tabs': Tables, root: nat, p: u32, g: Segment, len: nat)
    requires AllMapped(s, tabs, s', tabs', root, SegReqs(p, g)) && GoodSegment(g, len) && Fits(p, g)
    requires Unmapped(s, tabs, g)
    ensures MappedTo(s', tabs', g, p) && OthersKept(s, tabs, s', tabs', g)
  {
    hide Leaf, Pte, Booted, KeepsPrivate, Need, Covered, SegPage, FirstFor;
    forall j: nat | j < PagesNeeded(g.memsz)
      ensures Leaf(s'.mem, tabs', SegPage(g, j)) == Pte(Wrap64(p + j * 0x1000), SegmentPerm(g.flags))
    {
      FirstOfSegment(p, g, len, 0, j);
      assert Leaf(s.mem, tabs, SegPage(g, j)) == 0;
    }
    forall u: nat | !PageOfSegment(g, u) ensures Leaf(s'.mem, tabs', u) == Leaf(s.mem, tabs, u) {
      NoneOfSegment(p, g, len, 0, u);
    }
  }

  /** A loaded segment: its pages map to consecutive private frames, and these
      hold the file's bytes followed by zeros. */
  ghost predicate Loaded(s: Sys, tabs: Tables, m0: Mem, base: nat, g: Segment) {
    var p := FrameOf(Leaf(s.mem, tabs, SegPage(g, 0)));
    Fits(p, g) && MappedTo(s, tabs, g, p)
    && FilledAt(s, tabs, p, PagesNeeded(g.memsz) * 0x1000, m0, base + g.offset, g.filesz)
  }

  /** First frame of a loaded segment. */
  function FirstFrame(s: Sys, tabs: Tables, g: Segment): nat {
    FrameOf(Leaf(s.mem, tabs, SegPage(g, 0)))
  }

  predicate InFrames(s: Sys, tabs: Tables, g: Segment, a: nat) {
    FirstFrame(s, tabs, g) <= a < FirstFrame(s, tabs, g) + PagesNeeded(g.memsz) * 0x1000
  }

  /** The frames of g in s' hold no byte that was private in s. */
  ghost predicate FreshFrames(s: Sys, tabs: Tables, s': Sys, tabs': Tables, g: Segment) {
    forall a: nat {:trigger Private(s, tabs, a)} :: Private(s, tabs, a) ==> !InFrames(s', tabs', g, a)
  }

  /** What loading segment g does. */
  ghost predicate SegmentDone(s: Sys, tabs: Tables, s': Sys, tabs': Tables, root: nat, m0: Mem, base: nat, g: Segment) {
    && Booted(s', root, tabs') && KeepsPrivate(s, tabs, s', tabs')
    && OthersKept(s, tabs, s', tabs', g) && Loaded(s', tabs', m0, base, g)
    && FreshFrames(s, tabs, s', tabs', g)
    && tabs'.Keys == Covered(tabs.Keys, SegReqs(0, g))
    && FreePages(s.regions) == FreePages(s'.regions) + PagesNeeded(g.memsz) + Need(tabs.Keys, SegReqs(0, g))
    && |s'.regions| <= |s.regions| + 1 + Need(tabs.Keys, SegReqs(0, g))
  }

  lemma LoadedAt(s: Sys, tabs: Tables, m0: Mem, base: nat, g: Segment, p: u32, len: nat)
    requires GoodSegment(g, len) && Fits(p, g) && MappedTo(s, tabs, g, p)
    requires FilledAt(s, tabs, p, PagesNeeded(g.memsz) * 0x1000, m0, base + g.offset, g.filesz)
    ensures Loaded(s, tabs, m0, base, g) && FirstFrame(s, tabs, g) == p
  {
    PagesCover(g.memsz);
    PteMeans(p, SegmentPerm(g.flags));
    assert Leaf(s.mem, tabs, SegPage(g, 0)) == Pte(Wrap64(p + 0 * 0x1000), SegmentPerm(g.flags));
  }

  /** Granted frames were free, so nothing private stood there. */
  lemma FramesAreFresh(s: Sys, tabs: Tables, s': Sys, tabs': Tables, g: Segment, regions: seq<Regions.Region>, p: nat)
    requires Granted(s.regions, regions, p, PagesNeeded(g.memsz), Regions.Kernel) && FirstFrame(s', tabs', g) == p
    ensures FreshFrames(s, tabs, s', tabs', g)
  {
    hide FirstFrame, PagesNeeded;
    forall a: nat {:trigger Private(s, tabs, a)} | Private(s, tabs, a) ensures !InFrames(s', tabs', g, a) {
      assert p <= a < p + PagesNeeded(g.memsz) * 0x1000 ==> Regions.TypeAt(s.regions, a) == Some(Regions.Available);
    }
  }

  lemma MappedKept(s: Sys, tabs: Tables, s': Sys, tabs': Tables, g: Segment, p: nat)
    requires MappedTo(s, tabs, g, p) && SameLeaves(s, tabs, s', tabs')
    ensures MappedTo(s', tabs', g, p)
  {
    hide Leaf, Pte;
  }

  lemma OthersKeptThrough(s: Sys, tabs: Tables, s1: Sys, s2: Sys, tabs2: Tables, s3: Sys, g: Segment)
    requires SameLeaves(s, tabs, s1, tabs) && OthersKept(s1, tabs, s2, tabs2, g) && SameLeaves(s2, tabs2, s3, tabs2)
    ensures OthersKept(s, tabs, s3, tabs2, g)
  {
    hide Leaf, PageOfSegment;
    forall u: nat | !PageOfSegment(g, u) ensures Leaf(s3.mem, tabs2, u) == Leaf(s.mem, tabs, u) {
      assert Leaf(s2.mem, tabs2, u) == Leaf(s1.mem, tabs, u);
    }
  }

  lemma UnmappedKept(s: Sys, tabs: Tables, s1: Sys, g: Segment)
    requires Unmapped(s, tabs, g) && SameLeaves(s, tabs, s1, tabs)
    ensures Unmapped(s1, tabs, g)
  {
    hide Leaf;
  }

  lemma ClearedKept(s: Sys, tabs: Tables, s': Sys, tabs': Tables, p: nat, n: nat)
    requires ClearedAt(s, tabs, p, n) && KeepsPrivate(s, tabs, s', tabs')
    ensures ClearedAt(s', tabs', p, n)
  {
    hide Private;
  }

  /** The mapping stage, on the cleared memory. */
  lemma MapStage(s1: Sys, root: nat, tabs: Tables, p: u32, g: Segment, len: nat) returns (tabs2: Tables)
    requires Booted(s1, root, tabs) && GoodSegment(g, len) && Fits(p, g) && Unmapped(s1, tabs, g)
    requires FreePages(s1.regions) >= Need(tabs.Keys, SegReqs(0, g))
    ensures Machine(s1) && root % 0x1000 == 0 && root + 0x1000 <= 0x1_0000_0000
    ensures var s2 := MapAll(s1, root, SegReqs(p, g));
            && Booted(s2, root, tabs2) && MappedTo(s2, tabs2, g, p) && OthersKept(s1, tabs, s2, tabs2, g)
            && KeepsPrivate(s1, tabs, s2, tabs2) && tabs2.Keys == Covered(tabs.Keys, SegReqs(0, g))
            && FreePages(s1.regions) == FreePages(s2.regions) + Need(tabs.Keys, SegReqs(0, g))
            && |s2.regions| <= |s1.regions| + Need(tabs.Keys, SegReqs(0, g))
  {
    hide *;
    RootFits(s1, root, tabs);
    SegReqsFrames(p, g, len);
    SegReqsNeed(tabs.Keys, p, g, len);
    tabs2 := MapAllLaw(s1, root, tabs, SegReqs(p, g));
    SegmentMapped(s1, tabs, MapAll(s1, root, SegReqs(p, g)), tabs2, root, p, g, len);
    AllMappedParts(s1, tabs, MapAll(s1, root, SegReqs(p, g)), tabs2, root, SegReqs(p, g));
  }

  lemma AllMappedParts(s: Sys, tabs: Tables, s': Sys, tabs': Tables, root: nat, reqs: seq<Req>)
    requires AllMapped(s, tabs, s', tabs', root, reqs)
    ensures Booted(s', root, tabs') && KeepsPrivate(s, tabs, s', tabs') && tabs'.Keys == Covered(tabs.Keys, reqs)
    ensures FreePages(s.regions) == FreePages(s'.regions) + Need(tabs.Keys, reqs)
    ensures |s'.regions| <= |s.regions| + Need(tabs.Keys, reqs)
  {
    hide Booted, KeepsPrivate, Covered, Need, FreePages;
  }

  /** What the three stages of `LoadSegment` compute. */
  lemma LoadUnfolds(s: Sys, root: nat, h: Header, g: Segment, regions: seq<Regions.Region>, p: u32)
    requires Machine(s) && root % 0x1000 == 0 && root + 0x1000 <= 0x1_0000_0000
    requires Placeable(s, g) && PagesNeeded(g.memsz) > 0
    requires Allocate(s.regions, PagesNeeded(g.memsz), Regions.Kernel) == (regions, p)
    ensures PagesNeeded(g.memsz) < 0x10_0000
    ensures p == 0 ==> LoadSegment(s, root, h, g) == (s.(regions := regions), false)
    ensures p != 0 ==>
              && Fits(p, g)
              && var s1 := Sys(Zeroed(s.mem, p, PagesNeeded(g.memsz) * 0x1000), regions);
                 && Machine(s1)
                 && var s2 := MapAll(s1, root, SegReqs(p, g));
                    && Machine(s2)
                    && PagesNeeded(g.memsz) * 0x1000 >= g.filesz && MappedSegment(s, root, g) == s2
                    && LoadSegment(s, root, h, g) ==
                       (s2.(mem := CopyForward(s2.mem, p, Wrap32(h.base + g.offset), g.filesz)), true)
  {
    hide Allocate, SegmentReqs, MapAll, CopyForward, Zeroed, FreeAligned;
    PagesCover(g.memsz);
    assert AllocateSegment(s, PagesNeeded(g.memsz)) == (regions, p);
  }
}
