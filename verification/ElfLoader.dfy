/** Kickstart's ELF loader as it runs: the static header record, the offset
    cursor and the segment loop (Kickstart/Multiboot/elf.c). */
module ElfLoader {
  import opened Bits
  import opened Bytes
  import opened Memory
  import opened RegionOps
  import opened PageBudget
  import opened Paging
  import opened MapRuns
  import opened Pmm
  import opened Pager
  import opened Elf
  import opened ElfLoad
  import opened ElfExpand
  import Regions

  /** Array slots a run of `map_page` calls takes. */
  function MapAdds(s: Sys, root: nat, reqs: seq<Req>): nat
    requires PagerReady(s, root)
    decreases |reqs|
  {
    if reqs == [] then 0 else
      var r := reqs[0];
      Adds(s, root, r.virt) + MapAdds(Paging.MapPage(s, root, r.phys, r.virt, r.perm), root, reqs[1..])
  }

  /** ... and one segment. */
  function SegmentSlots(s: Sys, root: nat, g: Segment): nat
    requires PagerReady(s, root) && Placeable(s, g)
  {
    hide Allocate, SegmentReqs, Paging.MapPage;
    PagesCover(g.memsz);
    var n := PagesNeeded(g.memsz);
    var (regions, p) := AllocateSegment(s, n);
    if p == 0 then 1
    else 1 + MapAdds(Sys(Zeroed(s.mem, p, n * 0x1000), regions), root,
                     SegmentReqs(p, g.vaddr, SegmentPerm(g.flags), 0, n))
  }

  /** ... and the whole loader, from program header i on. */
  function ExpandSlots(s: Sys, root: nat, h: Header, i: nat): nat
    requires PagerReady(s, root) && Loadable(s, root, h, i)
    decreases h.phnum - i
  {
    hide Allocate, SegmentReqs;
    if i >= h.phnum then 0 else
      var g := SegmentAt(s.mem, h, i);
      if !g.load then ExpandSlots(s, root, h, i + 1) else
        var (s1, ok) := LoadSegment(s, root, h, g);
        SegmentSlots(s, root, g) + if ok then ExpandSlots(s1, root, h, i + 1) else 0
  }

  class Loader {
    const machine: PagingMachine

    // the static `header` record
    var base_ptr: u32
    var cls: Class
    var endianness: Endian
    var arch: Arch
    var entry_point: nat
    var prog_header_offset: nat
    var prog_header_count: nat
    var prog_header_len: nat

    var program_entry_point: nat

    constructor (machine: PagingMachine)
      ensures this.machine == machine
    {
      this.machine := machine;
      base_ptr, cls, endianness, arch := 0, Class32, Little, X86;
      entry_point, prog_header_offset, prog_header_count, prog_header_len := 0, 0, 0, 0;
      program_entry_point := 0;
    }

    ghost function HeaderRecord(): Header
      reads this
    {
      Header(base_ptr, cls, endianness, arch, entry_point, prog_header_offset, prog_header_len, prog_header_count)
    }

    method Bytes(a: nat, n: nat) returns (b: seq<byte>)
      requires machine.Valid()
      ensures |machine.mem[..]| > 0 && b == Peek(machine.mem[..], a, n)
    {
      b := [];
      for i := 0 to n
        invariant |b| == i
        invariant forall j :: 0 <= j < i ==> b[j] == machine.mem[(a + j) % machine.mem.Length]
      {
        b := b + [machine.mem[(a + i) % machine.mem.Length]];
      }
    }

    method ReadHalf(a: nat, offset: nat) returns (v: nat, next: nat)
      requires machine.Valid()
      ensures |machine.mem[..]| > 0 && Cursor(v, next) == Half(machine.mem[..], a, offset, endianness)
    {
      hide Peek, ReadU16;
      var b := Bytes(a + offset, 2);
      v, next := ReadU16(endianness, b), offset + 2;
    }

    method ReadWord(a: nat, offset: nat) returns (v: nat, next: nat)
      requires machine.Valid()
      ensures |machine.mem[..]| > 0 && Cursor(v, next) == Word32(machine.mem[..], a, offset, endianness)
    {
      hide Peek, ReadU32;
      var b := Bytes(a + offset, 4);
      v, next := ReadU32(endianness, b), offset + 4;
    }

    /** `elf_read_addr` and `elf_read_off`. */
    method ReadAddr(a: nat, offset: nat) returns (v: nat, next: nat)
      requires machine.Valid()
      ensures |machine.mem[..]| > 0 && Cursor(v, next) == Addr(machine.mem[..], a, offset, cls, endianness)
    {
      hide Peek, ReadU32, ReadU64;
      if cls == Class32 {
        var b := Bytes(a + offset, 4);
        v, next := ReadU32(endianness, b), offset + 4;
      } else {
        var b := Bytes(a + offset, 8);
        v, next := ReadU64(endianness, b), offset + 8;
      }
    }

    method ReadXword(a: nat, offset: nat) returns (v: nat, next: nat)
      requires machine.Valid()
      ensures |machine.mem[..]| > 0 && Cursor(v, next) == Xword(machine.mem[..], a, offset, endianness)
    {
      hide Peek, ReadU64;
      var b := Bytes(a + offset, 8);
      v, next := ReadU64(endianness, b), offset + 8;
    }

    /** Decode the file header; on failure the record is left half filled. */
    method Initialize(elf_base_ptr: u32) returns (ok: bool)
      requires machine.Valid()
      modifies this
      ensures |machine.mem[..]| > 0
      ensures ok == ParseHeader(machine.mem[..], elf_base_ptr).Some?
      ensures ok ==> HeaderRecord() == ParseHeader(machine.mem[..], elf_base_ptr).value
      ensures program_entry_point == old(program_entry_point)
    {
      hide Peek, ParseFields;
      base_ptr := elf_base_ptr;
      var ident := Bytes(base_ptr, 6);
      if ident[..4] != MAGIC {
        return false;
      }
      if ident[4] != 1 && ident[4] != 2 {
        return false;
      }
      cls := if ident[4] == 1 then Class32 else Class64;
      if ident[5] != 1 && ident[5] != 2 {
        return false;
      }
      endianness := if ident[5] == 1 then Little else Big;
      ok := ReadFields();
    }

    method ReadFields() returns (ok: bool)
      requires machine.Valid()
      modifies this
      ensures |machine.mem[..]| > 0
      ensures var parsed := ParseFields(machine.mem[..], old(base_ptr), old(cls), old(endianness));
              ok == parsed.Some? && (ok ==> HeaderRecord() == parsed.value)
      ensures program_entry_point == old(program_entry_point)
    {
      hide Half, ParseRest;
      var offset, kind, e_machine := 16, 0, 0;
      kind, offset := ReadHalf(base_ptr, offset);
      if kind != 2 {
        return false;
      }
      e_machine, offset := ReadHalf(base_ptr, offset);
      if e_machine != 3 && e_machine != 62 {
        return false;
      }
      arch := if e_machine == 3 then X86 else Amd64;
      ReadRest(offset);
      return true;
    }

    method ReadRest(off: nat)
      requires machine.Valid()
      modifies this
      ensures |machine.mem[..]| > 0
      ensures HeaderRecord() ==
              ParseRest(machine.mem[..], old(base_ptr), off, old(arch), old(cls), old(endianness))
      ensures program_entry_point == old(program_entry_point)
    {
      hide Half, Word32, Addr;
      var offset, skipped := off, 0;
      skipped, offset := ReadWord(base_ptr, offset);
      entry_point, offset := ReadAddr(base_ptr, offset);
      prog_header_offset, offset := ReadAddr(base_ptr, offset);
      skipped, offset := ReadAddr(base_ptr, offset);
      skipped, offset := ReadWord(base_ptr, offset);
      skipped, offset := ReadHalf(base_ptr, offset);
      prog_header_len, offset := ReadHalf(base_ptr, offset);
      prog_header_count, offset := ReadHalf(base_ptr, offset);
    }

    /** Decode one program header. */
    method ReadSegment(a: nat) returns (g: Segment)
      requires machine.Valid()
      ensures |machine.mem[..]| > 0 && g == ParseSegment(machine.mem[..], a, cls, endianness)
    {
      hide Word32, Addr, Xword;
      var offset, kind, flags, f_off, vaddr, skipped, file_len, mem_len := 0, 0, 0, 0, 0, 0, 0, 0;
      kind, offset := ReadWord(a, offset);
      flags, offset := ReadWord(a, offset);
      f_off, offset := ReadAddr(a, offset);
      vaddr, offset := ReadAddr(a, offset);
      skipped, offset := ReadAddr(a, offset);
      file_len, offset := ReadXword(a, offset);
      mem_len, offset := ReadXword(a, offset);
      g := Segment(kind == 1, flags, f_off, vaddr, file_len, mem_len);
    }

    /** Memory, allocator and top table are fit for the loader. */
    ghost predicate Ready()
      reads this, machine, machine.pmm, machine.mem, machine.pmm.regions
    {
      machine.Valid() && PagerReady(machine.State(), machine.top_page_structure)
    }

    /** ... with sizes and array slots for the program headers from i on. */
    ghost predicate ReadyFrom(i: nat)
      reads this, machine, machine.pmm, machine.mem, machine.pmm.regions
    {
      && Ready()
      && Loadable(machine.State(), machine.top_page_structure, HeaderRecord(), i)
      && machine.pmm.count + ExpandSlots(machine.State(), machine.top_page_structure, HeaderRecord(), i) <= MAX_REGIONS
    }

    /** `elf_expand`. */
    method Expand() returns (ok: bool)
      requires Ready() && (arch == Amd64 ==> ReadyFrom(0))
      modifies this`program_entry_point, machine.mem, machine.pmm, machine.pmm.regions
      ensures Ready() && HeaderRecord() == old(HeaderRecord())
      ensures (machine.State(), ok) ==
              ElfExpand.Expand(old(machine.State()), machine.top_page_structure, HeaderRecord())
      ensures program_entry_point == if ok then entry_point else old(program_entry_point)
      ensures arch == X86 ==> ok && machine.State() == old(machine.State())
    {
      hide ElfExpand.ExpandFrom, Loadable, ExpandSlots, PagerReady, LoadSegment, SegmentAt, HeaderAt;
      if arch == Amd64 {
        ok := ExpandSegments();
        if !ok {
          return;
        }
      }
      program_entry_point := entry_point;
      ok := true;
    }

    /** The loop over the program headers. */
    method ExpandSegments() returns (ok: bool)
      requires ReadyFrom(0)
      modifies machine.mem, machine.pmm, machine.pmm.regions
      ensures Ready()
      ensures (machine.State(), ok) ==
              ExpandFrom(old(machine.State()), machine.top_page_structure, HeaderRecord(), 0)
    {
      hide ElfExpand.ExpandFrom, Loadable, ExpandSlots, PagerReady, LoadSegment, SegmentAt, HeaderAt;
      ghost var h, root := HeaderRecord(), machine.top_page_structure;
      var i := 0;
      while i < prog_header_count
        invariant i <= prog_header_count && HeaderRecord() == h
        invariant ReadyFrom(i)
        invariant ExpandFrom(machine.State(), root, h, i) == ExpandFrom(old(machine.State()), root, h, 0)
      {
        var loaded := ExpandOne(i);
        if !loaded {
          return false;
        }
        i := i + 1;
      }
      LoopEnd(machine.State(), root, h, i);
      return true;
    }

    /** One turn of the loop; false if the segment got no memory. */
    method ExpandOne(i: nat) returns (ok: bool)
      requires ReadyFrom(i) && i < prog_header_count
      modifies machine.mem, machine.pmm, machine.pmm.regions
      ensures Ready()
      ensures ok ==>
                && ReadyFrom(i + 1)
                && ExpandFrom(machine.State(), machine.top_page_structure, HeaderRecord(), i + 1) ==
                   ExpandFrom(old(machine.State()), machine.top_page_structure, HeaderRecord(), i)
      ensures !ok ==>
                ExpandFrom(old(machine.State()), machine.top_page_structure, HeaderRecord(), i) ==
                (machine.State(), false)
    {
      hide ElfExpand.ExpandFrom, Loadable, ExpandSlots, PagerReady, LoadSegment, HeaderAt, SegmentSlots;
      hide ParseSegment, Placeable;
      var prog_header := HeaderAddressOf(i);
      var g := ReadSegment(prog_header);
      LoopStep(machine.State(), machine.top_page_structure, HeaderRecord(), i);
      ok := true;
      if g.load {
        ok := LoadOne(g);
      }
    }

    method HeaderAddressOf(i: nat) returns (a: u32)
      ensures a == HeaderAt(HeaderRecord(), i)
    {
      var prog_header_base := Wrap32(base_ptr + prog_header_offset);
      a := Wrap32(prog_header_base + Wrap32(prog_header_len * i));
    }

    /** One PT_LOAD segment. */
    method LoadOne(g: Segment) returns (ok: bool)
      requires Ready() && Placeable(machine.State(), g)
      requires machine.pmm.count + SegmentSlots(machine.State(), machine.top_page_structure, g) <= MAX_REGIONS
      modifies machine.mem, machine.pmm, machine.pmm.regions
      ensures Ready()
      ensures (machine.State(), ok) ==
              LoadSegment(old(machine.State()), machine.top_page_structure, HeaderRecord(), g)
      ensures machine.pmm.count <= old(machine.pmm.count) +
          old(SegmentSlots(machine.State(), machine.top_page_structure, g))
    {
      hide SegmentReqs, MapAll, CopyForward, Zeroed, Allocate, LoadSegment, SegmentSlots, MapAdds, RegionOps.Allocate;
      ghost var s, root, h := machine.State(), machine.top_page_structure, HeaderRecord();
      PagesCover(g.memsz);
      SegmentStages(s, root, h, g);
      var pages_needed := PagesNeeded(g.memsz);
      var segment_region := machine.pmm.AllocateRegionWithType(pages_needed, Regions.Kernel);
      if segment_region == 0 {
        return false;
      }
      machine.Memset(segment_region, pages_needed * 0x1000);
      MapSegment(segment_region, g, pages_needed);
      machine.Memcpy(segment_region, Wrap32(base_ptr + g.offset), g.filesz);
      ok := true;
    }

    /** The inner loop: map the segment's pages. */
    method MapSegment(p: u32, g: Segment, n: u32)
      requires Ready()
      requires machine.pmm.count
               + MapAdds(machine.State(), machine.top_page_structure,
                         SegmentReqs(p, g.vaddr, SegmentPerm(g.flags), 0, n))
               <= MAX_REGIONS
      modifies machine.mem, machine.pmm, machine.pmm.regions
      ensures Ready()
      ensures machine.State() ==
              MapAll(old(machine.State()), machine.top_page_structure,
                     SegmentReqs(p, g.vaddr, SegmentPerm(g.flags), 0, n))
      ensures machine.pmm.count <= old(machine.pmm.count)
              + old(MapAdds(machine.State(), machine.top_page_structure,
                            SegmentReqs(p, g.vaddr, SegmentPerm(g.flags), 0, n)))
    {
      hide MapAll, MapAdds, Adds, Paging.MapPage, SegmentReqs, SegmentPerm;
      ghost var root := machine.top_page_structure;
      var segment_perms := SegmentPerm(g.flags);
      ghost var s0, all := machine.State(), SegmentReqs(p, g.vaddr, segment_perms, 0, n);
      ghost var bound := machine.pmm.count + MapAdds(s0, root, all);
      var i := 0;
      while i < n
        invariant i <= n && Ready()
        invariant machine.pmm.count
                  + MapAdds(machine.State(), root, SegmentReqs(p, g.vaddr, segment_perms, i, n)) <= bound
        invariant MapAll(machine.State(), root, SegmentReqs(p, g.vaddr, segment_perms, i, n)) == MapAll(s0, root, all)
      {
        MapOne(machine.State(), root, p, g.vaddr, segment_perms, i, n);
        machine.MapPage(Wrap64(p + i * 0x1000), Wrap64(g.vaddr + i * 0x1000), segment_perms);
        i := i + 1;
      }
      MapNone(machine.State(), root, p, g.vaddr, segment_perms, n);
    }
  }

  lemma MapOne(s: Sys, root: nat, p: u32, vaddr: nat, perm: Perm, i: nat, n: nat)
    requires PagerReady(s, root) && i < n
    ensures var phys, virt := Wrap64(p + i * 0x1000), Wrap64(vaddr + i * 0x1000);
            var reqs, rest := SegmentReqs(p, vaddr, perm, i, n), SegmentReqs(p, vaddr, perm, i + 1, n);
            var t := Paging.MapPage(s, root, phys, virt, perm);
            && MapAll(s, root, reqs) == MapAll(t, root, rest)
            && MapAdds(s, root, reqs) == Adds(s, root, virt) + MapAdds(t, root, rest)
  {
    hide Paging.MapPage, Adds, FreeAligned;
    var reqs := SegmentReqs(p, vaddr, perm, i, n);
    assert reqs[1..] == SegmentReqs(p, vaddr, perm, i + 1, n);
  }

  lemma MapNone(s: Sys, root: nat, p: u32, vaddr: nat, perm: Perm, n: nat)
    requires PagerReady(s, root)
    ensures MapAll(s, root, SegmentReqs(p, vaddr, perm, n, n)) == s
    ensures MapAdds(s, root, SegmentReqs(p, vaddr, perm, n, n)) == 0
  {
    hide FreeAligned;
    assert SegmentReqs(p, vaddr, perm, n, n) == [];
  }

  /** The stages of one segment and the slots they take. */
  lemma SegmentStages(s: Sys, root: nat, h: Header, g: Segment)
    requires PagerReady(s, root) && Placeable(s, g)
    ensures var n := PagesNeeded(g.memsz);
            var (regions, p) := RegionOps.Allocate(s.regions, n, Regions.Kernel);
            && n < 0x10_0000 && |regions| <= |s.regions| + 1 && g.filesz <= n * 0x1000
            && p + n * 0x1000 <= |s.mem| && FreeAligned(regions)
            && SegmentSlots(s, root, g) >= 1
            && (p == 0 ==> LoadSegment(s, root, h, g) == (s.(regions := regions), false))
            && (p != 0 ==>
                  var s1 := Sys(Zeroed(s.mem, p, n * 0x1000), regions);
                  var reqs := SegmentReqs(p, g.vaddr, SegmentPerm(g.flags), 0, n);
                  var s2 := MapAll(s1, root, reqs);
                  && SegmentSlots(s, root, g) == 1 + MapAdds(s1, root, reqs)
                  && LoadSegment(s, root, h, g) ==
                     (s2.(mem := CopyForward(s2.mem, p, Wrap32(h.base + g.offset), g.filesz)), true))
  {
    hide RegionOps.Allocate, SegmentReqs, MapAll, MapAdds, CopyForward, Zeroed, FreeAligned;
    PagesCover(g.memsz);
    AllocationGrows(s.regions, PagesNeeded(g.memsz), Regions.Kernel);
    assert AllocateSegment(s, PagesNeeded(g.memsz)) ==
        RegionOps.Allocate(s.regions, PagesNeeded(g.memsz), Regions.Kernel);
  }

  lemma LoopStep(s: Sys, root: nat, h: Header, i: nat)
    requires PagerReady(s, root) && Loadable(s, root, h, i) && i < h.phnum
    ensures |s.mem| > 0
    ensures var g := SegmentAt(s.mem, h, i);
            if !g.load then
              && Loadable(s, root, h, i + 1)
              && ExpandFrom(s, root, h, i) == ExpandFrom(s, root, h, i + 1)
              && ExpandSlots(s, root, h, i) == ExpandSlots(s, root, h, i + 1)
            else
              && Placeable(s, g)
              && var (s1, ok) := LoadSegment(s, root, h, g);
                 if ok then
                   && Loadable(s1, root, h, i + 1)
                   && ExpandFrom(s, root, h, i) == ExpandFrom(s1, root, h, i + 1)
                   && ExpandSlots(s, root, h, i) == SegmentSlots(s, root, g) + ExpandSlots(s1, root, h, i + 1)
                 else
                   && ExpandFrom(s, root, h, i) == (s1, false)
                   && ExpandSlots(s, root, h, i) == SegmentSlots(s, root, g)
  {
    hide SegmentAt, LoadSegment, SegmentSlots, FreeAligned;
  }

  lemma LoopEnd(s: Sys, root: nat, h: Header, i: nat)
    requires PagerReady(s, root) && Loadable(s, root, h, i) && i >= h.phnum
    ensures ExpandFrom(s, root, h, i) == (s, true)
  {
    hide FreeAligned;
  }
}
