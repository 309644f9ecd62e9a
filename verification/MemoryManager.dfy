/** The kernel's memory manager as it runs: physical memory, the end of the
    kernel and `physmap`, changed in place
    (Kernel/Arch/x86_64/memory-manager.c). */
module MemoryManager {
  import opened Bits
  import opened Bytes
  import opened Options
  import opened Memory
  import opened PageTables
  import opened RegionOps
  import opened Paging
  import opened Window
  import opened KernelMap
  import opened ManagerInit
  import opened Physmap
  import Regions

  class KernelMemory {
    const mem: array<byte>
    const bootstrap: nat
    var kernel_end_addr: u64
    var physmap: array<Record>
    var physmem_len: nat

    ghost function State(): Kern
      reads this, mem
    {
      Kern(mem[..], kernel_end_addr)
    }

    constructor (mem: array<byte>, bootstrap: nat, kern_end: u64)
      requires bootstrap + 0x1000 <= mem.Length
      ensures this.mem == mem && this.bootstrap == bootstrap && kernel_end_addr == PageCeil(kern_end)
      ensures physmem_len == 0 && fresh(physmap)
    {
      this.mem, this.bootstrap := mem, bootstrap;
      kernel_end_addr := PageCeil(kern_end);
      physmap := new Record[0];
      physmem_len := 0;
    }

    method InstallFractalMap()
      requires bootstrap < 0x1_0000_0000_0000_0000 && bootstrap + 0x1000 <= mem.Length
      modifies mem
      ensures mem[..] == StoreWord(old(mem[..]), bootstrap + 8 * 510, FractalEntry(bootstrap))
    {
      WriteWord(mem, bootstrap + 8 * FRACTAL_MAP_PML4_IDX, FractalEntry(bootstrap));
    }

    // ----- accesses through translation -----

    method LoadVirtual(a: nat) returns (w: Option<nat>)
      ensures w == VLoad(mem[..], bootstrap, a)
    {
      var t := Walk(mem[..], bootstrap, 4, PageOf(a));
      if t.None? {
        return None;
      }
      var p := t.value.frame + a % 0x1000;
      if p + 8 > mem.Length {
        return Some(0);
      }
      var x := ReadWord(mem, p);
      return Some(x);
    }

    method StoreVirtual(a: nat, w: nat) returns (ok: bool)
      modifies mem
      ensures var m := VStore(old(mem[..]), bootstrap, a, w);
              ok == m.Some? && mem[..] == if ok then m.value else old(mem[..])
    {
      var t := Walk(mem[..], bootstrap, 4, PageOf(a));
      ok := t.Some? && t.value.writable && t.value.frame + a % 0x1000 + 8 <= mem.Length;
      if ok {
        WriteWord(mem, t.value.frame + a % 0x1000, w);
      }
    }

    /** One turn of the mapping loop. */
    method MapAtEnd(phys: u64, perms: Perm) returns (o: Outcome)
      modifies this`kernel_end_addr, mem
      ensures (State(), o) == MapOne(old(State()), bootstrap, phys, perms)
    {
      hide VLoad, VStore, GetPml4, GetPdpt, GetPd, GetPt, ShiftIndex, Pte;
      var pml4e := LoadVirtual(GetPml4(kernel_end_addr) + 8 * ShiftIndex(kernel_end_addr, 39));
      if pml4e.None? {
        return Fault;
      }
      if !Present(pml4e.value) {
        return Refused;
      }
      var pdpe := LoadVirtual(GetPdpt(kernel_end_addr) + 8 * ShiftIndex(kernel_end_addr, 30));
      if pdpe.None? {
        return Fault;
      }
      var pde := LoadVirtual(GetPd(kernel_end_addr) + 8 * ShiftIndex(kernel_end_addr, 21));
      if pde.None? {
        return Fault;
      }
      var slot := GetPt(kernel_end_addr) + 8 * ShiftIndex(kernel_end_addr, 12);
      var pte := LoadVirtual(slot);
      if pte.None? {
        return Fault;
      }
      if Present(pte.value) {
        return Refused;
      }
      var stored := StoreVirtual(slot, Pte(phys, perms));
      if !stored {
        return Fault;
      }
      kernel_end_addr := Wrap64(kernel_end_addr + 0x1000);
      return Mapped;
    }

    /** NULL, which is zero here, unless every page was mapped. */
    method VirtMapPagesKernelEnd(physical_page_addr: u64, page_count: nat, perms: Perm) returns (ret: u64, o: Outcome)
      modifies this`kernel_end_addr, mem
      ensures (State(), o) == MapEnd(old(State()), bootstrap, physical_page_addr, page_count, perms)
      ensures ret == if o == Mapped then old(kernel_end_addr) else 0
    {
      hide MapOne;
      var start := kernel_end_addr;
      var phys: u64 := physical_page_addr;
      ghost var k0 := State();
      var i := 0;
      while i < page_count
        invariant i <= page_count
        invariant MapEnd(State(), bootstrap, phys, page_count - i, perms) ==
                  MapEnd(k0, bootstrap, physical_page_addr, page_count, perms)
      {
        MapEndUnfolds(State(), bootstrap, phys, page_count - i, perms);
        o := MapAtEnd(phys, perms);
        if o != Mapped {
          return 0, o;
        }
        phys := Wrap64(phys + 0x1000);
        i := i + 1;
      }
      return start, Mapped;
    }

    // ----- the loops over the boot map -----

    method CountRuns(regions: seq<Regions.Region>) returns (combined_region_count: nat, bitmap_bit_count: nat)
      ensures combined_region_count == RunCount(regions, 0) && bitmap_bit_count == BitCount(regions, 0)
      ensures combined_region_count == |Heads(regions, 0)|
    {
      hide RoundUp8, Heads;
      combined_region_count, bitmap_bit_count := 0, 0;
      var i := 0;
      while i < |regions|
        invariant i <= |regions|
        invariant combined_region_count + RunCount(regions, i) == RunCount(regions, 0)
        invariant bitmap_bit_count + BitCount(regions, i) == BitCount(regions, 0)
      {
        ghost var first := i;
        var region := regions[i];
        if Combinable(region.kind) {
          var combined_end := region.end;
          var j := i + 1;
          while j < |regions| && Combinable(regions[j].kind) && regions[j].start == combined_end
            invariant i + 1 == j <= |regions| && combined_end == regions[i].end
            invariant RunStop(regions, j, combined_end) == Next(regions, first)
          {
            combined_end := regions[j].end;
            i := i + 1;
            j := j + 1;
          }
          bitmap_bit_count := bitmap_bit_count + RoundUp8(Minus64(combined_end, region.start) / 0x1000);
        }
        combined_region_count := combined_region_count + 1;
        i := i + 1;
        assert i == Next(regions, first);
      }
      RunsAreHeads(regions, 0);
    }

    /** The first suitable entry's start, zero if there is none. */
    method FindRoom(regions: seq<Regions.Region>, pages: nat) returns (phys_manager_addr: u64)
      ensures phys_manager_addr == Room(regions, pages)
      ensures Physical(regions) && pages < 0x8_0000_0000_0000 ==> LowestFit(regions, pages, phys_manager_addr)
    {
      phys_manager_addr := 0;
      if Physical(regions) && pages < 0x8_0000_0000_0000 { RoomIsLowest(regions, pages); }
      for i := 0 to |regions|
        invariant forall j :: 0 <= j < i ==> !Suitable(regions[j], pages)
      {
        var region := regions[i];
        if region.kind == Regions.Available {
          if region.start < ONE_MIB {
            continue;
          }
          var potential_end := Wrap64(region.start + pages * 0x1000);
          if region.end < potential_end {
            continue;
          }
          FirstUnique(regions, (r: Regions.Region) => Suitable(r, pages), i);
          return region.start;
        }
      }
      FirstUnique(regions, (r: Regions.Region) => Suitable(r, pages), |regions|);
    }

    /** `memset(ptr, 0, n * 0x1000)` through the tables; false if an access faults. */
    method ClearVirtual(ptr: nat, n: nat) returns (ok: bool)
      modifies mem
      ensures var m := ClearPages(old(mem[..]), bootstrap, ptr, n);
              ok == m.Some? && (ok ==> mem[..] == m.value)
    {
      hide Walk, Zeroed;
      var a := ptr;
      for i := 0 to n
        invariant a == ptr + 0x1000 * i
        invariant ClearPages(mem[..], bootstrap, a, n - i) == ClearPages(old(mem[..]), bootstrap, ptr, n)
      {
        var t := Walk(mem[..], bootstrap, 4, PageOf(a));
        if t.None? || !t.value.writable || t.value.frame + 0x1000 > mem.Length {
          return false;
        }
        ClearFrame(t.value.frame);
        a := a + 0x1000;
      }
      return true;
    }

    method ClearFrame(p: nat)
      requires p + 0x1000 <= mem.Length
      modifies mem
      ensures mem[..] == Zeroed(old(mem[..]), p, 0x1000)
    {
      ghost var m := mem[..];
      for i := 0 to 0x1000
        invariant forall x :: 0 <= x < mem.Length ==> mem[x] == if p <= x < p + i then 0 else m[x]
      {
        mem[p + i] := 0;
      }
      assert mem[..] == Store(m, p, Zeros(0x1000));
    }

    /** From the window to the filled map. */
    method InitMemoryManager(regions: seq<Regions.Region>) returns (r: Setup)
      requires bootstrap < 0x1_0000_0000_0000_0000 && bootstrap + 0x1000 <= mem.Length && physmem_len == 0
      modifies this`kernel_end_addr, this`physmap, this`physmem_len, mem
      ensures var (k, setup) := InitManager(old(State()), bootstrap, regions);
              r == setup && (!r.Stopped? ==> State() == k)
      ensures r.Started? ==> physmem_len <= physmap.Length && physmap[..physmem_len] == Records(regions, 0, r.ptr)
      ensures !r.Started? ==> physmem_len == 0
    {
      hide Walk, MapEnd, ClearPages, Records, Room, FractalEntry, StoreWord;
      ghost var k := State();
      InitUnfolds(k, bootstrap, regions);
      InstallFractalMap();
      var combined_region_count, bitmap_bit_count := CountRuns(regions);
      var bitmap_page_count := bitmap_bit_count / 8 / 0x1000 + 1;
      var regions_page_count := combined_region_count * RECORD_SIZE / 0x1000 + 1;
      var phys_manager_page_count := bitmap_page_count + regions_page_count;
      var phys_manager_addr := FindRoom(regions, phys_manager_page_count);
      if phys_manager_addr == 0 {
        return NoRoom;
      }
      var ptr, o := VirtMapPagesKernelEnd(phys_manager_addr, phys_manager_page_count, Perm(true, true, false));
      if o == Fault {
        return Stopped;
      }
      var cleared := ClearVirtual(ptr, phys_manager_page_count);
      if !cleared {
        return Stopped;
      }
      Populate(regions, ptr);
      return Started(ptr);
    }

    /** The records, in the cleared pages after the bitmaps, which start at `bitmap`. */
    method Populate(regions: seq<Regions.Region>, bitmap: nat)
      requires physmem_len == 0
      modifies this`physmap, this`physmem_len
      ensures fresh(physmap) && physmap.Length == 128 * RecordPages(regions)
      ensures physmem_len <= physmap.Length && physmap[..physmem_len] == Records(regions, 0, bitmap)
      ensures Regions.Valid(regions) ==> RecordsOf(regions, physmap[..physmem_len], Heads(regions, 0))
    {
      hide SliceBytes, Minus64, RecordPages, Records, RunCount, TypeOf, Heads, RecordsOf;
      physmap := new Record[128 * RecordPages(regions)](_ => Record(0, 0, None, MemAvailable));
      RecordsCounted(regions, 0, bitmap);
      var bitmap_addr: nat := bitmap;
      var i := 0;
      while i < |regions|
        invariant i <= |regions| && fresh(physmap) && physmap.Length == 128 * RecordPages(regions)
        invariant physmem_len + RunCount(regions, i) == RunCount(regions, 0) && physmem_len <= physmap.Length
        invariant physmap[..physmem_len] + Records(regions, i, bitmap_addr) == Records(regions, 0, bitmap)
      {
        RecordsUnfold(regions, i, bitmap_addr);
        RoomForRecord(regions, physmem_len);
        ghost var first := i;
        var region := regions[i];
        var region_end := region.end;
        var map_addr := None;
        if Combinable(region.kind) {
          var j := i + 1;
          while j < |regions| && Combinable(regions[j].kind) && regions[j].start == region_end
            invariant i + 1 == j <= |regions| && region_end == regions[i].end
            invariant RunStop(regions, j, region_end) == Next(regions, first)
          {
            region_end := regions[j].end;
            i := i + 1;
            j := j + 1;
          }
          map_addr := Some(bitmap_addr);
          bitmap_addr := bitmap_addr + SliceBytes(Minus64(region_end, region.start));
        }
        assert i + 1 == Next(regions, first);
        AppendRecord(Record(region.start, Minus64(region_end, region.start), map_addr, TypeOf(region.kind)));
        i := i + 1;
      }
      RecordsEnd(regions, bitmap_addr);
      if Regions.Valid(regions) { RecordsAre(regions, bitmap); }
    }

    method AppendRecord(r: Record)
      requires physmem_len < physmap.Length
      modifies physmap, this`physmem_len
      ensures physmem_len == old(physmem_len) + 1 && physmap[..physmem_len] == old(physmap[..physmem_len]) + [r]
    {
      physmap[physmem_len] := r;
      physmem_len := physmem_len + 1;
    }
  }

  lemma RecordsUnfold(s: seq<Regions.Region>, i: nat, bitmap: nat)
    requires i < |s|
    ensures RunCount(s, i) == 1 + RunCount(s, Next(s, i))
    ensures forall done: seq<Record> {:trigger done + Records(s, i, bitmap)} ::
              done + Records(s, i, bitmap) ==
              done + [RecordAt(s, i, bitmap)] + Records(s, Next(s, i), NextBitmap(s, i, bitmap))
  {
  }

  lemma RecordsEnd(s: seq<Regions.Region>, bitmap: nat)
    ensures Records(s, |s|, bitmap) == [] && RunCount(s, |s|) == 0
  {
  }

  lemma RoomForRecord(s: seq<Regions.Region>, j: nat)
    requires j < RunCount(s, 0)
    ensures j < 128 * RecordPages(s)
  {
    RecordsRoom(RunCount(s, 0), j);
  }
}
