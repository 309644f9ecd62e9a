/** Kickstart's physical memory manager: `memory_regions` and
    `memory_region_count` (Kickstart/Multiboot/pmm.c), updated in place. */
module Pmm {
  import opened Bits
  import opened Regions
  import opened TombstoneSort
  import opened RegionOps

  const MAX_REGIONS: nat := 1024

  class RegionTable {
    const regions: array<Region>
    var count: nat

    ghost predicate Valid()
      reads this
    {
      regions.Length == MAX_REGIONS && count <= MAX_REGIONS
    }

    /** The counted part of the array. */
    ghost function List(): seq<Region>
      requires Valid()
      reads this, regions
    {
      regions[..count]
    }

    constructor ()
      ensures Valid() && fresh(regions) && List() == [] && regions.Length == 1024
    {
      regions := new Region[1024](_ => Region(0, 0, Available));
      count := 0;
    }

    method AddRegion(kind: Kind, start: u64, end: u64)
      requires Valid() && count < MAX_REGIONS
      modifies this, regions
      ensures Valid() && List() == Add(old(List()), kind, start, end)
    {
      var from, to := RoundRange(kind, start, end);
      regions[count] := Region(from, to, kind);
      count := count + 1;
      assert List() == old(List()) + [Rounded(kind, start, end)];
      SortRegions();
    }

    method RoundRange(kind: Kind, start: u64, end: u64) returns (from: u64, to: u64)
      ensures Region(from, to, kind) == Rounded(kind, start, end)
    {
      from, to := start, end;
      PageOffset(start);
      PageOffset(end);
      if And(from, 0xFFF) != 0 {
        if kind == Available {
          from := PageCeil(from);
        } else if kind == Reserved {
          from := PageFloor(from);
        }
      }
      if And(to, 0xFFF) != 0 {
        if kind == Available {
          to := PageFloor(to);
        } else if kind == Reserved {
          to := PageCeil(to);
        }
      }
    }

    method ReserveMemoryRegion(start: u32, end: u32)
      requires Valid() && count + 2 <= MAX_REGIONS
      modifies this, regions
      ensures Valid() && List() == Reserve(old(List()), start, end)
    {
      var from, to := start, end;
      PageOffset(start);
      PageOffset(end);
      if And(from, 0xFFF) != 0 {
        from := PageFloor32(from);
      }
      if And(to, 0xFFF) != 0 {
        to := PageCeil32(to);
      }
      assert from == PageFloor32(start) && to == PageCeil32(end);
      ghost var s := List();
      var i := 0;
      while i < count && !Holds(regions[i], from, to)
        invariant i <= count
        invariant forall j :: 0 <= j < i ==> !Holds(regions[j], from, to)
      {
        i := i + 1;
      }
      FirstUnique(s, (r: Region) => Holds(r, from, to), i);
      if i == count {
        return;
      }
      SplitContaining(i, from, to);
      SortRegions();
    }

    /** Record [from, to) and cut it out of entry i. */
    method SplitContaining(i: nat, from: u32, to: u32)
      requires Valid() && count + 2 <= MAX_REGIONS && i < count
      modifies this, regions
      ensures Valid() && List() == ReserveRaw(old(List()), i, from, to)
    {
      ghost var s := List();
      var new_region := count;
      regions[new_region] := Region(from, to, Allocated);
      count := count + 1;
      if regions[new_region].start == regions[i].start {
        regions[i] := regions[i].(start := regions[new_region].end);
      } else if regions[new_region].end == regions[i].end {
        regions[i] := regions[i].(end := regions[new_region].start);
      } else {
        regions[count] := Region(regions[new_region].end, regions[i].end, regions[i].kind);
        count := count + 1;
        regions[i] := regions[i].(end := regions[new_region].start);
      }
      assert List() == ReserveRaw(s, i, from, to);
    }

    method AllocateRegionWithType(n: u32, kind: Kind) returns (ret: u32)
      requires Valid() && count < MAX_REGIONS
      modifies this, regions
      ensures Valid() && (List(), ret) == Allocate(old(List()), n, kind)
    {
      if n == 0 {
        return 0;
      }
      var len := ByteLength(n);
      var i := FindFree(len);
      ret := 0;
      if i < count {
        ret := Wrap32(regions[i].start);
        CarveFrom(i, len, kind);
      }
      if ret != 0 {
        SortRegions();
      }
    }

    /** Index of the first entry with room, count if there is none. */
    method FindFree(len: u32) returns (i: nat)
      requires Valid()
      ensures i == FreeSlot(List(), len)
    {
      i := 0;
      while i < count && !LooksFree(regions[i], len)
        invariant i <= count
        invariant forall j :: 0 <= j < i ==> !LooksFree(regions[j], len)
      {
        i := i + 1;
      }
      FirstUnique(List(), (r: Region) => LooksFree(r, len), i);
    }

    /** Record the first len bytes of entry i and shorten the entry. */
    method CarveFrom(i: nat, len: u32, kind: Kind)
      requires Valid() && i < count < MAX_REGIONS
      modifies this, regions
      ensures Valid() && count == old(count) + 1
      ensures List() == CutRaw(old(List()), i, len, kind)
    {
      var potential_end := Wrap64(regions[i].start + len);
      regions[count] := Region(regions[i].start, potential_end, kind);
      count := count + 1;
      regions[i] := regions[i].(start := potential_end);
    }

    method DeallocateRegion(addr: u32)
      requires Valid()
      modifies this, regions
      ensures Valid() && List() == Deallocate(old(List()), addr)
    {
      var page := addr;
      PageOffset(addr);
      if And(page, 0xFFF) != 0 {
        page := PageFloor32(page);
      }
      ghost var s := List();
      var i := 0;
      while i < count && regions[i].start < page
        invariant i <= count
        invariant forall j :: 0 <= j < i ==> regions[j].start < page
      {
        i := i + 1;
      }
      FirstUnique(s, (r: Region) => r.start >= PageFloor32(addr), i);
      if i < count {
        if regions[i].start > page {
          return;
        }
        if regions[i].kind != Reserved {
          return;
        }
        regions[i] := regions[i].(kind := Available);
        assert List() == s[i := s[i].(kind := Available)];
      }
      CoalesceFree();
      SortRegions();
    }

    method CoalesceFree()
      requires Valid()
      modifies regions
      ensures Valid() && List() == Coalesce(old(List()), 0)
    {
      for i := 0 to count
        invariant Coalesce(List(), i) == Coalesce(old(List()), 0)
      {
        if regions[i].kind == Available && !regions[i].Empty() {
          ghost var s := List();
          var j := i + 1;
          while j < count
            invariant i < j <= count
            invariant Absorb(List(), i, j) == Absorb(s, i, i + 1)
          {
            if regions[j].kind != Available {
              break;
            }
            if !regions[j].Empty() {
              if regions[i].end != regions[j].start {
                break;
              }
              ghost var t := List();
              regions[i] := regions[i].(end := regions[j].end);
              regions[j] := regions[j].(start := regions[j].end);
              assert List() == t[i := t[i].(end := t[j].end)][j := t[j].(start := t[j].end)];
            }
            j := j + 1;
          }
        }
      }
    }

    method SortRegions()
      requires Valid()
      modifies this, regions
      ensures Valid() && List() == Compact(old(List()))
    {
      var invalid_count := CountInvalid();
      ghost var s := List();
      SweepAll();
      assert regions[..count - invalid_count] == List()[..count - invalid_count];
      count := count - invalid_count;
    }

    /** The outer loop. */
    method SweepAll()
      requires Valid()
      modifies regions
      ensures List() == BubbleSort(old(List()))
    {
      ghost var s := List();
      SortsToStart(s);
      var i := 0;
      while i < count
        invariant i <= count == |s|
        invariant SortsTo(List(), count - i, s)
      {
        ghost var before := List();
        Sweep(count - i);
        SweepAdvance(before, List(), count - i, s);
        i := i + 1;
      }
      SortsToEnd(List(), s);
    }

    /** The inner loop, over the first m entries. */
    method Sweep(m: nat)
      requires Valid() && 0 < m <= count
      modifies regions
      ensures Swept(old(List()), List(), m)
    {
      ghost var s := List();
      SweptOne(s);
      var j := 0;
      while j < m - 1
        invariant j < m && |List()| == |s|
        invariant Swept(s, List(), j + 1)
      {
        ghost var before := List();
        ExchangeNeighbours(j);
        SweptNext(s, before, List(), j);
        j := j + 1;
      }
    }

    method ExchangeNeighbours(j: nat)
      requires Valid() && j + 1 < count
      modifies regions
      ensures List() == Exchanged(old(List()), j)
    {
      if regions[j].Empty() {
        regions[j], regions[j + 1] := regions[j + 1], regions[j];
      } else if regions[j].start > regions[j + 1].start {
        regions[j], regions[j + 1] := regions[j + 1], regions[j];
      }
    }

    method CountInvalid() returns (invalid_count: nat)
      requires Valid()
      ensures invalid_count == Tombs(List())
    {
      invalid_count := 0;
      for i := 0 to count
        invariant invalid_count == Tombs(regions[..i])
      {
        assert regions[..i + 1] == regions[..i] + [regions[i]];
        TombsSnoc(regions[..i], regions[i]);
        if regions[i].Empty() {
          invalid_count := invalid_count + 1;
        }
      }
    }
  }

  /** The inner loop's body. */
  ghost function Exchanged(s: seq<Region>, j: nat): seq<Region>
    requires j + 1 < |s|
  {
    if Overtakes(s[j], s[j + 1]) then s[j := s[j + 1]][j + 1 := s[j]] else s
  }

  /** One sweep over the first m entries turns s into t. */
  ghost predicate Swept(s: seq<Region>, t: seq<Region>, m: nat) {
    m <= |s| == |t| && t[..m] == Pass(s[..m]) && t[m..] == s[m..]
  }

  lemma SweptOne(s: seq<Region>)
    ensures s != [] ==> Swept(s, s, 1)
  {
  }

  lemma SweptNext(s: seq<Region>, t: seq<Region>, u: seq<Region>, j: nat)
    requires j + 1 < |s| && Swept(s, t, j + 1) && u == Exchanged(t, j)
    ensures Swept(s, u, j + 2)
  {
    var p := Pass(s[..j + 1]);
    assert s[..j + 2][..j + 1] == s[..j + 1];
    assert p[j] == t[..j + 1][j] == t[j];
    assert s[j + 1] == s[j + 1..][0] == t[j + 1..][0] == t[j + 1];
    assert s[j + 2..] == s[j + 1..][1..] == t[j + 1..][1..] == u[j + 2..];
    assert u[..j + 2] == if Overtakes(t[j], t[j + 1]) then p[..j] + [t[j + 1], t[j]] else p + [t[j + 1]];
  }

  /** Sorting the first m entries of t gives the sorted s. */
  ghost predicate SortsTo(t: seq<Region>, m: nat, s: seq<Region>) {
    m <= |t| == |s| && BubbleSort(t[..m]) + t[m..] == BubbleSort(s)
  }

  lemma SortsToStart(s: seq<Region>)
    ensures SortsTo(s, |s|, s)
  {
    assert s[..|s|] == s;
  }

  lemma SortsToEnd(t: seq<Region>, s: seq<Region>)
    requires SortsTo(t, 0, s)
    ensures t == BubbleSort(s)
  {
    assert t[..0] == [] && t[0..] == t;
  }

  lemma SortUnrolls(a: seq<Region>, q: seq<Region>, c: Region)
    requires a != [] && Pass(a) == q + [c]
    ensures BubbleSort(a) == BubbleSort(q) + [c]
  {
    assert (q + [c])[..|q|] == q;
  }

  /** A sweep over the unsorted part hands its last entry to the sorted part. */
  lemma SweepAdvance(before: seq<Region>, after: seq<Region>, m: nat, s: seq<Region>)
    requires 0 < m && Swept(before, after, m) && SortsTo(before, m, s)
    ensures SortsTo(after, m - 1, s)
  {
    var q, c, tail := after[..m - 1], after[m - 1], after[m..];
    assert after[..m] == q + [c] && after[m - 1..] == [c] + tail;
    SortUnrolls(before[..m], q, c);
    Associative(BubbleSort(q), [c], tail);
  }
}
