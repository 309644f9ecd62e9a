/** The operations of Kickstart/Multiboot/pmm.c as functions of the region list,
    and what each of them does to the memory map. */
module RegionOps {
  import opened Bits
  import opened Options
  import opened Regions
  import opened TombstoneSort

  const ONE_MIB: nat := 0x10_0000

  // ----- rounding -----

  /** `x & ~0xFFF` on 64 bits. */
  function PageFloor(x: u64): (r: u64)
    ensures r == x - x % 0x1000
  {
    PageMask64(x);
    And(x, 0xFFFF_FFFF_FFFF_F000)
  }

  lemma Ceiling64(x: u64)
    ensures var y := Wrap64(x + 0xFFF);
            var r := y - y % 0x1000;
            && (x <= 0xFFFF_FFFF_FFFF_F000 ==> r % 0x1000 == 0 && x <= r < x + 0x1000)
            && (x > 0xFFFF_FFFF_FFFF_F000 ==> r == 0)
  {
    if x > 0xFFFF_FFFF_FFFF_F000 {
      DivUnique(x + 0xFFF, 0x1_0000_0000_0000_0000, 1, x - 0xFFFF_FFFF_FFFF_F001);
    }
  }

  /** `(x + 0xFFF) & ~0xFFF` on 64 bits; the sum wraps. */
  function PageCeil(x: u64): (r: u64)
    ensures x <= 0xFFFF_FFFF_FFFF_F000 ==> r % 0x1000 == 0 && x <= r < x + 0x1000
    ensures x > 0xFFFF_FFFF_FFFF_F000 ==> r == 0
  {
    hide Wrap64, And;
    Ceiling64(x);
    PageFloor(Wrap64(x + 0xFFF))
  }

  /** The same on Kickstart's 32-bit `uintptr_t`. */
  function PageFloor32(x: u32): (r: u32)
    ensures r == x - x % 0x1000
  {
    PageMask32(x);
    And(x, 0xFFFF_F000)
  }

  lemma Ceiling32(x: u32)
    ensures var y := Wrap32(x + 0xFFF);
            var r := y - y % 0x1000;
            && (x <= 0xFFFF_F000 ==> r % 0x1000 == 0 && x <= r < x + 0x1000)
            && (x > 0xFFFF_F000 ==> r == 0)
  {
    if x > 0xFFFF_F000 {
      DivUnique(x + 0xFFF, 0x1_0000_0000, 1, x - 0xFFFF_F001);
    }
  }

  function PageCeil32(x: u32): (r: u32)
    ensures x <= 0xFFFF_F000 ==> r % 0x1000 == 0 && x <= r < x + 0x1000
    ensures x > 0xFFFF_F000 ==> r == 0
  {
    hide Wrap32, And;
    Ceiling32(x);
    PageFloor32(Wrap32(x + 0xFFF))
  }

  lemma PageMask64(x: u64)
    ensures And(x, 0xFFFF_FFFF_FFFF_F000) == x - x % 0x1000
  {
    hide And, Pow2;
    Pow2Values();
    AndField(x, 12, 52);
  }

  lemma PageMask32(x: u32)
    ensures And(x, 0xFFFF_F000) == x - x % 0x1000
  {
    hide And, Pow2;
    Pow2Values();
    AndField(x, 12, 20);
  }

  lemma PageOffset(x: nat)
    ensures And(x, 0xFFF) == x % 0x1000
  {
    AndLowMask(x, 12);
    assert Pow2(12) == 0x1000;
  }

  /** The range `pmm_add_region` records: free memory shrinks to whole pages,
      reserved memory grows, every other kind stays as reported. */
  function Rounded(k: Kind, start: u64, end: u64): (r: Region)
  {
    if k == Available then Region(if start % 0x1000 != 0 then PageCeil(start) else start, PageFloor(end), k)
    else if k == Reserved then Region(PageFloor(start), if end % 0x1000 != 0 then PageCeil(end) else end, k)
    else Region(start, end, k)
  }

  // ----- searching -----

  /** Index of the first entry that p accepts, |s| if none. */
  function First(s: seq<Region>, p: Region -> bool): (i: nat)
    ensures i <= |s|
    ensures i < |s| ==> p(s[i])
    ensures forall j :: 0 <= j < i ==> !p(s[j])
  {
    if s == [] then 0 else if p(s[0]) then 0 else
      var i := First(s[1..], p);
      assert forall j :: 0 < j < i + 1 ==> s[j] == s[1..][j - 1];
      i + 1
  }

  lemma FirstUnique(s: seq<Region>, p: Region -> bool, i: nat)
    requires i <= |s| && (i < |s| ==> p(s[i])) && forall j :: 0 <= j < i ==> !p(s[j])
    ensures First(s, p) == i
  {
  }

  predicate Holds(r: Region, start: int, end: int) {
    r.start <= start && end <= r.end && r.kind == Available
  }

  /** The allocator's test, with its 64-bit sum. */
  predicate LooksFree(r: Region, len: u32) {
    ONE_MIB <= r.start && r.kind == Available && Wrap64(r.start + len) <= r.end
  }

  // ----- operations -----

  function Add(s: seq<Region>, k: Kind, start: u64, end: u64): seq<Region> {
    Compact(s + [Rounded(k, start, end)])
  }

  /** The array right before `pmm_reserve_memory_region` sorts it. */
  function ReserveRaw(s: seq<Region>, i: nat, start: u64, end: u64): seq<Region>
    requires i < |s|
  {
    var r, new_region := s[i], Region(start, end, Allocated);
    if start == r.start then s[i := r.(start := end)] + [new_region]
    else if end == r.end then s[i := r.(end := start)] + [new_region]
    else s[i := r.(end := start)] + [new_region, Region(end, r.end, r.kind)]
  }

  function Reserve(s: seq<Region>, start: u32, end: u32): seq<Region> {
    var from, to := PageFloor32(start), PageCeil32(end);
    var i := First(s, (r: Region) => Holds(r, from, to));
    if i == |s| then s else Compact(ReserveRaw(s, i, from, to))
  }

  /** `region_page_count * 0x1000` in the 32-bit `size_t`. */
  function ByteLength(n: u32): u32 { Wrap32(n * 0x1000) }

  function FreeSlot(s: seq<Region>, len: u32): (i: nat)
    ensures i <= |s| && (i < |s| ==> LooksFree(s[i], len))
    ensures forall j :: 0 <= j < i ==> !LooksFree(s[j], len)
  {
    First(s, (r: Region) => LooksFree(r, len))
  }

  function Chosen(s: seq<Region>, n: u32): nat { FreeSlot(s, ByteLength(n)) }

  /** The array right before an allocation sorts it: the first len bytes of
      entry i recorded at the end. */
  function CutRaw(s: seq<Region>, i: nat, len: u32, k: Kind): seq<Region>
    requires i < |s|
  {
    var end := Wrap64(s[i].start + len);
    s[i := s[i].(start := end)] + [Region(s[i].start, end, k)]
  }

  /** New array and returned pointer; the pointer keeps only 32 bits of the
      address, and the array is sorted only if that is not zero. */
  function Allocate(s: seq<Region>, n: u32, k: Kind): (seq<Region>, u32) {
    var i := Chosen(s, n);
    if n == 0 || i == |s| then (s, 0) else
      var ret := Wrap32(s[i].start);
      var raw := CutRaw(s, i, ByteLength(n), k);
      (if ret != 0 then Compact(raw) else raw, ret)
  }

  /** The inner coalescing loop: head i takes in what follows from j on. */
  function Absorb(s: seq<Region>, i: nat, j: nat): (r: seq<Region>)
    requires i < j <= |s|
    ensures |r| == |s|
    decreases |s| - j
  {
    if j == |s| || s[j].kind != Available then s
    else if s[j].Empty() then Absorb(s, i, j + 1)
    else if s[i].end != s[j].start then s
    else Absorb(s[i := s[i].(end := s[j].end)][j := s[j].(start := s[j].end)], i, j + 1)
  }

  function Coalesce(s: seq<Region>, i: nat): (r: seq<Region>)
    requires i <= |s|
    ensures |r| == |s|
    decreases |s| - i
  {
    if i == |s| then s
    else if s[i].kind != Available || s[i].Empty() then Coalesce(s, i + 1)
    else Coalesce(Absorb(s, i, i + 1), i + 1)
  }

  function Deallocate(s: seq<Region>, addr: u32): seq<Region> {
    var page := PageFloor32(addr);
    var i := First(s, (r: Region) => r.start >= page);
    if i < |s| && (s[i].start > page || s[i].kind != Reserved) then s
    else if i < |s| then Compact(Coalesce(s[i := s[i].(kind := Available)], 0))
    else Compact(Coalesce(s, 0))
  }

  // ----- replacing one entry -----

  /** Put `mid` where entry i stood. */
  function Splice(s: seq<Region>, i: nat, mid: seq<Region>): seq<Region>
    requires i < |s|
  {
    s[..i] + mid + s[i + 1..]
  }

  predicate Within(mid: seq<Region>, r: Region) {
    forall k :: 0 <= k < |mid| ==> r.start <= mid[k].start && mid[k].end <= r.end
  }

  lemma SpliceValid(s: seq<Region>, i: nat, mid: seq<Region>)
    requires Valid(s) && i < |s| && Valid(mid) && Within(mid, s[i])
    ensures Valid(Splice(s, i, mid))
  {
    var t := Splice(s, i, mid);
    forall k | 0 <= k < |t|
      ensures k < i ==> t[k] == s[k]
      ensures i <= k < i + |mid| ==> t[k] == mid[k - i]
      ensures i + |mid| <= k ==> t[k] == s[k - |mid| + 1]
    {
    }
    forall a, b | 0 <= a < b < |t| ensures t[a].end <= t[b].start {
      if a < i && i <= b < i + |mid| { assert s[a].end <= s[i].start; }
      if i <= a < i + |mid| <= b { assert s[i].end <= s[b - |mid| + 1].start; }
    }
  }

  lemma {:induction false} TypeAtOutside(s: seq<Region>, a: int)
    requires forall i :: 0 <= i < |s| ==> !(s[i].start <= a < s[i].end)
    ensures TypeAt(s, a) == None
  {
    if s != [] { TypeAtOutside(s[1..], a); }
  }

  lemma SpliceTypes(s: seq<Region>, i: nat, mid: seq<Region>, a: int)
    requires Valid(s) && i < |s| && Within(mid, s[i])
    ensures TypeAt(Splice(s, i, mid), a) ==
            if s[i].start <= a < s[i].end then TypeAt(mid, a) else TypeAt(s, a)
  {
    var pre, post := s[..i], s[i + 1..];
    assert s == Splice(s, i, [s[i]]);
    TypeAtThree(pre, [s[i]], post, a);
    TypeAtThree(pre, mid, post, a);
    if s[i].start <= a < s[i].end {
      forall k | 0 <= k < |pre| ensures !(pre[k].start <= a < pre[k].end) { assert s[k].end <= s[i].start; }
      TypeAtOutside(pre, a);
      TypeAtOutside(post, a);
    } else {
      TypeAtOutside([s[i]], a);
      TypeAtOutside(mid, a);
    }
  }

  lemma TypeAtThree(pre: seq<Region>, mid: seq<Region>, post: seq<Region>, a: int)
    ensures TypeAt(pre + mid + post, a) ==
            if TypeAt(pre, a).Some? then TypeAt(pre, a)
            else if TypeAt(mid, a).Some? then TypeAt(mid, a) else TypeAt(post, a)
  {
    TypeAtConcat(pre + mid, post, a);
    TypeAtConcat(pre, mid, a);
  }

  /** Shrinking entry i and appending the pieces cut off it, then sorting, puts
      the pieces in place. */
  lemma SpliceCompact(s: seq<Region>, i: nat, x: Region, added: seq<Region>, mid: seq<Region>)
    requires Valid(s) && i < |s| && Valid(mid) && Within(mid, s[i])
    requires x.Empty() ==> s[i].start <= x.start
    requires forall k :: 0 <= k < |added| ==> !added[k].Empty()
    requires multiset(mid) == multiset(Live([x])) + multiset(added)
    ensures Compact(s[i := x] + added) == Splice(s, i, mid)
  {
    var raw := s[i := x] + added;
    forall a, b | 0 <= a < b < |raw| && raw[b].Empty() && !raw[a].Empty()
      ensures raw[a].start <= raw[b].start
    {
      assert b == i;
      assert s[a].end <= s[i].start;
    }
    NothingOvertakes(raw);
    SpliceValid(s, i, mid);
    ValidIsStrict(Splice(s, i, mid));
    LiveOfSplice(s, i, x);
    LiveConcat(s[i := x], added);
    AllLive(added);
    CompactTo(raw, Splice(s, i, mid));
  }

  lemma LiveOfSplice(s: seq<Region>, i: nat, x: Region)
    requires Valid(s) && i < |s|
    ensures Live(s[i := x]) == Splice(s, i, Live([x]))
  {
    assert s[i := x] == s[..i] + [x] + s[i + 1..];
    LiveThree(s[..i], [x], s[i + 1..]);
    LiveEnds(s, i);
  }

  lemma LiveEnds(s: seq<Region>, i: nat)
    requires Valid(s) && i < |s|
    ensures Live(s[..i]) == s[..i] && Live(s[i + 1..]) == s[i + 1..]
  {
    AllLive(s[..i]);
    AllLive(s[i + 1..]);
  }

  lemma LiveThree(pre: seq<Region>, mid: seq<Region>, post: seq<Region>)
    ensures Live(pre + mid + post) == Live(pre) + Live(mid) + Live(post)
  {
    LiveConcat(pre + mid, post);
    LiveConcat(pre, mid);
  }

  lemma LiveOne(x: Region)
    ensures Live([x]) == if x.Empty() then [] else [x]
  {
    assert [x][1..] == [];
  }
}
