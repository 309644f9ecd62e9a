/** The layout of the kernel's own memory map: the counting loop and the
    populating loop of `init_memory_manager` as functions of the boot map
    (Kernel/Arch/x86_64/memory-manager.c:86-169, 215-301). */
module Physmap {
  import opened Bits
  import opened Options
  import opened Regions
  import opened RegionOps
  import opened RegionEdges

  datatype MemType = MemAvailable | MemReserved | AcpiReclaim | MemNvs | MemBad

  /** `struct physmem_region`: `bitmap` is the address of its bitmap. */
  datatype Record = Record(addr: u64, len: u64, bitmap: Option<nat>, kind: MemType)

  const RECORD_SIZE: nat := 32

  predicate Combinable(k: Kind) { k == Available || k == Allocated }

  function TypeOf(k: Kind): MemType {
    match k
    case Available => MemAvailable
    case Allocated => MemAvailable
    case Reclaimable => AcpiReclaim
    case Nvs => MemNvs
    case BadMem => MemBad
    case Kernel => MemReserved
    case Reserved => MemReserved
  }

  // ----- runs -----

  predicate Joins(r: Region, end: u64) { Combinable(r.kind) && r.start == end }

  /** Where the inner loop stops that has reached entry j with a run ending at `end`. */
  function RunStop(s: seq<Region>, j: nat, end: u64): (t: nat)
    requires j <= |s|
    ensures j <= t <= |s|
    decreases |s| - j
  {
    if j < |s| && Joins(s[j], end) then RunStop(s, j + 1, s[j].end) else j
  }

  /** The first entry after the run that starts at entry i. */
  function Next(s: seq<Region>, i: nat): (t: nat)
    requires i < |s|
    ensures i < t <= |s|
  {
    if Combinable(s[i].kind) then RunStop(s, i + 1, s[i].end) else i + 1
  }

  function Minus64(a: u64, b: u64): (r: u64)
    ensures b <= a ==> r == a - b
  {
    Wrap64(a + 0x1_0000_0000_0000_0000 - b)
  }

  function RunSize(s: seq<Region>, i: nat): u64
    requires i < |s|
  {
    Minus64(s[Next(s, i) - 1].end, s[i].start)
  }

  // ----- the counting loop -----

  /** `(x + 0x7) & (~0x7)` on 64 bits. */
  function RoundUp8(x: u64): (r: u64)
    ensures x <= 0xFFFF_FFFF_FFFF_FFF8 ==> r == (x + 7) / 8 * 8
  {
    Mask8(Wrap64(x + 7));
    And(Wrap64(x + 7), 0xFFFF_FFFF_FFFF_FFF8)
  }

  lemma Mask8(x: u64)
    ensures And(x, 0xFFFF_FFFF_FFFF_FFF8) == x / 8 * 8
  {
    hide And;
    Pow2Values();
    Pow2Add(52, 9);
    assert Pow2(3) == 8;
    AndField(x, 3, 61);
  }

  function RunBits(s: seq<Region>, i: nat): nat
    requires i < |s|
  {
    if Combinable(s[i].kind) then RoundUp8(RunSize(s, i) / 0x1000) else 0
  }

  function BitCount(s: seq<Region>, i: nat): nat
    decreases |s| - i
  {
    if i >= |s| then 0 else RunBits(s, i) + BitCount(s, Next(s, i))
  }

  function RunCount(s: seq<Region>, i: nat): nat
    decreases |s| - i
  {
    if i >= |s| then 0 else 1 + RunCount(s, Next(s, i))
  }

  function ByteCount(s: seq<Region>): nat { BitCount(s, 0) / 8 }

  function BitmapPages(s: seq<Region>): nat { ByteCount(s) / 0x1000 + 1 }

  function RecordPages(s: seq<Region>): nat { RunCount(s, 0) * RECORD_SIZE / 0x1000 + 1 }

  function ManagerPages(s: seq<Region>): nat { BitmapPages(s) + RecordPages(s) }

  // ----- the populating loop -----

  /** `bitmap_required_bytes`, from the page-rounded size. */
  function SliceBytes(size: u64): nat {
    var pages := PageCeil(size) / 0x1000;
    pages / 8 + if pages % 8 != 0 then 1 else 0
  }

  function RecordAt(s: seq<Region>, i: nat, bitmap: nat): Record
    requires i < |s|
  {
    Record(s[i].start, RunSize(s, i), if Combinable(s[i].kind) then Some(bitmap) else None, TypeOf(s[i].kind))
  }

  function NextBitmap(s: seq<Region>, i: nat, bitmap: nat): nat
    requires i < |s|
  {
    if Combinable(s[i].kind) then bitmap + SliceBytes(RunSize(s, i)) else bitmap
  }

  /** The records from entry i on, the next bitmap byte being `bitmap`. */
  function Records(s: seq<Region>, i: nat, bitmap: nat): seq<Record>
    decreases |s| - i
  {
    if i >= |s| then [] else
      [RecordAt(s, i, bitmap)] + Records(s, Next(s, i), NextBitmap(s, i, bitmap))
  }

  // ----- both loops find the same, maximal, runs -----

  lemma {:induction false} RecordsCounted(s: seq<Region>, i: nat, bitmap: nat)
    ensures |Records(s, i, bitmap)| == RunCount(s, i)
    decreases |s| - i
  {
    if i < |s| { RecordsCounted(s, Next(s, i), NextBitmap(s, i, bitmap)); }
  }

  /** Entries i..t touch one another end to start and are all combinable. */
  predicate Chain(s: seq<Region>, i: nat, t: nat)
    requires i < t <= |s|
  {
    Combinable(s[i].kind) && forall k :: i < k < t ==> Joins(s[k], s[k - 1].end)
  }

  lemma {:induction false} StopChains(s: seq<Region>, i: nat, j: nat)
    requires i < j <= |s| && Chain(s, i, j)
    ensures var t := RunStop(s, j, s[j - 1].end);
            Chain(s, i, t) && (t < |s| ==> !Joins(s[t], s[t - 1].end))
    decreases |s| - j
  {
    if j < |s| && Joins(s[j], s[j - 1].end) { StopChains(s, i, j + 1); }
  }

  /** A run of combinable entries is a chain that cannot be made longer. */
  lemma RunIsMaximal(s: seq<Region>, i: nat)
    requires i < |s| && Combinable(s[i].kind)
    ensures var t := Next(s, i);
            Chain(s, i, t) && (t < |s| ==> !Joins(s[t], s[t - 1].end))
  {
    StopChains(s, i, i + 1);
  }

  // ----- the map is conserved -----

  function MemAt(r: seq<Record>, a: int): Option<MemType> {
    if r == [] then None
    else if r[0].addr <= a < r[0].addr + r[0].len then Some(r[0].kind)
    else MemAt(r[1..], a)
  }

  function Kept(k: Option<Kind>): Option<MemType> {
    match k
    case None => None
    case Some(x) => Some(TypeOf(x))
  }

  lemma {:induction false} ChainTypes(s: seq<Region>, i: nat, t: nat, a: int)
    requires Valid(s) && i < t <= |s| && Chain(s, i, t)
    ensures s[i].start < s[t - 1].end
    ensures Kept(TypeAt(s[i..], a)) ==
            if s[i].start <= a < s[t - 1].end then Some(MemAvailable) else Kept(TypeAt(s[t..], a))
    decreases t - i
  {
    assert s[i..][0] == s[i] && s[i..][1..] == s[i + 1..];
    if i + 1 < t {
      ChainTypes(s, i + 1, t, a);
    }
  }

  lemma RunTypes(s: seq<Region>, i: nat, a: int)
    requires Valid(s) && i < |s|
    ensures var t := Next(s, i);
            && s[i].start < s[t - 1].end && RunSize(s, i) == s[t - 1].end - s[i].start
            && Kept(TypeAt(s[i..], a)) ==
               if s[i].start <= a < s[t - 1].end then Some(TypeOf(s[i].kind)) else Kept(TypeAt(s[t..], a))
  {
    if Combinable(s[i].kind) {
      RunIsMaximal(s, i);
      ChainTypes(s, i, Next(s, i), a);
    } else {
      assert s[i..][0] == s[i] && s[i..][1..] == s[i + 1..];
    }
  }

  lemma {:induction false} RecordsCover(s: seq<Region>, i: nat, bitmap: nat, a: int)
    requires Valid(s) && i <= |s|
    ensures MemAt(Records(s, i, bitmap), a) == Kept(TypeAt(s[i..], a))
    decreases |s| - i
  {
    if i < |s| {
      var t, b := Next(s, i), NextBitmap(s, i, bitmap);
      RunTypes(s, i, a);
      RecordsCover(s, t, b, a);
      assert Records(s, i, bitmap)[1..] == Records(s, t, b);
    }
  }

  /** Conservation: the kernel's map gives every address the type the boot map
      gave it, AVAILABLE standing for both AVAILABLE and ALLOCATED. */
  lemma MapConserved(s: seq<Region>, bitmap: nat, a: int)
    requires Valid(s)
    ensures MemAt(Records(s, 0, bitmap), a) == Kept(TypeAt(s, a))
    ensures var was, is_now := TypeAt(s, a), MemAt(Records(s, 0, bitmap), a);
            && (is_now == None <==> was == None)
            && (is_now == Some(MemAvailable) <==> was == Some(Available) || was == Some(Allocated))
            && (is_now == Some(AcpiReclaim) <==> was == Some(Reclaimable))
            && (is_now == Some(MemNvs) <==> was == Some(Nvs))
            && (is_now == Some(MemBad) <==> was == Some(BadMem))
            && (is_now == Some(MemReserved) <==> was == Some(Reserved) || was == Some(Kernel))
  {
    hide Records, MemAt, TypeAt;
    assert s[0..] == s;
    RecordsCover(s, 0, bitmap, a);
  }

  // ----- order -----

  predicate Before(x: Record, y: Record) {
    x.addr + x.len <= y.addr && !(x.kind == MemAvailable && y.kind == MemAvailable && x.addr + x.len == y.addr)
  }

  /** Ordered, disjoint, nothing empty, no two AVAILABLE records touching, and
      a bitmap exactly for each AVAILABLE record. */
  predicate Tidy(r: seq<Record>) {
    && (forall i :: 0 <= i < |r| ==> r[i].len > 0 && (r[i].bitmap.Some? <==> r[i].kind == MemAvailable))
    && forall i, j :: 0 <= i < j < |r| ==> Before(r[i], r[j])
  }

  lemma NextApart(s: seq<Region>, i: nat)
    requires Valid(s) && i < |s| && Next(s, i) < |s|
    ensures s[Next(s, i) - 1].end <= s[Next(s, i)].start
    ensures Combinable(s[i].kind) && Combinable(s[Next(s, i)].kind) ==> s[Next(s, i) - 1].end < s[Next(s, i)].start
  {
    if Combinable(s[i].kind) { RunIsMaximal(s, i); }
  }

  lemma {:induction false} RecordsTidy(s: seq<Region>, i: nat, bitmap: nat)
    requires Valid(s) && i <= |s|
    ensures Tidy(Records(s, i, bitmap))
    ensures i < |s| ==> Records(s, i, bitmap) != [] && Records(s, i, bitmap)[0] == RecordAt(s, i, bitmap)
    decreases |s| - i
  {
    if i < |s| {
      var t, b := Next(s, i), NextBitmap(s, i, bitmap);
      var x, rest := RecordAt(s, i, bitmap), Records(s, t, b);
      RunTypes(s, i, 0);
      RecordsTidy(s, t, b);
      KindIsAvailable(s[i].kind);
      if t < |s| {
        NextApart(s, i);
        KindIsAvailable(s[t].kind);
        assert Before(x, rest[0]);
        TidyCons(x, rest);
      }
    }
  }

  lemma KindIsAvailable(k: Kind)
    ensures TypeOf(k) == MemAvailable <==> Combinable(k)
  {
  }

  lemma TidyCons(x: Record, rest: seq<Record>)
    requires Tidy(rest) && rest != [] && Before(x, rest[0])
    requires x.len > 0 && (x.bitmap.Some? <==> x.kind == MemAvailable)
    ensures Tidy([x] + rest)
  {
    var r := [x] + rest;
    forall i, j | 0 <= i < j < |r| ensures Before(r[i], r[j]) {
      if i > 0 {
        assert Before(rest[i - 1], rest[j - 1]);
      } else if j > 1 {
        assert Before(rest[0], rest[j - 1]);
      }
    }
  }

  // ----- which entries get a record -----

  /** Entry k begins a record: it does not go on where an AVAILABLE or ALLOCATED
      entry before it ends, or is not of these kinds itself. */
  predicate Head(s: seq<Region>, k: nat)
    requires k < |s|
  {
    !(&& k > 0 && (s[k].kind == Available || s[k].kind == Allocated)
      && (s[k - 1].kind == Available || s[k - 1].kind == Allocated) && s[k - 1].end == s[k].start)
  }

  /** The entries from i on that do, in order. */
  function Heads(s: seq<Region>, i: nat): seq<nat>
    requires i <= |s|
    decreases |s| - i
  {
    if i == |s| then [] else (if Head(s, i) then [i] else []) + Heads(s, i + 1)
  }

  predicate Ascending(h: seq<nat>) { forall m, n :: 0 <= m < n < |h| ==> h[m] < h[n] }

  lemma {:induction false} HeadsAre(s: seq<Region>, i: nat)
    requires i <= |s|
    ensures Ascending(Heads(s, i))
    ensures forall k: nat :: k in Heads(s, i) <==> i <= k < |s| && Head(s, k)
    decreases |s| - i
  {
    hide Head;
    if i < |s| {
      HeadsAre(s, i + 1);
      var h, rest := Heads(s, i), Heads(s, i + 1);
      forall m, n | 0 <= m < n < |h| ensures h[m] < h[n] {
        if Head(s, i) {
          assert h[n] == rest[n - 1] && rest[n - 1] in rest;
          if m > 0 { assert h[m] == rest[m - 1]; }
        }
      }
    }
  }

  lemma {:induction false} HeadsSkip(s: seq<Region>, i: nat, t: nat)
    requires i <= t <= |s| && forall k :: i <= k < t ==> !Head(s, k)
    ensures Heads(s, i) == Heads(s, t)
    decreases t - i
  {
    if i < t { HeadsSkip(s, i + 1, t); }
  }

  /** A run goes on to the next entry that begins a record. */
  lemma NextIsHead(s: seq<Region>, i: nat)
    requires i < |s|
    ensures forall k :: i < k < Next(s, i) ==> !Head(s, k)
    ensures Next(s, i) < |s| ==> Head(s, Next(s, i))
    ensures Head(s, i) ==> Heads(s, i) == [i] + Heads(s, Next(s, i))
  {
    var t := Next(s, i);
    if Combinable(s[i].kind) {
      RunIsMaximal(s, i);
      forall k | i < k < t ensures !Head(s, k) { InChain(s, i, t, k); }
      InChain(s, i, t, t - 1);
    }
    HeadsSkip(s, i + 1, t);
  }

  lemma InChain(s: seq<Region>, i: nat, t: nat, k: nat)
    requires i < t <= |s| && Chain(s, i, t) && i <= k < t
    ensures Combinable(s[k].kind)
    ensures i < k ==> Combinable(s[k - 1].kind) && s[k].start == s[k - 1].end
  {
    assert i < k ==> Joins(s[k], s[k - 1].end);
    assert i < k - 1 ==> Joins(s[k - 1], s[k - 2].end);
  }

  /** As many runs are counted as entries begin a record. */
  lemma {:induction false} RunsAreHeads(s: seq<Region>, i: nat)
    requires i <= |s| && (i < |s| ==> Head(s, i))
    ensures RunCount(s, i) == |Heads(s, i)|
    decreases |s| - i
  {
    hide Head, Heads;
    if i < |s| {
      NextIsHead(s, i);
      RunsAreHeads(s, Next(s, i));
    } else {
      NoHeads(s);
    }
  }

  lemma NoHeads(s: seq<Region>)
    ensures Heads(s, |s|) == []
  {
  }

  /** r is the record of entries h to t - 1. */
  predicate RecordOf(s: seq<Region>, r: Record, h: nat, t: nat) {
    && h < t <= |s| && r.addr == s[h].start && r.len == s[t - 1].end - s[h].start && r.kind == TypeOf(s[h].kind)
    && (r.bitmap.Some? <==> s[h].kind == Available || s[h].kind == Allocated)
  }

  /** Where the n-th record's entries end: at the next one that begins a record. */
  function GroupEnd(s: seq<Region>, h: seq<nat>, n: nat): nat {
    if n + 1 < |h| then h[n + 1] else |s|
  }

  predicate RecordsOf(s: seq<Region>, r: seq<Record>, h: seq<nat>) {
    |r| == |h| && forall n :: 0 <= n < |r| ==> RecordOf(s, r[n], h[n], GroupEnd(s, h, n))
  }

  lemma {:induction false} RecordsFromHeads(s: seq<Region>, i: nat, bitmap: nat)
    requires Valid(s) && i <= |s| && (i < |s| ==> Head(s, i))
    ensures RecordsOf(s, Records(s, i, bitmap), Heads(s, i))
    decreases |s| - i
  {
    hide Head, Heads, Records, RecordOf, RecordAt, NextBitmap, Next, Valid, TypeAt;
    UnfoldRecords(s, i, bitmap);
    if i < |s| {
      var t, b := Next(s, i), NextBitmap(s, i, bitmap);
      NextIsHead(s, i);
      FirstRecord(s, i, bitmap);
      RecordsFromHeads(s, t, b);
      FirstHead(s, t);
      OneMoreRecord(s, RecordAt(s, i, bitmap), i, t, Records(s, t, b), Heads(s, t));
    } else {
      NoHeads(s);
    }
  }

  lemma FirstRecord(s: seq<Region>, i: nat, bitmap: nat)
    requires Valid(s) && i < |s|
    ensures RecordOf(s, RecordAt(s, i, bitmap), i, Next(s, i))
  {
    hide TypeOf, TypeAt;
    RunTypes(s, i, 0);
  }

  lemma OneMoreRecord(s: seq<Region>, x: Record, i: nat, t: nat, r: seq<Record>, h: seq<nat>)
    requires RecordOf(s, x, i, t) && RecordsOf(s, r, h) && t == if h == [] then |s| else h[0]
    ensures RecordsOf(s, [x] + r, [i] + h)
  {
    hide RecordOf;
    var r', h' := [x] + r, [i] + h;
    forall n | 0 <= n < |r'| ensures RecordOf(s, r'[n], h'[n], GroupEnd(s, h', n)) {
      if n > 0 { assert RecordOf(s, r[n - 1], h[n - 1], GroupEnd(s, h, n - 1)); }
    }
  }

  lemma UnfoldRecords(s: seq<Region>, i: nat, bitmap: nat)
    ensures i >= |s| ==> Records(s, i, bitmap) == []
    ensures i < |s| ==>
              Records(s, i, bitmap) == [RecordAt(s, i, bitmap)] + Records(s, Next(s, i), NextBitmap(s, i, bitmap))
  {
  }

  lemma FirstHead(s: seq<Region>, t: nat)
    requires t <= |s| && (t < |s| ==> Head(s, t))
    ensures if t < |s| then Heads(s, t) != [] && Heads(s, t)[0] == t else Heads(s, t) == []
  {
  }

  /** The records, entry by entry: one for each that begins a record, in order,
      reaching to the next one that does. */
  lemma RecordsAre(s: seq<Region>, bitmap: nat)
    requires Valid(s)
    ensures var (r, h) := (Records(s, 0, bitmap), Heads(s, 0));
            && RunCount(s, 0) == |r| == |h| && RecordsOf(s, r, h) && Ascending(h)
            && forall k: nat :: k in h <==> k < |s| && Head(s, k)
  {
    HeadsAre(s, 0);
    RunsAreHeads(s, 0);
    RecordsFromHeads(s, 0, bitmap);
  }

  /** Every entry that is neither AVAILABLE nor ALLOCATED has one record of its own,
      with its start, length and type, and no other record reaches into it. */
  lemma OwnRecord(s: seq<Region>, bitmap: nat, k: nat) returns (n: nat)
    requires Valid(s) && k < |s| && s[k].kind != Available && s[k].kind != Allocated
    ensures var r := Records(s, 0, bitmap);
            && n < |r| && r[n] == Record(s[k].start, s[k].end - s[k].start, None, TypeOf(s[k].kind))
            && forall m :: 0 <= m < |r| && m != n ==> r[m].addr + r[m].len <= s[k].start || s[k].end <= r[m].addr
  {
    hide Records, Heads, TypeOf, Valid, RunCount, RecordOf, Tidy, GroupEnd;
    var r, h := Records(s, 0, bitmap), Heads(s, 0);
    RecordsAre(s, bitmap);
    assert Head(s, k) && k in h;
    n :| 0 <= n < |h| && h[n] == k;
    NextInLine(s, h, n);
    assert RecordOf(s, r[n], h[n], GroupEnd(s, h, n));
    SingleRecord(s, r[n], k);
    RecordsTidy(s, 0, bitmap);
    OthersApart(r, n);
  }

  lemma SingleRecord(s: seq<Region>, r: Record, k: nat)
    requires Valid(s) && k < |s| && RecordOf(s, r, k, k + 1)
    requires s[k].kind != Available && s[k].kind != Allocated
    ensures r == Record(s[k].start, s[k].end - s[k].start, None, TypeOf(s[k].kind))
  {
    hide TypeOf;
  }

  lemma OthersApart(r: seq<Record>, n: nat)
    requires Tidy(r) && n < |r|
    ensures forall m :: 0 <= m < |r| && m != n ==>
              r[m].addr + r[m].len <= r[n].addr || r[n].addr + r[n].len <= r[m].addr
  {
    forall m | 0 <= m < |r| && m != n
      ensures r[m].addr + r[m].len <= r[n].addr || r[n].addr + r[n].len <= r[m].addr
    {
      assert m < n ==> Before(r[m], r[n]);
      assert n < m ==> Before(r[n], r[m]);
    }
  }

  lemma NextInLine(s: seq<Region>, h: seq<nat>, n: nat)
    requires Ascending(h) && (forall k: nat :: k in h <==> k < |s| && Head(s, k)) && n < |h| && h[n] < |s|
    requires s[h[n]].kind != Available && s[h[n]].kind != Allocated
    ensures GroupEnd(s, h, n) == h[n] + 1
  {
    var k := h[n] + 1;
    if k < |s| {
      assert Head(s, k) && k in h;
      var m :| 0 <= m < |h| && h[m] == k;
      assert m > n;
    } else if n + 1 < |h| {
      assert h[n + 1] in h;
    }
  }

  // ----- the bitmaps -----

  /** Bytes that hold one bit for each page a length touches. */
  function BytesFor(len: nat): nat { ((len + 0xFFF) / 0x1000 + 7) / 8 }

  /** Each bitmap starts where the one before it ends, the first at `at`. */
  predicate Packed(r: seq<Record>, at: nat) {
    r == [] ||
    if r[0].bitmap.Some? then r[0].bitmap.value == at && Packed(r[1..], at + BytesFor(r[0].len)) else Packed(r[1..], at)
  }

  function Used(r: seq<Record>): nat {
    if r == [] then 0 else (if r[0].bitmap.Some? then BytesFor(r[0].len) else 0) + Used(r[1..])
  }

  /** Packed bitmaps lie inside what they use in all and never overlap. */
  lemma {:induction false} PackedApart(r: seq<Record>, at: nat, i: nat, j: nat)
    requires Packed(r, at) && i < |r| && j < |r| && r[i].bitmap.Some? && r[j].bitmap.Some?
    ensures at <= r[i].bitmap.value && r[i].bitmap.value + BytesFor(r[i].len) <= at + Used(r)
    ensures i < j ==> r[i].bitmap.value + BytesFor(r[i].len) <= r[j].bitmap.value
  {
    hide BytesFor;
    var at' := if r[0].bitmap.Some? then at + BytesFor(r[0].len) else at;
    if i > 0 && j > 0 {
      PackedApart(r[1..], at', i - 1, j - 1);
    } else if i > 0 {
      PackedApart(r[1..], at', i - 1, i - 1);
    } else if j > 0 {
      PackedApart(r[1..], at', j - 1, j - 1);
    }
  }

  /** The boot map lies in the 52-bit physical address space. */
  predicate Physical(s: seq<Region>) {
    Valid(s) && forall i :: 0 <= i < |s| ==> s[i].end <= 0x10_0000_0000_0000
  }

  lemma SliceIs(size: u64)
    requires size <= 0x10_0000_0000_0000
    ensures SliceBytes(size) == BytesFor(size)
  {
    assert PageCeil(size) / 0x1000 == (size + 0xFFF) / 0x1000;
  }

  lemma RunFits(s: seq<Region>, i: nat)
    requires Physical(s) && i < |s|
    ensures 0 < RunSize(s, i) <= 0x10_0000_0000_0000 && s[i].start + RunSize(s, i) == s[Next(s, i) - 1].end
  {
    RunTypes(s, i, 0);
  }

  lemma {:induction false} RecordsPacked(s: seq<Region>, i: nat, bitmap: nat)
    requires Physical(s)
    ensures Packed(Records(s, i, bitmap), bitmap)
    decreases |s| - i
  {
    hide BytesFor, SliceBytes;
    if i < |s| {
      RunFits(s, i);
      SliceIs(RunSize(s, i));
      RecordsPacked(s, Next(s, i), NextBitmap(s, i, bitmap));
      assert Records(s, i, bitmap)[1..] == Records(s, Next(s, i), NextBitmap(s, i, bitmap));
    }
  }

  /** A run for which the counting loop, which rounds its pages down, provides
      one byte less than the populating loop, which rounds them up, takes. */
  predicate Short(s: seq<Region>, i: nat)
    requires i < |s|
  {
    Combinable(s[i].kind) && RunSize(s, i) % 0x1000 != 0 && RunSize(s, i) / 0x1000 % 8 == 0
  }

  function ShortRuns(s: seq<Region>, i: nat): nat
    decreases |s| - i
  {
    if i >= |s| then 0 else (if Short(s, i) then 1 else 0) + ShortRuns(s, Next(s, i))
  }

  lemma OneRun(size: u64)
    requires size <= 0x10_0000_0000_0000
    ensures RoundUp8(size / 0x1000) % 8 == 0
    ensures BytesFor(size) == RoundUp8(size / 0x1000) / 8 +
                              if size % 0x1000 != 0 && size / 0x1000 % 8 == 0 then 1 else 0
  {
    var q, r := size / 0x1000, size % 0x1000;
    assert RoundUp8(q) == (q + 7) / 8 * 8;
    hide RoundUp8;
    Eighths(q);
    if r == 0 {
      DivUnique(size + 0xFFF, 0x1000, q, 0xFFF);
    } else {
      DivUnique(size + 0xFFF, 0x1000, q + 1, r - 1);
    }
  }

  lemma Eighths(q: nat)
    ensures (q + 7) / 8 == q / 8 + (if q % 8 != 0 then 1 else 0) && (q + 8) / 8 == q / 8 + 1
    ensures (q + 7) / 8 * 8 / 8 == (q + 7) / 8 && (q + 7) / 8 * 8 % 8 == 0
  {
  }

  lemma AddEighths(a: nat, b: nat)
    requires a % 8 == 0 && b % 8 == 0
    ensures (a + b) % 8 == 0 && (a + b) / 8 == a / 8 + b / 8
  {
  }

  lemma {:induction false} BytesTaken(s: seq<Region>, i: nat, bitmap: nat)
    requires Physical(s)
    ensures BitCount(s, i) % 8 == 0
    ensures Used(Records(s, i, bitmap)) == BitCount(s, i) / 8 + ShortRuns(s, i)
    decreases |s| - i
  {
    hide BytesFor, RoundUp8, SliceBytes;
    if i < |s| {
      RunFits(s, i);
      OneRun(RunSize(s, i));
      BytesTaken(s, Next(s, i), NextBitmap(s, i, bitmap));
      AddEighths(RunBits(s, i), BitCount(s, Next(s, i)));
      assert Records(s, i, bitmap)[1..] == Records(s, Next(s, i), NextBitmap(s, i, bitmap));
    }
  }

  /** What the two loops make of the bitmap: the populating loop takes as many
      bytes as the counting loop provides exactly when no run is short. */
  lemma LoopsAgree(s: seq<Region>, bitmap: nat)
    requires Physical(s)
    ensures |Records(s, 0, bitmap)| == RunCount(s, 0)
    ensures Used(Records(s, 0, bitmap)) == ByteCount(s) + ShortRuns(s, 0)
    ensures Used(Records(s, 0, bitmap)) == ByteCount(s) <==> ShortRuns(s, 0) == 0
    ensures Used(Records(s, 0, bitmap)) <= BitmapPages(s) * 0x1000 <==>
            ByteCount(s) % 0x1000 + ShortRuns(s, 0) <= 0x1000
  {
    RecordsCounted(s, 0, bitmap);
    BytesTaken(s, 0, bitmap);
    var b := ByteCount(s);
    assert BitmapPages(s) * 0x1000 == b - b % 0x1000 + 0x1000;
  }

  /** Every combinable entry covers whole pages. */
  predicate PageAligned(s: seq<Region>) {
    forall i :: 0 <= i < |s| && Combinable(s[i].kind) ==> s[i].start % 0x1000 == 0 && s[i].end % 0x1000 == 0
  }

  lemma MultiplesApart(a: nat, n: nat)
    requires a % 0x1000 == 0 && (a + n) % 0x1000 == 0
    ensures n % 0x1000 == 0
  {
  }

  lemma {:induction false} AlignedNotShort(s: seq<Region>, i: nat)
    requires Physical(s) && PageAligned(s)
    ensures ShortRuns(s, i) == 0
    decreases |s| - i
  {
    if i < |s| {
      RunFits(s, i);
      if Combinable(s[i].kind) {
        RunIsMaximal(s, i);
        var last := Next(s, i) - 1;
        assert last > i ==> Joins(s[last], s[last - 1].end);
        MultiplesApart(s[i].start, RunSize(s, i));
      }
      AlignedNotShort(s, Next(s, i));
    }
  }

  /** On a page-aligned map, whose bitmaps start at `base` and whose records
      follow the bitmap pages: each AVAILABLE record has a bit for each of its
      pages, all bitmaps lie apart from one another and, with the records,
      inside the pages set aside, the bitmaps before the records. */
  lemma LayoutFits(s: seq<Region>, base: nat, i: nat, j: nat)
    requires Physical(s) && PageAligned(s) && i <= j < |Records(s, 0, base)|
    ensures var r := Records(s, 0, base);
            var table := base + BitmapPages(s) * 0x1000;
            && Used(r) == ByteCount(s)
            && (r[i].bitmap.Some? ==>
                  && base <= r[i].bitmap.value && r[i].bitmap.value + BytesFor(r[i].len) <= table
                  && 0x8000 * (BytesFor(r[i].len) - 1) < r[i].len <= 0x8000 * BytesFor(r[i].len))
            && (i < j && r[i].bitmap.Some? && r[j].bitmap.Some? ==>
                  r[i].bitmap.value + BytesFor(r[i].len) <= r[j].bitmap.value)
            && table + (j + 1) * 32 <= base + ManagerPages(s) * 0x1000
  {
    hide Packed, Used, BytesFor, ByteCount, Records, RunCount;
    var r := Records(s, 0, base);
    LoopsAgree(s, base);
    AlignedNotShort(s, 0);
    RecordsPacked(s, 0, base);
    if r[i].bitmap.Some? {
      EnoughBits(r[i].len);
      PackedApart(r, base, i, if r[j].bitmap.Some? then j else i);
    }
    RecordsRoom(RunCount(s, 0), j);
    var b := ByteCount(s);
    assert b <= BitmapPages(s) * 0x1000;
  }

  lemma RecordsRoom(n: nat, j: nat)
    requires j < n
    ensures (j + 1) * RECORD_SIZE <= (n * RECORD_SIZE / 0x1000 + 1) * 0x1000
  {
  }

  /** The pages the manager asks for, exactly: those the bytes counted for the
      bitmaps need and those 32 bytes a record need, the last of each not full. */
  lemma PagesExactly(s: seq<Region>, base: nat)
    requires Physical(s)
    ensures var r := Records(s, 0, base);
            && (RecordPages(s) - 1) * 4096 <= 32 * |r| < RecordPages(s) * 4096
            && (BitmapPages(s) - 1) * 4096 <= Used(r) - ShortRuns(s, 0) < BitmapPages(s) * 4096
            && ManagerPages(s) == BitmapPages(s) + RecordPages(s)
            && (PageAligned(s) ==> (ManagerPages(s) - 2) * 4096 <= Used(r) + 32 * |r| < ManagerPages(s) * 4096)
  {
    hide Used, ByteCount, Records, RunCount;
    LoopsAgree(s, base);
    LastNotFull(RunCount(s, 0) * 32);
    LastNotFull(ByteCount(s));
    if PageAligned(s) { AlignedNotShort(s, 0); }
  }

  lemma LastNotFull(n: nat)
    ensures n / 0x1000 * 4096 <= n < (n / 0x1000 + 1) * 4096
  {
  }

  lemma EnoughBits(len: nat)
    ensures 0x8000 * (BytesFor(len) - 1) < len <= 0x8000 * BytesFor(len)
  {
    var pages := (len + 0xFFF) / 0x1000;
    assert pages <= 8 * ((pages + 7) / 8);
  }

  /** The 64-bit counters of the loops do not wrap. */
  lemma {:induction false} CountersFit(s: seq<Region>, i: nat)
    requires Physical(s) && i <= |s|
    ensures RunCount(s, i) <= |s| - i
    ensures BitCount(s, i) <= (if i < |s| then 0x100_0000_0000 - s[i].start / 0x1000 else 0) + 8 * (|s| - i)
    decreases |s| - i
  {
    if i < |s| {
      hide RoundUp8;
      RunFits(s, i);
      var size, t := RunSize(s, i), Next(s, i);
      assert RoundUp8(size / 0x1000) <= size / 0x1000 + 7;
      CountersFit(s, t);
      assert size / 0x1000 <= s[t - 1].end / 0x1000 - s[i].start / 0x1000;
      if t < |s| { assert s[t - 1].end <= s[t].start; }
    }
  }

  // ----- marking pages -----

  /** The record `pmm_mark_page_busy` settles on (lines 334-340). */
  function MarkTarget(r: seq<Record>, page: nat): (i: nat)
    ensures i <= |r|
    ensures i < |r| ==> r[i].addr <= page
    ensures forall j :: 0 <= j < i ==> page < r[j].addr
  {
    if r == [] then 0 else if r[0].addr <= page then 0 else
      var i := MarkTarget(r[1..], page);
      assert forall j :: 0 < j < i + 1 ==> r[j] == r[1..][j - 1];
      i + 1
  }

  /** The search never looks at a record's end, so on an ordered map it finds
      the record that holds the page only if that is the first one. */
  lemma MarkHits(r: seq<Record>, page: nat, k: nat)
    requires Tidy(r) && k < |r| && r[k].addr <= page < r[k].addr + r[k].len
    ensures MarkTarget(r, page) == k <==> k == 0
  {
    if k > 0 { assert Before(r[0], r[k]); }
  }

  /** With two banks of free memory the first page of the second one is looked up
      in the first one's record. */
  lemma MarkMisses(base: nat)
    ensures var r := Records(TwoBanks(), 0, base);
            && |r| == 2 && r[1].addr == 0x30_0000 && r[1].len == 0x10_0000
            && MarkTarget(r, 0x30_0000) == 0
  {
    var s := TwoBanks();
    assert Next(s, 0) == 1 && Next(s, 1) == 2;
    assert Records(s, 2, NextBitmap(s, 1, NextBitmap(s, 0, base))) == [];
    assert Records(s, 1, NextBitmap(s, 0, base)) == [RecordAt(s, 1, NextBitmap(s, 0, base))];
  }
}
