/** The allocator's calls on all inputs, degenerate ranges included: what they
    promise, and exactly when the list they leave is still a map
    (Kickstart/Multiboot/pmm.c:11-198). */
module RegionEdges {
  import opened Bits
  import opened Regions
  import opened TombstoneSort
  import opened RegionOps
  import opened RegionLaws

  predicate NothingAbove(s: seq<Region>, a: int) {
    forall i :: 0 <= i < |s| ==> s[i].start <= a
  }

  ghost predicate SameTypes(s: seq<Region>, t: seq<Region>) {
    forall a :: TypeAt(t, a) == TypeAt(s, a)
  }

  // ----- what spoils a list -----

  lemma TombSpoils(t: seq<Region>, i: nat)
    requires i < |t| && t[i].start >= t[i].end
    ensures !Valid(t)
  {
    assert !(t[i].start < t[i].end);
  }

  /** A list that the sort gets wrong is no map: it holds a tombstone. */
  lemma UnsortableSpoils(raw: seq<Region>)
    requires !Sortable(raw)
    ensures !Valid(Compact(raw))
  {
    SameCondition(raw, 0);
    UnsortableFails(raw);
    var i := FindTomb(Compact(raw));
    TombSpoils(Compact(raw), i);
  }

  /** An entry that ends before it starts is no tombstone and is never cut off. */
  lemma BackwardsStays(raw: seq<Region>, i: nat)
    requires i < |raw| && raw[i].start > raw[i].end
    ensures !Valid(Compact(raw))
  {
    if Sortable(raw) {
      var t := Compact(raw);
      SortExact(raw);
      LiveLength(raw);
      assert raw[i] in Live(raw);
      assert raw[i] in multiset(Live(raw));
      assert raw[i] in multiset(t);
      var j :| 0 <= j < |t| && t[j] == raw[i];
      TombSpoils(t, j);
    } else {
      UnsortableSpoils(raw);
    }
  }

  lemma {:induction false} ValidOnce(t: seq<Region>, r: Region)
    requires Valid(t)
    ensures multiset(t)[r] <= 1
  {
    if t != [] {
      ValidTail(t);
      ValidOnce(t[1..], r);
      assert t == [t[0]] + t[1..];
      forall j | 0 <= j < |t[1..]| ensures t[1..][j] != t[0] {
        assert t[1..][j] == t[j + 1] && t[0].end <= t[j + 1].start;
      }
    }
  }

  lemma TwiceSpoils(t: seq<Region>, r: Region)
    requires multiset(t)[r] >= 2
    ensures !Valid(t)
  {
    if Valid(t) { ValidOnce(t, r); }
  }

  lemma PairSpoils(t: seq<Region>, p: nat, q: nat)
    requires p < |t| && q < |t| && p != q && t[p].end > t[q].start && t[q].end > t[p].start
    ensures !Valid(t)
  {
    assert p < q || q < p;
  }

  /** Overlapping entries stay, too. */
  lemma OverlapStays(s: seq<Region>, r: Region, i: nat)
    requires Valid(s) && r.start < r.end && i < |s| && s[i].end > r.start && r.end > s[i].start
    ensures !Valid(Compact(s + [r]))
  {
    hide Compact, Sortable, Live, Tombs;
    var raw, t := s + [r], Compact(s + [r]);
    if Sortable(raw) {
      SortExact(raw);
      AllLive(raw);
      BothThere(s, r, t, i);
    } else {
      UnsortableSpoils(raw);
    }
  }

  lemma BothThere(s: seq<Region>, r: Region, t: seq<Region>, i: nat)
    requires multiset(t) == multiset(s + [r]) && i < |s| && r.start < r.end && s[i].start < s[i].end
    requires s[i].end > r.start && r.end > s[i].start
    ensures !Valid(t)
  {
    assert multiset(t) == multiset(s) + multiset{r};
    assert s[i] in multiset(s);
    if s[i] == r {
      TwiceSpoils(t, r);
    } else {
      assert r in multiset(t) && s[i] in multiset(t);
      assert r in t && s[i] in t;
      var p: nat :| p < |t| && t[p] == r;
      var q: nat :| q < |t| && t[q] == s[i];
      PairSpoils(t, p, q);
    }
  }

  // ----- recording an empty range -----

  lemma EmptyKeeps(s: seq<Region>, r: Region)
    requires Valid(s) && r.Empty() && NothingAbove(s, r.start)
    ensures Compact(s + [r]) == s
  {
    NothingOvertakes(s + [r]);
    LiveConcat(s, [r]);
    LiveOne(r);
    AllLive(s);
    ValidIsStrict(s);
    CompactTo(s + [r], s);
  }

  lemma EmptySpoils(s: seq<Region>, r: Region, rest: seq<Region>)
    requires r.Empty() && (forall i :: 0 <= i < |rest| ==> !rest[i].Empty())
    requires exists i :: 0 <= i < |s| && !s[i].Empty() && s[i].start > r.start
    ensures !Valid(Compact(s + [r] + rest))
  {
    var raw := s + [r] + rest;
    var i :| 0 <= i < |s| && !s[i].Empty() && s[i].start > r.start;
    AllLive(rest);
    assert raw[..|s|] == s && raw[|s| + 1..] == rest;
    if Sortable(raw) {
      assert FitsAt(raw, |s|, 0);
      NoneAbove(s, r.start, s[i]);
    }
    UnsortableSpoils(raw);
  }

  /** Recording an empty range leaves the list alone, or, exactly when some entry
      starts above it, spoils the list. */
  lemma EmptyExact(s: seq<Region>, r: Region)
    requires Valid(s) && r.Empty()
    ensures if NothingAbove(s, r.start) then Compact(s + [r]) == s else !Valid(Compact(s + [r]))
  {
    if NothingAbove(s, r.start) {
      EmptyKeeps(s, r);
    } else {
      var i :| 0 <= i < |s| && s[i].start > r.start;
      assert !s[i].Empty();
      EmptySpoils(s, r, []);
      assert s + [r] + [] == s + [r];
    }
  }

  // ----- addition -----

  /** An add leaves a map exactly when the rounded range is not empty and clear
      of the map, or empty with nothing above it; then it types just its range. */
  lemma AddAlways(s: seq<Region>, k: Kind, start: u64, end: u64)
    requires Valid(s)
    ensures var r := Rounded(k, start, end);
            var t := Add(s, k, start, end);
            && (Valid(t) <==>
                  (r.start < r.end && Clear(s, r)) || (r.start == r.end && NothingAbove(s, r.start)))
            && (Valid(t) ==> Retypes(s, t, r.start, r.end, k))
            && (Valid(t) && r.start == r.end ==> t == s)
  {
    var r := Rounded(k, start, end);
    if r.start < r.end {
      AddLaw(s, k, start, end);
      if !Clear(s, r) {
        var i :| 0 <= i < |s| && !(s[i].end <= r.start || r.end <= s[i].start);
        OverlapStays(s, r, i);
      }
    } else if r.start == r.end {
      EmptyExact(s, r);
    } else {
      BackwardsStays(s + [r], |s|);
    }
  }

  // ----- reservation -----

  /** A contained request whose rounded bounds coincide, on a map where nothing
      starts above it: at most one free entry is now two. */
  lemma ReserveNothing(s: seq<Region>, i: nat, from: u64)
    requires Sound(s) && i < |s| && Holds(s[i], from, from) && from % 0x1000 == 0
    ensures var t := Compact(ReserveRaw(s, i, from, from));
            if NothingAbove(s, from) then
              && Sound(t) && SameTypes(s, t) && |t| <= |s| + 1
              && t == if s[i].start < from < s[i].end then Splice(s, i, Halves(s[i], from)) else s
            else !Valid(t)
  {
    var mine := Region(from, from, Allocated);
    assert WholePages(s[i]);
    if from == s[i].start || from == s[i].end {
      assert ReserveRaw(s, i, from, from) == s + [mine];
      EmptyExact(s, mine);
    } else if NothingAbove(s, from) {
      ReserveHalves(s, i, from);
      HalvesSound(s, i, from);
    } else {
      var left, right := s[i].(end := from), s[i].(start := from);
      assert ReserveRaw(s, i, from, from) == s[i := left] + [mine] + [right];
      var j :| 0 <= j < |s| && s[j].start > from;
      assert s[i := left][j] == s[j];
      EmptySpoils(s[i := left], mine, [right]);
    }
  }

  function Halves(r: Region, from: u64): seq<Region> {
    [r.(end := from), r.(start := from)]
  }

  lemma ReserveHalves(s: seq<Region>, i: nat, from: u64)
    requires Valid(s) && i < |s| && s[i].start < from < s[i].end && NothingAbove(s, from)
    ensures Compact(ReserveRaw(s, i, from, from)) == Splice(s, i, Halves(s[i], from))
    ensures Valid(Splice(s, i, Halves(s[i], from)))
  {
    hide Compact, Sortable, Live, Tombs;
    var left, mine, right := s[i].(end := from), Region(from, from, Allocated), s[i].(start := from);
    var raw, want := s[i := left] + [mine, right], Splice(s, i, Halves(s[i], from));
    NothingOvertakes(raw);
    SpliceValid(s, i, Halves(s[i], from));
    ValidIsStrict(want);
    LiveHalves(s[i := left], mine, right);
    HalvesCount(s, i, left, right);
    CompactTo(raw, want);
  }

  lemma LiveHalves(s: seq<Region>, mine: Region, right: Region)
    requires (forall k :: 0 <= k < |s| ==> !s[k].Empty()) && mine.Empty() && !right.Empty()
    ensures Live(s + [mine, right]) == s + [right]
  {
    LiveConcat(s, [mine, right]);
    AllLive(s);
    assert [mine, right][1..] == [right];
    LiveOne(right);
  }

  lemma HalvesCount(s: seq<Region>, i: nat, left: Region, right: Region)
    requires i < |s|
    ensures multiset(Splice(s, i, [left, right])) == multiset(s[i := left] + [right])
  {
    assert s[i := left] + [right] == s[..i] + [left] + s[i + 1..] + [right];
    assert Splice(s, i, [left, right]) == s[..i] + [left] + [right] + s[i + 1..];
  }

  lemma HalvesSound(s: seq<Region>, i: nat, from: u64)
    requires Sound(s) && i < |s| && s[i].start < from < s[i].end && s[i].kind == Available && from % 0x1000 == 0
    ensures var t := Splice(s, i, Halves(s[i], from)); Sound(t) && SameTypes(s, t) && |t| <= |s| + 1
  {
    var mid := Halves(s[i], from);
    assert WholePages(s[i]);
    SpliceValid(s, i, mid);
    SpliceSound(s, i, mid);
    forall a ensures TypeAt(Splice(s, i, mid), a) == TypeAt(s, a) {
      SpliceTypes(s, i, mid, a);
      assert mid[1..] == [mid[1]] && mid[1..][1..] == [];
      if s[i].start <= a < s[i].end { TypeAtEntry(s, i, a); }
    }
  }

  /** The entry a request is cut out of, |s| if no one free entry contains it. */
  function Container(s: seq<Region>, from: u32, to: u32): (i: nat)
    ensures i <= |s|
    ensures i < |s| ==> s[i].kind == Available && s[i].start <= from && to <= s[i].end
    ensures forall j :: 0 <= j < i ==> !(s[j].kind == Available && s[j].start <= from && to <= s[j].end)
  {
    First(s, (r: Region) => Holds(r, from, to))
  }

  /** Reservation on all inputs: it leaves a map exactly when the request is not
      contained, or runs forward, or is empty with nothing above it. A request
      that is not contained changes nothing; one that is types its range. */
  lemma ReserveAlways(s: seq<Region>, start: u32, end: u32)
    requires Sound(s)
    ensures var from, to := PageFloor32(start), PageCeil32(end);
            var t := Reserve(s, start, end);
            var found := Container(s, from, to) < |s|;
            && (found <==> exists i :: 0 <= i < |s| && s[i].kind == Available && s[i].start <= from && to <= s[i].end)
            && (Valid(t) <==> !found || from < to || (from == to && NothingAbove(s, from)))
            && (Valid(t) ==> Sound(t) && |t| <= |s| + 2)
            && (!found ==> t == s)
            && (found && Valid(t) ==> Retypes(s, t, from, to, Allocated))
  {
    hide And, TypeAt, Compact, Sortable;
    var from, to := PageFloor32(start), PageCeil32(end);
    var i := Container(s, from, to);
    WholeBounds(start, end);
    if from < to {
      ReserveLaw(s, start, end);
    } else if i < |s| {
      if from == to {
        ReserveNothing(s, i, from);
      } else {
        var raw := ReserveRaw(s, i, from, to);
        assert raw[|s|] == Region(from, to, Allocated);
        BackwardsStays(raw, |s|);
      }
    }
  }

  // ----- allocation -----

  /** Only the low 20 bits of a page count reach the 32-bit byte length. */
  lemma AllocateWraps(s: seq<Region>, n: u32, k: Kind)
    requires n % 0x10_0000 != 0
    ensures ByteLength(n) == n % 0x10_0000 * 0x1000
    ensures Allocate(s, n, k) == Allocate(s, n % 0x10_0000, k) && Chosen(s, n) == Chosen(s, n % 0x10_0000)
  {
    assert ByteLength(n) == ByteLength(n % 0x10_0000);
  }

  lemma NoLength(n: u32)
    requires n % 0x10_0000 == 0
    ensures ByteLength(n) == 0
  {
  }

  lemma LowWord(a: u64)
    ensures Wrap32(a) == a % 0x1_0000_0000
  {
  }

  /** A count whose byte length wraps to zero is not refused: an empty range is
      recorded at the lowest free entry and its address returned. */
  lemma AllocateNothing(s: seq<Region>, n: u32, k: Kind)
    requires Sound(s) && 0 < n && n % 0x10_0000 == 0
    ensures var (t, p) := Allocate(s, n, k);
            var i := Chosen(s, n);
            && ByteLength(n) == 0
            && (i < |s| <==> exists j :: 0 <= j < |s| && HasRoom(s[j], 0))
            && if i == |s| then (t, p) == (s, 0) else
                 && p == s[i].start % 0x1_0000_0000
                 && if p != 0 && NothingAbove(s, s[i].start) then t == s else !Valid(t)
  {
    hide Compact, Wrap32;
    NoLength(n);
    forall j | 0 <= j < |s| ensures LooksFree(s[j], 0) == HasRoom(s[j], 0) {
      assert s[j].start < s[j].end;
    }
    var i := Chosen(s, n);
    if i < |s| {
      LowWord(s[i].start);
      var mine := Region(s[i].start, s[i].start, k);
      assert CutRaw(s, i, 0, k) == s + [mine];
      EmptyExact(s, mine);
      if s[i].start % 0x1_0000_0000 == 0 { assert (s + [mine])[|s|].Empty(); }
    }
  }

  /** An unsorted result is no map. */
  lemma UnsortedCut(s: seq<Region>, i: nat, n: nat, k: Kind)
    requires Sound(s) && i < |s| && 0 < n < 0x10_0000 && HasRoom(s[i], n)
    ensures !Valid(CutRaw(s, i, n * 0x1000, k))
  {
    var raw := CutRaw(s, i, n * 0x1000, k);
    assert raw[i].end == s[i].end && raw[|s|].start == s[i].start;
  }

  /** Allocation on all inputs, m being the page count the code works with: it
      leaves a map exactly when no entry has room, or the lowest one with room
      does not start at a multiple of 4 GiB and, for m = 0, nothing starts above
      it. Then exactly m pages there change type. */
  lemma AllocateAlways(s: seq<Region>, n: u32, k: Kind)
    requires Sound(s) && 0 < n
    ensures var (t, p) := Allocate(s, n, k);
            var m := n % 0x10_0000;
            var i := Chosen(s, n);
            && (i < |s| <==> exists j :: 0 <= j < |s| && HasRoom(s[j], m))
            && (i == |s| ==> (t, p) == (s, 0))
            && (i < |s| ==>
                  && HasRoom(s[i], m) && (forall j :: 0 <= j < |s| && HasRoom(s[j], m) ==> s[i].start <= s[j].start)
                  && p == s[i].start % 0x1_0000_0000
                  && (Valid(t) <==> p != 0 && (m == 0 ==> NothingAbove(s, s[i].start)))
                  && (Valid(t) ==>
                        Sound(t) && |t| <= |s| + 1 && Retypes(s, t, s[i].start, s[i].start + m * 0x1000, k)))
  {
    var m := n % 0x10_0000;
    var i := Chosen(s, n);
    if m != 0 {
      AllocateWraps(s, n, k);
      AllocateLaw(s, m, k);
      ChosenHasRoom(s, m);
      if i < |s| {
        AllocateCarves(s, m, k);
        UnsortedCut(s, i, m, k);
      }
    } else {
      AllocateNothing(s, n, k);
      if i < |s| { ChosenFirst(s, n); }
    }
  }

  lemma ChosenFirst(s: seq<Region>, n: u32)
    requires Sound(s) && n % 0x10_0000 == 0 && Chosen(s, n) < |s|
    ensures var i := Chosen(s, n);
            HasRoom(s[i], 0) && forall j :: 0 <= j < |s| && HasRoom(s[j], 0) ==> s[i].start <= s[j].start
  {
    var i := Chosen(s, n);
    assert ByteLength(n) == 0;
    forall j | 0 <= j < |s| && HasRoom(s[j], 0) ensures s[i].start <= s[j].start {
      assert LooksFree(s[j], 0);
      if i < j { assert s[i].end <= s[j].start; }
    }
  }

  // ----- inputs that fail -----

  function TwoBanks(): seq<Region> {
    [Region(0x10_0000, 0x20_0000, Available), Region(0x30_0000, 0x40_0000, Available)]
  }

  lemma TwoBanksSound()
    ensures Sound(TwoBanks())
    ensures !NothingAbove(TwoBanks(), 0x10_0000)
  {
    assert TwoBanks()[1].start > 0x10_0000;
  }

  /** A free range that is part of the page at p rounds to nothing if one bound is
      on a page boundary, and backwards if neither is. */
  lemma PartOfPage(p: u64, start: u64, end: u64)
    requires p % 0x1000 == 0 && p <= start < end <= p + 0x1000 <= 0xFFFF_FFFF_FFFF_F000
    requires start != p || end != p + 0x1000
    ensures var r := Rounded(Available, start, end);
            if start == p || end == p + 0x1000 then r.start == r.end
            else r.start == p + 0x1000 && r.end == p
  {
    hide And, PageCeil, PageFloor;
    InPage(p, start);
    if p < start { CeilIs(p, start); }
    FloorIs(p, end);
  }

  lemma InPage(p: nat, x: nat)
    requires p % 0x1000 == 0 && p <= x < p + 0x1000
    ensures x % 0x1000 == x - p
  {
    DivUnique(x, 0x1000, p / 0x1000, x - p);
  }

  lemma CeilIs(p: u64, x: u64)
    requires p % 0x1000 == 0 && p < x < p + 0x1000 <= 0xFFFF_FFFF_FFFF_F000
    ensures PageCeil(x) == p + 0x1000
  {
    hide And;
    InPage(p, x);
    DivUnique(PageCeil(x), 0x1000, p / 0x1000 + 1, PageCeil(x) - p - 0x1000);
  }

  lemma FloorIs(p: u64, x: u64)
    requires p % 0x1000 == 0 && p < x <= p + 0x1000 <= 0xFFFF_FFFF_FFFF_F000
    ensures PageFloor(x) == if x == p + 0x1000 then x else p
  {
    hide And;
    if x < p + 0x1000 { InPage(p, x); }
  }

  /** The range from 0x1001 to 0x1FFF leaves no map. */
  lemma AddFails()
    ensures Rounded(Available, 0x1001, 0x1FFF) == Region(0x2000, 0x1000, Available)
    ensures !Valid(Add([], Available, 0x1001, 0x1FFF))
  {
    hide And, Add, Retypes;
    PartOfPage(0x1000, 0x1001, 0x1FFF);
    AddAlways([], Available, 0x1001, 0x1FFF);
  }

  /** A zero-length range on a page boundary, contained in a free entry. */
  lemma ReserveFails()
    ensures !Valid(Reserve(TwoBanks(), 0x10_0000, 0x10_0000))
  {
    hide And, Reserve, Retypes, Sound, NothingAbove, Container;
    var s := TwoBanks();
    TwoBanksSound();
    ReserveAlways(s, 0x10_0000, 0x10_0000);
    assert PageFloor32(0x10_0000) == 0x10_0000 == PageCeil32(0x10_0000);
    assert Holds(s[0], 0x10_0000, 0x10_0000);
  }

  /** 2^20 pages: the pointer is not NULL and the map is spoilt. */
  lemma AllocateFails()
    ensures var (t, p) := Allocate(TwoBanks(), 0x10_0000, Allocated); p == 0x10_0000 && !Valid(t)
  {
    hide Allocate, Retypes, Sound, NothingAbove, Chosen;
    var s := TwoBanks();
    TwoBanksSound();
    AllocateAlways(s, 0x10_0000, Allocated);
    assert HasRoom(s[0], 0);
    assert forall j :: 0 <= j < |s| ==> s[0].start <= s[j].start;
  }

  function HighEntry(): seq<Region> { [Region(0x1_0000_0000, 0x1_0001_0000, Available)] }

  /** A free entry at exactly 4 GiB: the pointer is NULL, yet the page is taken
      and the list is left unsorted. */
  lemma AllocateLoses()
    ensures var (t, p) := Allocate(HighEntry(), 1, Allocated);
            Sound(HighEntry()) && p == 0 && !Valid(t) && t != HighEntry()
  {
    hide Allocate, Retypes, NothingAbove, Chosen;
    var s := HighEntry();
    assert Sound(s);
    assert HasRoom(s[0], 1);
    AllocateAlways(s, 1, Allocated);
  }
}
