/** What allocation, reservation, addition and release mean for the map from
    addresses to types. */
module RegionLaws {
  import opened Bits
  import opened Options
  import opened Regions
  import opened TombstoneSort
  import opened RegionOps

  /** What every map built by the operations keeps: entries in order, and what
      is free or can be freed in whole pages of the 52-bit physical address space. */
  predicate Sound(s: seq<Region>) {
    Valid(s) && forall i :: 0 <= i < |s| && Paged(s[i].kind) ==> WholePages(s[i])
  }

  predicate Paged(k: Kind) { k == Available || k == Reserved }

  predicate WholePages(r: Region) {
    r.start % 0x1000 == 0 && r.end % 0x1000 == 0 && r.end <= 0x10_0000_0000_0000
  }

  /** t is the map s with the addresses [lo, hi) given to kind k and no other changed. */
  ghost predicate Retypes(s: seq<Region>, t: seq<Region>, lo: int, hi: int, k: Kind) {
    forall a :: TypeAt(t, a) == if lo <= a < hi then Some(k) else TypeAt(s, a)
  }

  // ----- allocation -----

  /** An entry an allocation of n pages can be cut from. */
  predicate HasRoom(r: Region, n: nat) {
    r.kind == Available && 0x10_0000 <= r.start && r.start + n * 0x1000 <= r.end
  }

  /** What becomes of a free entry when its first n pages go to kind k. */
  function Cut(r: Region, n: nat, k: Kind): seq<Region>
    requires 0 < n && HasRoom(r, n)
  {
    var cut: u64 := r.start + n * 0x1000;
    [Region(r.start, cut, k)] + if cut < r.end then [Region(cut, r.end, Available)] else []
  }

  lemma CutFacts(r: Region, n: nat, k: Kind)
    requires 0 < n && HasRoom(r, n) && WholePages(r)
    ensures var mid := Cut(r, n, k);
            && Valid(mid) && Within(mid, r)
            && forall j :: 0 <= j < |mid| && Paged(mid[j].kind) ==> WholePages(mid[j])
  {
    PagesOn(r.start, n);
  }

  lemma CutTypes(r: Region, n: nat, k: Kind, a: int)
    requires 0 < n && HasRoom(r, n) && r.start <= a < r.end
    ensures TypeAt(Cut(r, n, k), a) == Some(if a < r.start + n * 0x1000 then k else Available)
  {
    var cut: u64 := r.start + n * 0x1000;
    var rest := if cut < r.end then [Region(cut, r.end, Available)] else [];
    TypeAtConcat([Region(r.start, cut, k)], rest, a);
  }

  function Carved(s: seq<Region>, i: nat, n: nat, k: Kind): seq<Region>
    requires i < |s| && 0 < n && HasRoom(s[i], n)
  {
    Splice(s, i, Cut(s[i], n, k))
  }

  lemma RoomTest(r: Region, n: u32)
    requires n < 0x10_0000 && (r.kind == Available ==> r.start < r.end <= 0x10_0000_0000_0000)
    ensures LooksFree(r, ByteLength(n)) == HasRoom(r, n)
    ensures ByteLength(n) == n * 0x1000
  {
  }

  lemma ChosenHasRoom(s: seq<Region>, n: u32)
    requires Sound(s) && 0 < n < 0x10_0000
    ensures var i := Chosen(s, n);
            (i < |s| ==> HasRoom(s[i], n)) && forall j :: 0 <= j < i ==> !HasRoom(s[j], n)
  {
    forall j | 0 <= j < |s| ensures LooksFree(s[j], ByteLength(n)) == HasRoom(s[j], n) {
      RoomTest(s[j], n);
    }
  }

  /** The chosen entry is the lowest one with room. */
  lemma ChosenIsLowest(s: seq<Region>, n: u32, j: nat)
    requires Sound(s) && 0 < n < 0x10_0000 && j < |s| && HasRoom(s[j], n)
    ensures Chosen(s, n) < |s| && s[Chosen(s, n)].start <= s[j].start
  {
    ChosenHasRoom(s, n);
    ValidIsStrict(s);
  }

  /** An allocation that gets a usable pointer carves the chosen entry in place. */
  lemma AllocateCarves(s: seq<Region>, n: u32, k: Kind)
    requires Sound(s) && 0 < n < 0x10_0000
    ensures var i := Chosen(s, n);
            i < |s| && s[i].start % 0x1_0000_0000 != 0 ==>
              HasRoom(s[i], n) && Allocate(s, n, k) == (Carved(s, i, n, k), s[i].start % 0x1_0000_0000)
  {
    ChosenHasRoom(s, n);
    var i := Chosen(s, n);
    if i < |s| {
      RoomTest(s[i], n);
      CarveSorts(s, i, n, k);
    }
  }

  lemma CutPieces(r: Region, n: nat, k: Kind)
    requires 0 < n && HasRoom(r, n)
    ensures var cut: u64 := r.start + n * 0x1000;
            multiset(Cut(r, n, k)) == multiset(Live([r.(start := cut)])) + multiset([Region(r.start, cut, k)])
  {
    var cut: u64 := r.start + n * 0x1000;
    LiveOne(r.(start := cut));
  }

  lemma CarveSorts(s: seq<Region>, i: nat, n: nat, k: Kind)
    requires Sound(s) && i < |s| && 0 < n < 0x10_0000 && HasRoom(s[i], n)
    ensures Compact(CutRaw(s, i, n * 0x1000, k)) == Carved(s, i, n, k)
  {
    hide Compact, Live, Cut, Splice, Within;
    var cut: u64 := s[i].start + n * 0x1000;
    assert WholePages(s[i]);
    CutFacts(s[i], n, k);
    CutPieces(s[i], n, k);
    SpliceCompact(s, i, s[i].(start := cut), [Region(s[i].start, cut, k)], Cut(s[i], n, k));
  }

  lemma CarvedTypes(s: seq<Region>, i: nat, n: nat, k: Kind, a: int)
    requires Sound(s) && i < |s| && 0 < n && HasRoom(s[i], n)
    ensures TypeAt(Carved(s, i, n, k), a) ==
            if s[i].start <= a < s[i].start + n * 0x1000 then Some(k) else TypeAt(s, a)
  {
    assert WholePages(s[i]);
    CutFacts(s[i], n, k);
    SpliceTypes(s, i, Cut(s[i], n, k), a);
    if s[i].start <= a < s[i].end {
      TypeAtEntry(s, i, a);
      CutTypes(s[i], n, k, a);
    }
  }

  lemma CarvedSound(s: seq<Region>, i: nat, n: nat, k: Kind)
    requires Sound(s) && i < |s| && 0 < n && HasRoom(s[i], n)
    ensures Sound(Carved(s, i, n, k))
    ensures |Carved(s, i, n, k)| <= |s| + 1
  {
    assert WholePages(s[i]);
    CutFacts(s[i], n, k);
    SpliceValid(s, i, Cut(s[i], n, k));
    SpliceSound(s, i, Cut(s[i], n, k));
  }

  lemma SpliceSound(s: seq<Region>, i: nat, mid: seq<Region>)
    requires Sound(s) && i < |s| && Valid(Splice(s, i, mid))
    requires forall k :: 0 <= k < |mid| && Paged(mid[k].kind) ==> WholePages(mid[k])
    ensures Sound(Splice(s, i, mid))
  {
    var t := Splice(s, i, mid);
    forall k | 0 <= k < |t| && Paged(t[k].kind) ensures WholePages(t[k]) {
      if i <= k < i + |mid| {
        assert t[k] == mid[k - i];
      } else {
        assert t[k] == s[if k < i then k else k - |mid| + 1];
      }
    }
  }

  /** First fit and conservation: what a call to allocate n pages does to the
      whole map and when it returns NULL. */
  lemma AllocateLaw(s: seq<Region>, n: u32, k: Kind)
    requires Sound(s) && 0 < n < 0x10_0000
    ensures var (t, p) := Allocate(s, n, k);
            // some entry has room, and the lowest does not start at a multiple of 4 GiB
            if exists i :: 0 <= i < |s| && HasRoom(s[i], n) then
              var low := s[Chosen(s, n)].start;
              && (forall j :: 0 <= j < |s| && HasRoom(s[j], n) ==> low <= s[j].start)
              && (low % 0x1_0000_0000 != 0 ==>
                    && Sound(t) && |t| <= |s| + 1 && p == low % 0x1_0000_0000 != 0
                    && Retypes(s, t, low, low + n * 0x1000, k))
              && (low % 0x1_0000_0000 == 0 ==> p == 0 && |t| == |s| + 1 && t != s)
            else (t, p) == (s, 0)
  {
    hide TypeAt, Compact, Allocate, Chosen, Carved, Retypes, Sound;
    EmptyHanded(s, n, k);
    ChosenHasRoom(s, n);
    var i := Chosen(s, n);
    if exists j :: 0 <= j < |s| && HasRoom(s[j], n) {
      forall j | 0 <= j < |s| && HasRoom(s[j], n) ensures s[i].start <= s[j].start {
        ChosenIsLowest(s, n, j);
      }
      if s[i].start % 0x1_0000_0000 != 0 {
        AllocateCarves(s, n, k);
        CarvedSound(s, i, n, k);
        CarvedRetypes(s, i, n, k);
      } else {
        NullLeaves(s, n, k);
      }
    }
  }

  lemma EmptyHanded(s: seq<Region>, n: u32, k: Kind)
    ensures Chosen(s, n) <= |s| && (Chosen(s, n) == |s| ==> Allocate(s, n, k) == (s, 0))
  {
  }

  lemma CarvedRetypes(s: seq<Region>, i: nat, n: nat, k: Kind)
    requires Sound(s) && i < |s| && 0 < n && HasRoom(s[i], n)
    ensures Retypes(s, Carved(s, i, n, k), s[i].start, s[i].start + n * 0x1000, k)
  {
    hide TypeAt, Carved, Sound;
    forall a ensures TypeAt(Carved(s, i, n, k), a) ==
                     if s[i].start <= a < s[i].start + n * 0x1000 then Some(k) else TypeAt(s, a) {
      CarvedTypes(s, i, n, k, a);
    }
  }

  /** A pointer that became NULL leaves the list longer by the range recorded. */
  lemma NullLeaves(s: seq<Region>, n: u32, k: Kind)
    requires n > 0 && Chosen(s, n) < |s| && s[Chosen(s, n)].start % 0x1_0000_0000 == 0
    ensures var (t, p) := Allocate(s, n, k); p == 0 && |t| == |s| + 1 && t != s
  {
    hide Compact;
  }

  /** The caller of allocate sees the truth exactly when the lowest room lies
      below 4 GiB. */
  lemma PointerIsTrue(s: seq<Region>, n: u32, k: Kind)
    requires Sound(s) && 0 < n < 0x10_0000 && Chosen(s, n) < |s|
    ensures Allocate(s, n, k).1 == s[Chosen(s, n)].start <==> s[Chosen(s, n)].start < 0x1_0000_0000
  {
    ChosenHasRoom(s, n);
  }

  // ----- reservation -----

  function Inside(r: Region, from: u64, to: u64): seq<Region>
    requires Holds(r, from, to)
  {
    (if r.start < from then [Region(r.start, from, Available)] else [])
    + [Region(from, to, Allocated)]
    + (if to < r.end then [Region(to, r.end, Available)] else [])
  }

  lemma InsideFacts(r: Region, from: u64, to: u64)
    requires Holds(r, from, to) && from < to
    ensures Valid(Inside(r, from, to)) && Within(Inside(r, from, to), r)
  {
  }

  lemma ReserveFront(s: seq<Region>, i: nat, from: u64, to: u64)
    requires Valid(s) && i < |s| && Holds(s[i], from, to) && from < to && from == s[i].start
    ensures Compact(ReserveRaw(s, i, from, to)) == Splice(s, i, Inside(s[i], from, to))
  {
    InsideFacts(s[i], from, to);
    var right := s[i].(start := to);
    LiveOne(right);
    SpliceCompact(s, i, right, [Region(from, to, Allocated)], Inside(s[i], from, to));
  }

  lemma ReserveBack(s: seq<Region>, i: nat, from: u64, to: u64)
    requires Valid(s) && i < |s| && Holds(s[i], from, to) && from < to && from != s[i].start && to == s[i].end
    ensures Compact(ReserveRaw(s, i, from, to)) == Splice(s, i, Inside(s[i], from, to))
  {
    InsideFacts(s[i], from, to);
    var left := s[i].(end := from);
    LiveOne(left);
    SpliceCompact(s, i, left, [Region(from, to, Allocated)], Inside(s[i], from, to));
  }

  lemma ReserveMiddle(s: seq<Region>, i: nat, from: u64, to: u64)
    requires Valid(s) && i < |s| && Holds(s[i], from, to) && from < to && from != s[i].start && to != s[i].end
    ensures Compact(ReserveRaw(s, i, from, to)) == Splice(s, i, Inside(s[i], from, to))
  {
    InsideFacts(s[i], from, to);
    var left, mine, right := s[i].(end := from), Region(from, to, Allocated), s[i].(start := to);
    LiveOne(left);
    assert Inside(s[i], from, to) == [left, mine, right];
    SpliceCompact(s, i, left, [mine, right], Inside(s[i], from, to));
  }

  lemma ReserveSplits(s: seq<Region>, i: nat, from: u64, to: u64)
    requires Valid(s) && i < |s| && Holds(s[i], from, to) && from < to
    ensures Compact(ReserveRaw(s, i, from, to)) == Splice(s, i, Inside(s[i], from, to))
  {
    if from == s[i].start {
      ReserveFront(s, i, from, to);
    } else if to == s[i].end {
      ReserveBack(s, i, from, to);
    } else {
      ReserveMiddle(s, i, from, to);
    }
  }

  lemma InsideTypes(r: Region, from: u64, to: u64, a: int)
    requires Holds(r, from, to) && from < to && r.start <= a < r.end
    ensures TypeAt(Inside(r, from, to), a) == Some(if from <= a < to then Allocated else Available)
  {
    var x := if r.start < from then [Region(r.start, from, Available)] else [];
    var y := [Region(from, to, Allocated)];
    var z := if to < r.end then [Region(to, r.end, Available)] else [];
    TypeAtThree(x, y, z, a);
  }

  /** Reservation splits exactly, whichever way the range lies in its entry; a
      request no single free entry contains changes nothing. */
  lemma ReserveLaw(s: seq<Region>, start: u32, end: u32)
    requires Sound(s) && PageFloor32(start) < PageCeil32(end)
    ensures var from, to := PageFloor32(start), PageCeil32(end);
            var t := Reserve(s, start, end);
            && Sound(t) && |t| <= |s| + 2
            && (if exists i :: 0 <= i < |s| && s[i].kind == Available && s[i].start <= from && to <= s[i].end
                then Retypes(s, t, from, to, Allocated) else t == s)
  {
    hide And, TypeAt, Compact, ReserveRaw;
    var from, to := PageFloor32(start), PageCeil32(end);
    WholeBounds(start, end);
    var i := First(s, (r: Region) => Holds(r, from, to));
    if i < |s| {
      ReserveSplits(s, i, from, to);
      ReservedSize(s, i, from, to);
      ReservedSound(s, i, from, to);
      ReservedRetypes(s, i, from, to);
    }
  }

  lemma WholeBounds(start: u32, end: u32)
    ensures PageFloor32(start) % 0x1000 == 0 && PageCeil32(end) % 0x1000 == 0
  {
    hide And;
  }

  lemma ReservedSize(s: seq<Region>, i: nat, from: u64, to: u64)
    requires i < |s| && Holds(s[i], from, to)
    ensures |Splice(s, i, Inside(s[i], from, to))| <= |s| + 2
  {
  }

  lemma ReservedRetypes(s: seq<Region>, i: nat, from: u64, to: u64)
    requires Valid(s) && i < |s| && Holds(s[i], from, to) && from < to
    ensures Retypes(s, Splice(s, i, Inside(s[i], from, to)), from, to, Allocated)
  {
    forall a ensures TypeAt(Splice(s, i, Inside(s[i], from, to)), a) ==
                     if from <= a < to then Some(Allocated) else TypeAt(s, a) {
      ReservedTypes(s, i, from, to, a);
    }
  }

  lemma ReservedSound(s: seq<Region>, i: nat, from: u64, to: u64)
    requires Sound(s) && i < |s| && Holds(s[i], from, to) && from < to
    requires from % 0x1000 == 0 && to % 0x1000 == 0
    ensures Sound(Splice(s, i, Inside(s[i], from, to)))
  {
    assert WholePages(s[i]);
    InsideFacts(s[i], from, to);
    SpliceValid(s, i, Inside(s[i], from, to));
    SpliceSound(s, i, Inside(s[i], from, to));
  }

  lemma ReservedTypes(s: seq<Region>, i: nat, from: u64, to: u64, a: int)
    requires Valid(s) && i < |s| && Holds(s[i], from, to) && from < to
    ensures TypeAt(Splice(s, i, Inside(s[i], from, to)), a) ==
            if from <= a < to then Some(Allocated) else TypeAt(s, a)
  {
    InsideFacts(s[i], from, to);
    SpliceTypes(s, i, Inside(s[i], from, to), a);
    if s[i].start <= a < s[i].end {
      InsideTypes(s[i], from, to, a);
      TypeAtEntry(s, i, a);
    }
  }

  // ----- addition -----

  /** What rounding does to a reported range: free memory keeps the whole pages
      inside it, reserved memory takes every page it touches, and every other
      kind stays as reported. Rounding up from the last page of the address
      space wraps to zero. */
  lemma RoundedMeans(k: Kind, start: u64, end: u64)
    ensures var r := Rounded(k, start, end);
            && r.kind == k
            && (k == Available || k == Reserved ==> r.start % 0x1000 == 0 && r.end % 0x1000 == 0)
            && (k == Available ==> r.end <= end < r.end + 0x1000 &&
                                   if start <= 0xFFFF_FFFF_FFFF_F000
                                   then start <= r.start < start + 0x1000 else r.start == 0)
            && (k == Reserved ==> r.start <= start < r.start + 0x1000 &&
                                  if end <= 0xFFFF_FFFF_FFFF_F000 then end <= r.end < end + 0x1000 else r.end == 0)
            && (k != Available && k != Reserved ==> r.start == start && r.end == end)
  {
    hide And;
  }

  /** Where an entry starting at a belongs in an ordered list. */
  function Place(s: seq<Region>, a: int): (i: nat)
    ensures i <= |s|
    ensures forall j :: 0 <= j < i ==> s[j].start < a
    ensures i < |s| ==> a <= s[i].start
  {
    if s == [] || a <= s[0].start then 0 else
      var i := Place(s[1..], a);
      assert forall j :: 0 < j < i + 1 ==> s[j] == s[1..][j - 1];
      i + 1
  }

  function Inserted(s: seq<Region>, r: Region): seq<Region> {
    var i := Place(s, r.start);
    s[..i] + [r] + s[i..]
  }

  predicate Clear(s: seq<Region>, r: Region) {
    forall i :: 0 <= i < |s| ==> s[i].end <= r.start || r.end <= s[i].start
  }

  lemma InsertedValid(s: seq<Region>, r: Region)
    requires Valid(s) && r.start < r.end && Clear(s, r)
    ensures Valid(Inserted(s, r))
  {
    hide Place;
    var i, t := Place(s, r.start), Inserted(s, r);
    PlaceParts(s, r);
    assert forall k :: 0 <= k < |t| ==> t[k] == if k < i then s[k] else if k == i then r else s[k - 1];
    forall a, b | 0 <= a < b < |t| ensures t[a].end <= t[b].start {
      if a < b < i || i < a || a < i < b {
        OrderedAt(s, if a < i then a else a - 1, if b < i then b else b - 1);
      }
    }
  }

  lemma OrderedAt(s: seq<Region>, a: nat, b: nat)
    requires Valid(s) && a < b < |s|
    ensures s[a].end <= s[b].start
  {
  }

  lemma PlaceParts(s: seq<Region>, r: Region)
    requires Valid(s) && r.start < r.end && Clear(s, r)
    ensures forall k :: 0 <= k < Place(s, r.start) ==> s[k].end <= r.start
    ensures forall k :: Place(s, r.start) <= k < |s| ==> r.end <= s[k].start
  {
    ValidIsStrict(s);
    var i := Place(s, r.start);
    forall k | i <= k < |s| ensures r.end <= s[k].start {
      assert i < k ==> s[i].start < s[k].start;
    }
  }

  /** Adding a range that is not empty after rounding and clear of the map puts
      it in order. */
  lemma AddLaw(s: seq<Region>, k: Kind, start: u64, end: u64)
    requires Valid(s)
    ensures var r := Rounded(k, start, end);
            r.start < r.end && Clear(s, r) ==>
              && Add(s, k, start, end) == Inserted(s, r) && Valid(Inserted(s, r))
              && Retypes(s, Inserted(s, r), r.start, r.end, k)
  {
    var r := Rounded(k, start, end);
    if r.start < r.end && Clear(s, r) {
      InsertedValid(s, r);
      AddInserts(s, r);
      forall a ensures TypeAt(Inserted(s, r), a) == if r.start <= a < r.end then Some(k) else TypeAt(s, a) {
        InsertedTypes(s, r, a);
      }
    }
  }

  lemma AddInserts(s: seq<Region>, r: Region)
    requires Valid(s) && !r.Empty() && Valid(Inserted(s, r))
    ensures Compact(s + [r]) == Inserted(s, r)
  {
    hide Compact, Live, Tombs, Place, Sortable;
    var raw := s + [r];
    NothingOvertakes(raw);
    AllLive(raw);
    ValidIsStrict(Inserted(s, r));
    var i := Place(s, r.start);
    assert s == s[..i] + s[i..];
    assert multiset(raw) == multiset(Inserted(s, r));
    CompactTo(raw, Inserted(s, r));
  }

  lemma InsertedTypes(s: seq<Region>, r: Region, a: int)
    requires Valid(s) && Clear(s, r)
    ensures TypeAt(Inserted(s, r), a) == if r.start <= a < r.end then Some(r.kind) else TypeAt(s, a)
  {
    var i := Place(s, r.start);
    assert s == s[..i] + s[i..];
    TypeAtThree(s[..i], [r], s[i..], a);
    TypeAtConcat(s[..i], s[i..], a);
    if r.start <= a < r.end { TypeAtOutside(s[..i], a); }
  }
}
