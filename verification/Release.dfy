/** `pmm_deallocate`: giving a range back and joining free neighbours
    (Kickstart/Multiboot/pmm.c:200-277). */
module Release {
  import opened Bits
  import opened Options
  import opened Regions
  import opened TombstoneSort
  import opened RegionOps
  import opened RegionLaws
  import opened RegionEdges

  predicate Touching(a: Region, b: Region) {
    a.kind == Available && b.kind == Available && a.end == b.start
  }

  predicate NoneTouching(s: seq<Region>) {
    forall i :: 0 < i < |s| ==> !Touching(s[i - 1], s[i])
  }

  /** What coalescing is for: every run of touching free entries is one entry. */
  function Merged(s: seq<Region>): seq<Region> {
    if s == [] then [] else Join(s[0], Merged(s[1..]))
  }

  function Join(x: Region, r: seq<Region>): seq<Region> {
    if r != [] && Touching(x, r[0]) then [Region(x.start, r[0].end, Available)] + r[1..] else [x] + r
  }

  lemma {:induction false} MergedFacts(s: seq<Region>)
    requires Valid(s)
    ensures Valid(Merged(s)) && NoneTouching(Merged(s)) && |Merged(s)| <= |s|
    ensures s != [] ==> Merged(s) != [] && Merged(s)[0].start == s[0].start && Merged(s)[0].kind == s[0].kind
  {
    if s != [] {
      ValidTail(s);
      MergedFacts(s[1..]);
      JoinFacts(s[0], Merged(s[1..]));
    }
  }

  lemma JoinFacts(x: Region, r: seq<Region>)
    requires Valid(r) && NoneTouching(r) && x.start < x.end && (r != [] ==> x.end <= r[0].start)
    ensures Valid(Join(x, r)) && NoneTouching(Join(x, r))
  {
    var j := Join(x, r);
    if r != [] {
      assert forall i :: 0 < i < |r| ==> r[0].start < r[i].start;
    }
    forall i | 0 < i < |j| ensures !Touching(j[i - 1], j[i]) {
      if |j| == |r| {
        assert !Touching(r[i - 1], r[i]);
      } else if i > 1 {
        assert !Touching(r[i - 2], r[i - 1]);
      }
    }
  }

  lemma {:induction false} MergedTypes(s: seq<Region>, a: int)
    requires Valid(s)
    ensures TypeAt(Merged(s), a) == TypeAt(s, a)
  {
    if s != [] {
      ValidTail(s);
      MergedTypes(s[1..], a);
      MergedFacts(s[1..]);
    }
  }

  lemma {:induction false} MergedPages(s: seq<Region>)
    requires Sound(s)
    ensures Sound(Merged(s))
  {
    MergedFacts(s);
    if s != [] {
      ValidTail(s);
      assert forall i :: 0 <= i < |s[1..]| ==> s[1..][i] == s[i + 1];
      MergedPages(s[1..]);
      var r := Merged(s[1..]);
      var m := Merged(s);
      assert Paged(s[0].kind) ==> WholePages(s[0]);
      forall i | 0 <= i < |m| && Paged(m[i].kind) ensures WholePages(m[i]) {
        if |m| == |r| { assert Paged(r[i].kind) ==> WholePages(r[i]); }
        else if i > 0 { assert Paged(r[i - 1].kind) ==> WholePages(r[i - 1]); }
      }
    }
  }

  lemma {:induction false} MergedOfNoneTouching(s: seq<Region>)
    requires NoneTouching(s)
    ensures Merged(s) == s
  {
    if s != [] {
      var t := s[1..];
      forall i | 0 < i < |t| ensures !Touching(t[i - 1], t[i]) { assert !Touching(s[i], s[i + 1]); }
      MergedOfNoneTouching(t);
      if t != [] { assert !Touching(s[0], s[1]); }
    }
  }

  /** Joining two touching entries first, or leaving it to `Merged`, is the same. */
  lemma JoinFirst(x: Region, y: Region, rest: seq<Region>)
    requires Touching(x, y)
    ensures Merged([x, y] + rest) == Merged([Region(x.start, y.end, Available)] + rest)
  {
    var xy := Region(x.start, y.end, Available);
    assert ([x, y] + rest)[1..] == [y] + rest;
    assert ([y] + rest)[1..] == rest;
    assert ([xy] + rest)[1..] == rest;
    var r := Merged(rest);
    assert Join(x, Join(y, r)) == Join(xy, r);
  }

  // ----- the coalescing loops compute Merged -----

  predicate TombsAreFree(s: seq<Region>) {
    forall i :: 0 <= i < |s| && s[i].Empty() ==> s[i].kind == Available
  }

  lemma LiveHead(s: seq<Region>, i: nat)
    requires i < |s|
    ensures Live(s[i..]) == Live([s[i]]) + Live(s[i + 1..])
  {
    assert s[i..] == [s[i]] + s[i + 1..];
    LiveConcat([s[i]], s[i + 1..]);
  }

  lemma LiveSkips(s: seq<Region>, i: nat, j: nat)
    requires i < j <= |s| && !s[i].Empty() && forall k :: i < k < j ==> s[k].Empty()
    ensures Live(s[i..]) == [s[i]] + Live(s[j..])
  {
    assert s[i..] == [s[i]] + s[i + 1..j] + s[j..];
    LiveThree([s[i]], s[i + 1..j], s[j..]);
    LiveOne(s[i]);
    AllTombs(s[i + 1..j]);
  }

  /** What the loop leaves alone. */
  lemma {:induction false} AbsorbShape(s: seq<Region>, i: nat, j: nat)
    requires i < j <= |s| && TombsAreFree(s) && s[i].kind == Available && s[i].start < s[i].end
    requires forall k :: i <= k < |s| ==> s[k].start <= s[k].end
    ensures var t := Absorb(s, i, j);
            && t[..i] == s[..i] && TombsAreFree(t)
            && t[i].start == s[i].start < t[i].end && t[i].kind == Available
            && forall k :: i <= k < |t| ==> t[k].start <= t[k].end
    decreases |s| - j
  {
    if j < |s| && s[j].kind == Available {
      if s[j].Empty() {
        AbsorbShape(s, i, j + 1);
      } else if s[i].end == s[j].start {
        var u := Taken(s, i, j);
        AbsorbShape(u, i, j + 1);
        assert u[..i] == s[..i];
      }
    }
  }

  /** One turn of the loop that joins. */
  function Taken(s: seq<Region>, i: nat, j: nat): seq<Region>
    requires i < j < |s|
  {
    s[i := s[i].(end := s[j].end)][j := s[j].(start := s[j].end)]
  }

  lemma TakenMerges(s: seq<Region>, i: nat, j: nat)
    requires i < j < |s| && Touching(s[i], s[j]) && s[i].start < s[i].end && s[j].start < s[j].end
    requires forall k :: i < k < j ==> s[k].Empty()
    ensures Merged(Live(s[i..])) == Merged(Live(Taken(s, i, j)[i..]))
  {
    var u := Taken(s, i, j);
    LiveSkips(s, i, j);
    LiveSkips(u, i, j + 1);
    LiveHead(s, j);
    LiveOne(s[j]);
    assert u[j + 1..] == s[j + 1..];
    JoinFirst(s[i], s[j], Live(s[j + 1..]));
    Associative([s[i]], [s[j]], Live(s[j + 1..]));
  }

  /** The inner loop joins the head with the free entries it touches, and stops
      at one it does not. */
  lemma {:induction false} AbsorbMerges(s: seq<Region>, i: nat, j: nat)
    requires i < j <= |s| && TombsAreFree(s) && s[i].kind == Available && s[i].start < s[i].end
    requires forall k :: i <= k < |s| ==> s[k].start <= s[k].end
    requires forall k :: i < k < j ==> s[k].Empty()
    ensures var t := Absorb(s, i, j); Merged(Live(s[i..])) == [t[i]] + Merged(Live(t[i + 1..]))
    decreases |s| - j
  {
    hide Live, Merged;
    if j == |s| || s[j].kind != Available || (!s[j].Empty() && s[i].end != s[j].start) {
      LiveSkips(s, i, j);
      AbsorbStops(s, i, j);
    } else if s[j].Empty() {
      AbsorbMerges(s, i, j + 1);
    } else {
      AbsorbMerges(Taken(s, i, j), i, j + 1);
      TakenMerges(s, i, j);
    }
  }

  lemma AbsorbStops(s: seq<Region>, i: nat, j: nat)
    requires i < j <= |s| && TombsAreFree(s)
    requires forall k :: i < k < |s| ==> s[k].start <= s[k].end
    requires forall k :: i < k < j ==> s[k].Empty()
    requires j == |s| || s[j].kind != Available || (!s[j].Empty() && s[i].end != s[j].start)
    requires Live(s[i..]) == [s[i]] + Live(s[j..])
    ensures Merged(Live(s[i..])) == [s[i]] + Merged(Live(s[i + 1..]))
  {
    assert s[i + 1..] == s[i + 1..j] + s[j..];
    LiveConcat(s[i + 1..j], s[j..]);
    AllTombs(s[i + 1..j]);
    var rest := Live(s[j..]);
    assert Live(s[i + 1..]) == rest;
    assert Live(s[i..])[1..] == rest;
    if j < |s| {
      LiveHead(s, j);
      LiveOne(s[j]);
      assert rest[0] == s[j];
      MergedHead(rest);
    }
  }

  lemma MergedHead(s: seq<Region>)
    requires s != []
    ensures Merged(s) != [] && Merged(s)[0].start == s[0].start && Merged(s)[0].kind == s[0].kind
  {
  }

  lemma NothingLive()
    ensures Live([]) == [] && Merged([]) == []
  {
  }

  /** An entry that is not free joins nothing. */
  lemma MergedOther(x: Region, rest: seq<Region>)
    requires x.kind != Available
    ensures Merged([x] + rest) == [x] + Merged(rest)
  {
    assert ([x] + rest)[1..] == rest;
  }

  lemma {:induction false} CoalesceMerges(s: seq<Region>, i: nat)
    requires i <= |s| && TombsAreFree(s) && forall k :: i <= k < |s| ==> s[k].start <= s[k].end
    ensures Live(Coalesce(s, i)) == Live(s[..i]) + Merged(Live(s[i..]))
    decreases |s| - i
  {
    hide Live, Merged, Absorb;
    if i == |s| {
      assert s[..i] == s && s[i..] == [];
      NothingLive();
    } else {
      LiveHead(s, i);
      LiveOne(s[i]);
      if s[i].kind != Available || s[i].Empty() {
        CoalesceMerges(s, i + 1);
        LivePrefix(s, i);
        if s[i].Empty() {
          assert Live(s[i..]) == Live(s[i + 1..]);
        } else {
          MergedOther(s[i], Live(s[i + 1..]));
          Associative(Live(s[..i]), [s[i]], Merged(Live(s[i + 1..])));
        }
      } else {
        AbsorbShape(s, i, i + 1);
        AbsorbMerges(s, i, i + 1);
        var t := Absorb(s, i, i + 1);
        CoalesceMerges(t, i + 1);
        LivePrefix(t, i);
        LiveOne(t[i]);
        Associative(Live(s[..i]), [t[i]], Merged(Live(t[i + 1..])));
      }
    }
  }

  lemma LivePrefix(s: seq<Region>, i: nat)
    requires i < |s|
    ensures Live(s[..i + 1]) == Live(s[..i]) + Live([s[i]])
  {
    assert s[..i + 1] == s[..i] + [s[i]];
    LiveConcat(s[..i], [s[i]]);
  }

  /** Coalescing only moves ends: a live entry keeps its start, a dropped one
      stands where it ended. */
  predicate Swept(s: seq<Region>, t: seq<Region>) {
    && |t| == |s|
    && forall k :: 0 <= k < |s| ==> SweptEntry(s[k], t[k])
  }

  predicate SweptEntry(a: Region, b: Region) {
    b.start <= b.end && (if b.Empty() then b.start == a.end && b.kind == Available else b.start == a.start)
  }

  /** From i on: dropped entries up to m, untouched ones of o behind them. */
  predicate Frontier(o: seq<Region>, s: seq<Region>, i: nat, m: nat) {
    && i <= m <= |s| == |o|
    && (forall k :: i <= k < m ==> s[k].Empty())
    && (forall k :: m <= k < |s| ==> s[k] == o[k])
  }

  lemma {:induction false} AbsorbSwept(o: seq<Region>, s: seq<Region>, i: nat, j: nat) returns (m: nat)
    requires i < j <= |s| && Valid(o) && Swept(o, s) && Frontier(o, s, i + 1, j)
    requires s[i].start < s[i].end && (j < |s| ==> s[i].end <= o[j].start)
    ensures Swept(o, Absorb(s, i, j)) && Frontier(o, Absorb(s, i, j), i + 1, m)
    decreases |s| - j
  {
    m := j;
    if j < |s| && s[j].kind == Available && s[i].end == s[j].start {
      m := AbsorbSwept(o, Taken(s, i, j), i, j + 1);
    }
  }

  lemma {:induction false} CoalesceSwept(o: seq<Region>, s: seq<Region>, i: nat, m: nat)
    requires Valid(o) && Swept(o, s) && Frontier(o, s, i, m)
    ensures Swept(o, Coalesce(s, i))
    decreases |s| - i
  {
    if i < |s| {
      if s[i].Empty() {
        CoalesceSwept(o, s, i + 1, if m == i then i + 1 else m);
      } else if s[i].kind != Available {
        CoalesceSwept(o, s, i + 1, i + 1);
      } else {
        var m' := AbsorbSwept(o, s, i, i + 1);
        CoalesceSwept(o, Absorb(s, i, i + 1), i + 1, m');
      }
    }
  }

  /** The sweep after coalescing leaves the merged list. */
  lemma CoalesceCompact(s: seq<Region>)
    requires Valid(s)
    ensures Compact(Coalesce(s, 0)) == Merged(s)
  {
    var t := Coalesce(s, 0);
    CoalesceSwept(s, s, 0, 0);
    CoalesceMerges(s, 0);
    AllLive(s);
    assert s[..0] == [] && s[0..] == s;
    MergedFacts(s);
    ValidIsStrict(Merged(s));
    forall a, b | 0 <= a < b < |t| && t[b].Empty() && !t[a].Empty() ensures t[a].start <= t[b].start {
      assert SweptEntry(s[a], t[a]) && SweptEntry(s[b], t[b]);
      assert s[a].end <= s[b].start;
    }
    NothingOvertakes(t);
    CompactTo(t, Merged(s));
  }

  // ----- the laws of release -----

  /** The entry that `pmm_deallocate(addr)` frees, |s| if it frees none. */
  function Freed(s: seq<Region>, addr: u32): (i: nat)
    ensures i <= |s|
    ensures i < |s| ==> s[i].kind == Reserved && s[i].start == addr - addr % 0x1000
    ensures forall j :: 0 <= j < i ==> !(s[j].kind == Reserved && s[j].start == addr - addr % 0x1000)
  {
    First(s, (r: Region) => r.start == PageFloor32(addr) && r.kind == Reserved)
  }

  /** Freeing inside the page of a RESERVED start makes exactly that entry's
      addresses AVAILABLE and leaves no two touching free entries, on any map. */
  lemma DeallocateLaw(s: seq<Region>, addr: u32)
    requires Valid(s) && Freed(s, addr) < |s|
    ensures var r := s[Freed(s, addr)];
            var t := Deallocate(s, addr);
            && Valid(t) && NoneTouching(t) && |t| <= |s| && (Sound(s) ==> Sound(t))
            && Retypes(s, t, r.start, r.end, Available)
  {
    var i := Freed(s, addr);
    var u := Retyped(s, i);
    DeallocateFinds(s, addr, i);
    CoalesceCompact(u);
    MergedFacts(u);
    if Sound(s) { MergedPages(u); }
    forall a ensures TypeAt(Merged(u), a) == if s[i].start <= a < s[i].end then Some(Available) else TypeAt(s, a) {
      MergedTypes(u, a);
      RetypedTypes(s, i, a);
    }
  }

  lemma RetypedTypes(s: seq<Region>, i: nat, a: int)
    requires Valid(s) && i < |s|
    ensures TypeAt(Retyped(s, i), a) == if s[i].start <= a < s[i].end then Some(Available) else TypeAt(s, a)
  {
    var x := s[i].(kind := Available);
    assert Retyped(s, i) == Splice(s, i, [x]);
    SpliceTypes(s, i, [x], a);
    assert TypeAt([x], a) == if x.start <= a < x.end then Some(Available) else TypeAt([x][1..], a);
  }

  function Retyped(s: seq<Region>, i: nat): seq<Region>
    requires i < |s|
  {
    s[i := s[i].(kind := Available)]
  }

  lemma DeallocateFinds(s: seq<Region>, addr: u32, i: nat)
    requires Valid(s) && i < |s| && s[i].start == PageFloor32(addr) && s[i].kind == Reserved
    ensures Deallocate(s, addr) == Compact(Coalesce(Retyped(s, i), 0))
    ensures Valid(Retyped(s, i)) && (Sound(s) ==> Sound(Retyped(s, i)))
  {
    ValidIsStrict(s);
    FirstUnique(s, (r: Region) => r.start >= PageFloor32(addr), i);
  }

  /** When no RESERVED entry starts at the page, nothing is freed; only an
      address above every start lets the joining run. */
  lemma DeallocateMiss(s: seq<Region>, addr: u32)
    requires Valid(s) && Freed(s, addr) == |s|
    ensures Deallocate(s, addr) ==
            if forall i :: 0 <= i < |s| ==> s[i].start < PageFloor32(addr) then Merged(s) else s
  {
    var page := PageFloor32(addr);
    var i := First(s, (r: Region) => r.start >= page);
    if i == |s| {
      CoalesceCompact(s);
    } else if s[i].start == page {
      assert s[i].kind != Reserved;
    }
  }

  /** Allocating as RESERVED and releasing again, on a map without touching free
      entries and for a page count whose byte length is not zero, gives the list
      back exactly when the entry taken starts below 4 GiB: from there on the
      pointer has lost the upper half of the address. */
  lemma RoundTrip(s: seq<Region>, n: u32)
    requires Sound(s) && NoneTouching(s) && n % 0x10_0000 != 0 && Chosen(s, n) < |s|
    ensures var (t, p) := Allocate(s, n, Reserved);
            Deallocate(t, p) == s <==> s[Chosen(s, n)].start < 0x1_0000_0000
  {
    hide *;
    var i, m := Chosen(s, n), n % 0x10_0000;
    AllocateWraps(s, n, Reserved);
    ChosenHasRoom(s, m);
    AllocateCarves(s, m, Reserved);
    LowAddress(s[i].start);
    RoomIsWhole(s, i, m);
    if s[i].start < 0x1_0000_0000 {
      GivesBack(s, i, m);
    } else if s[i].start % 0x1_0000_0000 != 0 {
      FreesElsewhere(s, i, m);
    } else {
      PointerIsNull(s, m, i);
      FreesNothing(s, i, m * 0x1000);
    }
  }

  lemma LowAddress(a: u64)
    ensures a < 0x1_0000_0000 ==> a % 0x1_0000_0000 == a
  {
  }

  lemma RoomIsWhole(s: seq<Region>, i: nat, m: nat)
    requires Sound(s) && i < |s| && HasRoom(s[i], m)
    ensures 0x10_0000 <= s[i].start && s[i].start % 0x1000 == 0
    ensures s[i].start + m * 0x1000 <= 0x10_0000_0000_0000 && Valid(s) && s[i].kind == Available
  {
    assert WholePages(s[i]);
  }

  lemma PointerIsNull(s: seq<Region>, n: u32, i: nat)
    requires Sound(s) && 0 < n < 0x10_0000 && i == Chosen(s, n) && i < |s| && s[i].start % 0x1_0000_0000 == 0
    ensures Allocate(s, n, Reserved) == (CutRaw(s, i, n * 0x1000, Reserved), 0)
  {
    ChosenHasRoom(s, n);
    RoomTest(s[i], n);
  }

  lemma GivesBack(s: seq<Region>, i: nat, m: nat)
    requires Sound(s) && NoneTouching(s) && i < |s| && 0 < m && HasRoom(s[i], m) && s[i].start < 0x1_0000_0000
    ensures Deallocate(Carved(s, i, m, Reserved), s[i].start) == s
  {
    hide TypeAt, Compact, Coalesce, Deallocate, And;
    var t := Carved(s, i, m, Reserved);
    var r := s[i];
    assert WholePages(r);
    CarvedSound(s, i, m, Reserved);
    PagesOn(r.start, m);
    assert t[i] == Cut(r, m, Reserved)[0];
    DeallocateFinds(t, r.start, i);
    CoalesceCompact(Retyped(t, i));
    MergedOfNoneTouching(s);
    Rejoins(s, i, m);
  }

  /** Whatever is freed at the low half of the address, the memory taken is not. */
  lemma FreesElsewhere(s: seq<Region>, i: nat, m: nat)
    requires Sound(s) && i < |s| && 0 < m && HasRoom(s[i], m) && s[i].start >= 0x1_0000_0000
    ensures Deallocate(Carved(s, i, m, Reserved), s[i].start % 0x1_0000_0000) != s
  {
    hide TypeAt, Compact, Coalesce, Deallocate, And, Merged, Carved;
    var t, p := Carved(s, i, m, Reserved), s[i].start % 0x1_0000_0000;
    var x := s[i].start;
    CarvedSound(s, i, m, Reserved);
    CarvedTypes(s, i, m, Reserved, x);
    TypeAtEntry(s, i, x);
    CarvedFirst(s, i, m);
    var f := Freed(t, p);
    if f < |t| {
      assert t[f].start <= p < x;
      EntryBelow(t, f, i);
      DeallocateLaw(t, p);
    } else {
      DeallocateMiss(t, p);
      MergedTypes(t, x);
    }
  }

  lemma EntryBelow(t: seq<Region>, f: nat, i: nat)
    requires Valid(t) && f < |t| && i < |t| && t[f].start < t[i].start
    ensures t[f].end <= t[i].start
  {
  }

  lemma CarvedFirst(s: seq<Region>, i: nat, m: nat)
    requires i < |s| && 0 < m && HasRoom(s[i], m)
    ensures i < |Carved(s, i, m, Reserved)| && Carved(s, i, m, Reserved)[i].start == s[i].start
  {
  }

  lemma {:induction false} AbsorbKeeps(s: seq<Region>, i: nat, j: nat)
    requires i < j <= |s| && s[i].kind == Available
    ensures forall k :: 0 <= k < |s| ==> KeptEntry(s[k], Absorb(s, i, j)[k])
    decreases |s| - j
  {
    if j < |s| && s[j].kind == Available {
      if s[j].Empty() {
        AbsorbKeeps(s, i, j + 1);
      } else if s[i].end == s[j].start {
        var u := Taken(s, i, j);
        AbsorbKeeps(u, i, j + 1);
        assert forall k :: 0 <= k < |s| ==> KeptEntry(s[k], u[k]) && KeptEntry(u[k], Absorb(u, i, j + 1)[k]);
      }
    }
  }

  /** An entry that is not free stays as it is, and one that is stays free. */
  predicate KeptEntry(a: Region, b: Region) {
    a.kind == b.kind && (a.kind != Available ==> a == b)
  }

  lemma {:induction false} CoalesceKeeps(s: seq<Region>, i: nat)
    requires i <= |s|
    ensures forall k :: 0 <= k < |s| ==> KeptEntry(s[k], Coalesce(s, i)[k])
    decreases |s| - i
  {
    if i < |s| {
      if s[i].kind != Available || s[i].Empty() {
        CoalesceKeeps(s, i + 1);
      } else {
        var u := Absorb(s, i, i + 1);
        AbsorbKeeps(s, i, i + 1);
        CoalesceKeeps(u, i + 1);
        assert forall k :: 0 <= k < |s| ==> KeptEntry(s[k], u[k]) && KeptEntry(u[k], Coalesce(u, i + 1)[k]);
      }
    }
  }

  /** With a pointer that became NULL a release frees what starts at address zero,
      or nothing. */
  lemma FreesNothing(s: seq<Region>, i: nat, len: u32)
    requires Valid(s) && i < |s| && s[i].start >= 0x1_0000_0000 && s[i].start + len < 0x1_0000_0000_0000_0000
    requires s[i].kind == Available
    ensures Deallocate(CutRaw(s, i, len, Reserved), 0) != s
  {
    hide And, Compact, Coalesce, Wrap64;
    var t := CutRaw(s, i, len, Reserved);
    CutEnd(s[i].start, len);
    assert |t| == |s| + 1;
    FirstUnique(t, (r: Region) => r.start >= PageFloor32(0), 0);
    if t[0].start == 0 && t[0].kind == Reserved {
      assert i != 0 && t[0] == s[0];
      var u := t[0 := t[0].(kind := Available)];
      var w := Coalesce(u, 0);
      CoalesceKeeps(u, 0);
      forall j | 0 <= j < |w| ensures w[j] != s[0] {
        assert KeptEntry(u[j], w[j]);
        if 0 < j < |s| { assert s[0].end <= s[j].start; }
      }
      AbsentStays(w, s[0]);
    }
  }

  lemma AbsentStays(w: seq<Region>, r: Region)
    requires forall j :: 0 <= j < |w| ==> w[j] != r
    ensures forall j :: 0 <= j < |Compact(w)| ==> Compact(w)[j] != r
  {
    hide Compact;
    forall j | 0 <= j < |Compact(w)| ensures Compact(w)[j] != r { CompactMember(w, j); }
  }

  lemma CutEnd(a: u64, len: u32)
    requires a + len < 0x1_0000_0000_0000_0000
    ensures Wrap64(a + len) == a + len
  {
  }

  lemma Rejoins(s: seq<Region>, i: nat, n: nat)
    requires i < |s| && 0 < n && HasRoom(s[i], n)
    ensures Merged(Retyped(Carved(s, i, n, Reserved), i)) == Merged(s)
  {
    if s[i].start + n * 0x1000 == s[i].end {
      WholeAgain(s, i, n);
    } else {
      PartAgain(s, i, n);
    }
  }

  lemma WholeAgain(s: seq<Region>, i: nat, n: nat)
    requires i < |s| && 0 < n && HasRoom(s[i], n) && s[i].start + n * 0x1000 == s[i].end
    ensures Retyped(Carved(s, i, n, Reserved), i) == s
  {
    assert Cut(s[i], n, Reserved) == [s[i].(kind := Reserved)];
  }

  lemma PartAgain(s: seq<Region>, i: nat, n: nat)
    requires i < |s| && 0 < n && HasRoom(s[i], n) && s[i].start + n * 0x1000 < s[i].end
    ensures Merged(Retyped(Carved(s, i, n, Reserved), i)) == Merged(s)
  {
    var r, pre, post := s[i], s[..i], s[i + 1..];
    var cut: u64 := r.start + n * 0x1000;
    var x, y := r.(end := cut), r.(start := cut);
    assert Cut(r, n, Reserved) == [x.(kind := Reserved), y];
    assert Retyped(Carved(s, i, n, Reserved), i) == pre + ([x, y] + post);
    assert s == pre + ([r] + post);
    JoinFirst(x, y, post);
    MergedPrefix(pre, [x, y] + post, [r] + post);
  }

  lemma {:induction false} MergedPrefix(pre: seq<Region>, a: seq<Region>, b: seq<Region>)
    requires Merged(a) == Merged(b) && a != [] && b != []
    ensures Merged(pre + a) == Merged(pre + b)
  {
    if pre == [] {
      assert pre + a == a && pre + b == b;
    } else {
      MergedPrefix(pre[1..], a, b);
      assert (pre + a)[1..] == pre[1..] + a && (pre + b)[1..] == pre[1..] + b;
    }
  }
}
