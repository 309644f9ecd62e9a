/** Counting free pages: how many allocations are sure to succeed. */
module PageBudget {
  import opened Bits
  import opened Options
  import opened Regions
  import opened RegionOps
  import opened TombstoneSort
  import opened RegionLaws
  import opened Runs

  /** Pages of an entry the allocator may hand out. */
  function Usable(r: Region): nat {
    if r.kind == Available && ONE_MIB <= r.start <= r.end then (r.end - r.start) / 0x1000 else 0
  }

  function FreePages(s: seq<Region>): nat {
    if s == [] then 0 else Usable(s[0]) + FreePages(s[1..])
  }

  lemma {:induction false} FreePagesConcat(a: seq<Region>, b: seq<Region>)
    ensures FreePages(a + b) == FreePages(a) + FreePages(b)
  {
    if a == [] {
      assert a + b == b;
    } else {
      FreePagesConcat(a[1..], b);
      assert (a + b)[1..] == a[1..] + b;
    }
  }

  lemma FreePagesSplice(s: seq<Region>, i: nat, mid: seq<Region>)
    requires i < |s|
    ensures FreePages(Splice(s, i, mid)) == FreePages(s) - Usable(s[i]) + FreePages(mid)
  {
    assert s == s[..i] + ([s[i]] + s[i + 1..]);
    FreePagesConcat(s[..i], [s[i]] + s[i + 1..]);
    FreePagesConcat([s[i]], s[i + 1..]);
    FreePagesConcat(s[..i] + mid, s[i + 1..]);
    FreePagesConcat(s[..i], mid);
  }

  /** A map an allocator run can start from. */
  predicate Ready(s: seq<Region>) {
    Sound(s) && Low(s)
  }

  // ----- on any list -----

  /** Free memory starts at page boundaries. */
  predicate FreeAligned(s: seq<Region>) {
    forall i :: 0 <= i < |s| && s[i].kind == Available ==> s[i].start % 0x1000 == 0
  }

  lemma SoundAligned(s: seq<Region>)
    requires Sound(s)
    ensures FreeAligned(s)
  {
  }

  lemma CompactAligned(s: seq<Region>)
    requires FreeAligned(s)
    ensures FreeAligned(Compact(s))
  {
    hide Compact;
    forall i | 0 <= i < |Compact(s)| && Compact(s)[i].kind == Available ensures Compact(s)[i].start % 0x1000 == 0 {
      CompactMember(s, i);
    }
  }

  lemma AlignedSum(a: u64, n: nat)
    requires a % 0x1000 == 0
    ensures Wrap64(a + n * 0x1000) % 0x1000 == 0 && Wrap32(a) % 0x1000 == 0
  {
    PagesOn(a, n);
    Aligned64(a + n * 0x1000);
    Aligned32(a);
  }

  lemma Aligned64(x: nat)
    requires x % 0x1000 == 0
    ensures Wrap64(x) % 0x1000 == 0
  {
    MultipleOut(0x10_0000_0000_0000 * (x / 0x1_0000_0000_0000_0000), Wrap64(x), 0x1000);
  }

  lemma Aligned32(x: nat)
    requires x % 0x1000 == 0
    ensures Wrap32(x) % 0x1000 == 0
  {
    MultipleOut(0x10_0000 * (x / 0x1_0000_0000), Wrap32(x), 0x1000);
  }

  /** Whatever is asked for, the pointer and the free memory left are aligned. */
  lemma AllocateAligned(s: seq<Region>, n: u32, k: Kind)
    requires FreeAligned(s)
    ensures var (t, p) := Allocate(s, n, k); FreeAligned(t) && p % 0x1000 == 0
  {
    hide Compact;
    var i := Chosen(s, n);
    if n > 0 && i < |s| {
      var m := n % 0x10_0000;
      assert ByteLength(n) == m * 0x1000 by { ZeroLength(n); }
      AlignedSum(s[i].start, m);
      var raw := CutRaw(s, i, ByteLength(n), k);
      assert FreeAligned(raw);
      CompactAligned(raw);
    }
  }

  lemma AllocationGrows(s: seq<Region>, n: u32, k: Kind)
    ensures |Allocate(s, n, k).0| <= |s| + 1
  {
    hide FreeSlot, ByteLength, LooksFree;
  }

  /** The pages asked for lie below 4 GiB from the pointer on. */
  predicate Placed(s: seq<Region>, n: u32, k: Kind) {
    Allocate(s, n, k).1 + n * 0x1000 <= 0x1_0000_0000
  }

  // ----- in low memory -----

  lemma CutPages(r: Region, n: nat, k: Kind)
    requires 0 < n && HasRoom(r, n) && WholePages(r) && k != Available
    ensures FreePages(Cut(r, n, k)) + n == Usable(r)
  {
    var mid := Cut(r, n, k);
    var cut := r.start + n * 0x1000;
    assert mid == [mid[0]] + mid[1..];
    FreePagesConcat([mid[0]], mid[1..]);
    assert (r.end - cut) / 0x1000 + n == (r.end - r.start) / 0x1000 by {
      assert r.end - r.start == (r.end - cut) + n * 0x1000;
    }
    assert cut < r.end ==> mid[1..] == [Region(cut, r.end, Available)] && FreePages(mid[1..]) == Usable(mid[1]);
  }

  lemma CarvedReady(s: seq<Region>, i: nat, n: nat, k: Kind)
    requires Ready(s) && i < |s| && 0 < n && HasRoom(s[i], n) && k != Available
    ensures Ready(Carved(s, i, n, k)) && FreePages(Carved(s, i, n, k)) + n == FreePages(s)
  {
    hide FreePages, Cut, Splice, Usable;
    assert WholePages(s[i]);
    CarvedSound(s, i, n, k);
    CutPages(s[i], n, k);
    FreePagesSplice(s, i, Cut(s[i], n, k));
    CarvedLow(s, i, n, k);
  }

  lemma CarvedLow(s: seq<Region>, i: nat, n: nat, k: Kind)
    requires Low(s) && i < |s| && 0 < n && HasRoom(s[i], n) && k != Available
    ensures Low(Carved(s, i, n, k))
  {
    var t, mid := Carved(s, i, n, k), Cut(s[i], n, k);
    forall j | 0 <= j < |t| && t[j].kind == Available && ONE_MIB <= t[j].start ensures t[j].end <= 0x1_0000_0000 {
      if i <= j < i + |mid| {
        assert t[j] == mid[j - i];
      } else {
        assert t[j] == s[if j < i then j else j - |mid| + 1];
      }
    }
  }

  lemma {:induction false} PageSomewhere(s: seq<Region>) returns (i: nat)
    requires FreePages(s) > 0
    ensures i < |s| && HasRoom(s[i], 1)
  {
    if Usable(s[0]) > 0 {
      i := 0;
    } else {
      var j := PageSomewhere(s[1..]);
      i := j + 1;
    }
  }

  lemma {:induction false} RoomIsUsable(s: seq<Region>, i: nat, n: nat)
    requires i < |s| && HasRoom(s[i], n)
    ensures FreePages(s) >= n
  {
    if i > 0 { RoomIsUsable(s[1..], i - 1, n); }
  }

  /** What a successful grant of n pages at p does to map s. */
  ghost predicate Granted(s: seq<Region>, t: seq<Region>, p: int, n: nat, k: Kind) {
    && Ready(t) && |t| <= |s| + 1 && FreePages(t) + n == FreePages(s)
    && p % 0x1000 == 0 && ONE_MIB <= p && p + n * 0x1000 <= 0x1_0000_0000
    && Retypes(s, t, p, p + n * 0x1000, k)
    && forall a :: p <= a < p + n * 0x1000 ==> TypeAt(s, a) == Some(Available)
  }

  /** In low memory an allocation either grants its pages or leaves the map
      alone, and a single page is granted exactly while a free page is left. */
  lemma GrantLaw(s: seq<Region>, n: u32, k: Kind)
    requires Ready(s) && 0 < n < 0x10_0000 && k != Available
    ensures var (t, p) := Allocate(s, n, k);
            && (if p == 0 then t == s else Granted(s, t, p, n, k))
            && (n == 1 ==> (p == 0 <==> FreePages(s) == 0))
  {
    ChosenHasRoom(s, n);
    var i := Chosen(s, n);
    if i < |s| {
      assert HasRoom(s[i], n) && WholePages(s[i]);
      RoomIsUsable(s, i, n);
      AllocateCarves(s, n, k);
      CarvedReady(s, i, n, k);
      CarvedGrants(s, i, n, k);
    } else if n == 1 && FreePages(s) > 0 {
      var j := PageSomewhere(s);
      ChosenIsLowest(s, n, j);
    }
  }

  lemma ReadyPlaces(s: seq<Region>, n: u32, k: Kind)
    requires Ready(s) && n < 0x10_0000 && k != Available
    ensures Placed(s, n, k) && FreeAligned(s)
  {
    SoundAligned(s);
    if n > 0 { GrantLaw(s, n, k); }
  }

  lemma CarvedGrants(s: seq<Region>, i: nat, n: nat, k: Kind)
    requires Ready(s) && i < |s| && 0 < n && HasRoom(s[i], n) && k != Available
    ensures Retypes(s, Carved(s, i, n, k), s[i].start, s[i].start + n * 0x1000, k)
    ensures forall a :: s[i].start <= a < s[i].start + n * 0x1000 ==> TypeAt(s, a) == Some(Available)
    ensures |Carved(s, i, n, k)| <= |s| + 1
  {
    CarvedSound(s, i, n, k);
    forall a ensures TypeAt(Carved(s, i, n, k), a) ==
                     if s[i].start <= a < s[i].start + n * 0x1000 then Some(k) else TypeAt(s, a) {
      CarvedTypes(s, i, n, k, a);
    }
    forall a | s[i].start <= a < s[i].start + n * 0x1000 ensures TypeAt(s, a) == Some(Available) {
      TypeAtEntry(s, i, a);
    }
  }
}
