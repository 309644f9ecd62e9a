/** What Kickstart's allocator guarantees of the map it hands to the kernel:
    free and allocated entries cover whole pages, so the kernel's two layout
    loops agree (Kernel/Arch/x86_64/memory-manager.c:141-142). */
module Handoff {
  import opened Bits
  import opened Regions
  import opened RegionOps
  import opened RegionLaws
  import opened RegionEdges
  import opened TombstoneSort
  import opened Release
  import opened Runs
  import opened Physmap

  predicate Fine(r: Region) {
    && r.end <= 0x10_0000_0000_0000
    && (Combinable(r.kind) ==> r.start % 0x1000 == 0 && r.end % 0x1000 == 0)
  }

  predicate Handed(s: seq<Region>) {
    Sound(s) && forall i :: 0 <= i < |s| ==> Fine(s[i])
  }

  /** Firmware reports nothing as already allocated, and nothing above 2^52. */
  predicate Reported(op: Op) {
    op.DoAdd? ==> op.kind != Allocated && Rounded(op.kind, op.start, op.end).end <= 0x10_0000_0000_0000
  }

  lemma SpliceFine(s: seq<Region>, i: nat, mid: seq<Region>)
    requires i < |s| && forall k :: 0 <= k < |s| ==> Fine(s[k])
    requires forall k :: 0 <= k < |mid| ==> Fine(mid[k])
    ensures forall k :: 0 <= k < |Splice(s, i, mid)| ==> Fine(Splice(s, i, mid)[k])
  {
    var t := Splice(s, i, mid);
    forall k | 0 <= k < |t| ensures Fine(t[k]) {
      assert t[k] == if k < i then s[k] else if k < i + |mid| then mid[k - i] else s[k - |mid| + 1];
    }
  }

  lemma InsertFine(s: seq<Region>, r: Region)
    requires Fine(r) && forall k :: 0 <= k < |s| ==> Fine(s[k])
    ensures forall k :: 0 <= k < |Inserted(s, r)| ==> Fine(Inserted(s, r)[k])
  {
    var i, t := Place(s, r.start), Inserted(s, r);
    forall k | 0 <= k < |t| ensures Fine(t[k]) {
      assert t[k] == if k < i then s[k] else if k == i then r else s[k - 1];
    }
  }

  lemma {:induction false} MergeFine(s: seq<Region>)
    requires forall k :: 0 <= k < |s| ==> Fine(s[k])
    ensures forall k :: 0 <= k < |Merged(s)| ==> Fine(Merged(s)[k])
  {
    if s != [] {
      assert forall k :: 0 <= k < |s[1..]| ==> s[1..][k] == s[k + 1];
      MergeFine(s[1..]);
      var r, m := Merged(s[1..]), Merged(s);
      forall k | 0 <= k < |m| ensures Fine(m[k]) {
        if |m| == |r| { assert Fine(r[k]); } else if k > 0 { assert Fine(r[k - 1]); }
        if k == 0 { assert Fine(s[0]); }
      }
    }
  }

  lemma AddHands(s: seq<Region>, k: Kind, a: u64, b: u64)
    requires Handed(s) && Legal(s, DoAdd(k, a, b)) && Reported(DoAdd(k, a, b))
    ensures Handed(Add(s, k, a, b))
  {
    hide TypeAt, And;
    var r := Rounded(k, a, b);
    AddKeeps(s, k, a, b);
    AddAlways(s, k, a, b);
    if r.start < r.end {
      AddLaw(s, k, a, b);
      RoundedMeans(k, a, b);
      InsertFine(s, r);
    }
  }

  lemma ReserveHands(s: seq<Region>, a: u32, b: u32)
    requires Handed(s) && Legal(s, DoReserve(a, b))
    ensures Handed(Reserve(s, a, b))
  {
    hide TypeAt, And, Compact;
    ReserveKeeps(s, a, b);
    var from, to := PageFloor32(a), PageCeil32(b);
    var i := Container(s, from, to);
    WholeBounds(a, b);
    if i < |s| {
      if from < to {
        ReserveSplits(s, i, from, to);
        InsideFine(s[i], from, to);
        SpliceFine(s, i, Inside(s[i], from, to));
      } else {
        ReserveNothing(s, i, from);
        if s[i].start < from < s[i].end {
          HalvesFine(s[i], from);
          SpliceFine(s, i, Halves(s[i], from));
        }
      }
    }
  }

  lemma HalvesFine(r: Region, from: u64)
    requires Fine(r) && r.start < from < r.end && from % 0x1000 == 0
    ensures forall k :: 0 <= k < |Halves(r, from)| ==> Fine(Halves(r, from)[k])
  {
  }

  lemma InsideFine(r: Region, from: u64, to: u64)
    requires Fine(r) && Holds(r, from, to) && from < to && from % 0x1000 == 0 && to % 0x1000 == 0
    ensures forall k :: 0 <= k < |Inside(r, from, to)| ==> Fine(Inside(r, from, to)[k])
  {
  }

  lemma AllocateHands(s: seq<Region>, n: u32, k: Kind)
    requires Handed(s) && Legal(s, DoAllocate(n, k))
    ensures Handed(Allocate(s, n, k).0)
  {
    hide TypeAt;
    AllocateKeeps(s, n, k);
    var m := n % 0x10_0000;
    ZeroLength(n);
    if m > 0 {
      AllocateWraps(s, n, k);
      AllocateCarves(s, m, k);
      var i := Chosen(s, m);
      if i < |s| {
        CutFine(s[i], m, k);
        SpliceFine(s, i, Cut(s[i], m, k));
      }
    } else if n > 0 {
      AllocateNothing(s, n, k);
    }
  }

  lemma CutFine(r: Region, n: nat, k: Kind)
    requires Fine(r) && HasRoom(r, n) && 0 < n
    ensures forall j :: 0 <= j < |Cut(r, n, k)| ==> Fine(Cut(r, n, k)[j])
  {
    PagesOn(r.start, n);
  }

  lemma RetypedFine(s: seq<Region>, i: nat)
    requires i < |s| && WholePages(s[i]) && forall k :: 0 <= k < |s| ==> Fine(s[k])
    ensures forall k :: 0 <= k < |Retyped(s, i)| ==> Fine(Retyped(s, i)[k])
  {
  }

  lemma FreeHands(s: seq<Region>, p: u32)
    requires Handed(s)
    ensures Handed(Deallocate(s, p))
  {
    hide TypeAt, Deallocate, Merged, Fine;
    FreeKeeps(s, p);
    if Freed(s, p) < |s| {
      assert s[Freed(s, p)].kind == Reserved;
      DeallocateIsMerged(s, p);
      RetypedFine(s, Freed(s, p));
      MergeFine(Retyped(s, Freed(s, p)));
    } else {
      DeallocateMiss(s, p);
      MergeFine(s);
    }
  }

  lemma DeallocateIsMerged(s: seq<Region>, addr: u32)
    requires Valid(s) && Freed(s, addr) < |s|
    ensures Deallocate(s, addr) == Merged(Retyped(s, Freed(s, addr)))
  {
    DeallocateFinds(s, addr, Freed(s, addr));
    CoalesceCompact(Retyped(s, Freed(s, addr)));
  }

  lemma StepHands(s: seq<Region>, op: Op)
    requires Handed(s) && Legal(s, op) && Reported(op)
    ensures Handed(Step(s, op))
  {
    hide Add, Reserve, Allocate, Deallocate, Legal, Handed, Reported;
    match op
    case DoAdd(k, a, b) => AddHands(s, k, a, b);
    case DoReserve(a, b) => ReserveHands(s, a, b);
    case DoAllocate(n, k) => AllocateHands(s, n, k);
    case DoFree(p) => FreeHands(s, p);
  }

  lemma {:induction false} RunHands(states: seq<seq<Region>>, ops: seq<Op>, i: nat)
    requires Run(states, ops) && states[0] == [] && i <= |ops|
    requires forall k :: 0 <= k < |ops| ==> Reported(ops[k])
    ensures Handed(states[i])
  {
    if i > 0 {
      RunHands(states, ops, i - 1);
      StepHands(states[i - 1], ops[i - 1]);
    }
  }

  /** Whatever Kickstart did before, the kernel's bitmaps for the map it leaves
      behind take exactly the bytes counted for them, and each bitmap and each
      record has its own place in the pages set aside. */
  lemma HandoffFits(states: seq<seq<Region>>, ops: seq<Op>, base: nat, i: nat, j: nat)
    requires Run(states, ops) && states[0] == [] && forall k :: 0 <= k < |ops| ==> Reported(ops[k])
    requires i <= j < |Records(states[|ops|], 0, base)|
    ensures var s := states[|ops|];
            var r := Records(s, 0, base);
            && Tidy(r) && Used(r) == ByteCount(s)
            && (r[i].bitmap.Some? ==>
                  && base <= r[i].bitmap.value
                  && r[i].bitmap.value + BytesFor(r[i].len) <= base + BitmapPages(s) * 0x1000
                  && 0x8000 * (BytesFor(r[i].len) - 1) < r[i].len <= 0x8000 * BytesFor(r[i].len))
            && (i < j && r[i].bitmap.Some? && r[j].bitmap.Some? ==>
                  r[i].bitmap.value + BytesFor(r[i].len) <= r[j].bitmap.value)
            && base + BitmapPages(s) * 0x1000 + (j + 1) * 32 <= base + ManagerPages(s) * 0x1000
            && (ManagerPages(s) - 2) * 4096 <= Used(r) + 32 * |r| < ManagerPages(s) * 4096
  {
    hide Records, Tidy, Used, ByteCount, BitmapPages, ManagerPages, BytesFor, Reported;
    RunHands(states, ops, |ops|);
    var s := states[|ops|];
    HandedIs(s);
    RecordsTidy(s, 0, base);
    LayoutFits(s, base, i, j);
    PagesExactly(s, base);
  }

  lemma HandedIs(s: seq<Region>)
    requires Handed(s)
    ensures Physical(s) && PageAligned(s)
  {
  }
}
