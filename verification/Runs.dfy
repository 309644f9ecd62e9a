/** Whole runs of the region allocator: what stays true at every step, how many
    array slots a run can need, and that no two grants ever overlap. */
module Runs {
  import opened Bits
  import opened Options
  import opened Regions
  import opened RegionOps
  import opened RegionLaws
  import opened RegionEdges
  import opened Release

  datatype Op =
    | DoAdd(kind: Kind, start: u64, end: u64)
    | DoReserve(from: u32, to: u32)
    | DoAllocate(pages: u32, as_kind: Kind)
    | DoFree(addr: u32)

  function Step(s: seq<Region>, op: Op): seq<Region> {
    match op
    case DoAdd(k, a, b) => Add(s, k, a, b)
    case DoReserve(a, b) => Reserve(s, a, b)
    case DoAllocate(n, k) => Allocate(s, n, k).0
    case DoFree(p) => Deallocate(s, p)
  }

  /** When a call leaves the array in order; `LegalExactly` shows that this is
      just what a caller has to see to. */
  predicate Legal(s: seq<Region>, op: Op) {
    match op
    case DoAdd(k, a, b) =>
      var r := Rounded(k, a, b);
      if r.start < r.end then Clear(s, r) && (Paged(k) ==> r.end <= 0x10_0000_0000_0000)
      else r.start == r.end && NothingAbove(s, r.start)
    case DoReserve(a, b) =>
      var from, to := PageFloor32(a), PageCeil32(b);
      Container(s, from, to) < |s| ==> from < to || (from == to && NothingAbove(s, from))
    case DoAllocate(n, k) =>
      n > 0 && Chosen(s, n) < |s| ==>
        var start := s[Chosen(s, n)].start;
        start % 0x1_0000_0000 != 0 && (ByteLength(n) == 0 ==> NothingAbove(s, start))
    case DoFree(p) => true
  }

  /** Array slots the call may use on top of the count before it. */
  function Slots(op: Op): nat {
    match op
    case DoAdd(_, _, _) => 1
    case DoReserve(_, _) => 2
    case DoAllocate(_, _) => 1
    case DoFree(_) => 0
  }

  lemma StepKeeps(s: seq<Region>, op: Op)
    requires Sound(s) && Legal(s, op)
    ensures Sound(Step(s, op)) && |Step(s, op)| <= |s| + Slots(op)
  {
    match op
    case DoAdd(k, a, b) => AddKeeps(s, k, a, b);
    case DoReserve(a, b) => ReserveKeeps(s, a, b);
    case DoAllocate(n, k) => AllocateKeeps(s, n, k);
    case DoFree(p) => FreeKeeps(s, p);
  }

  /** No caller has less to see to: any other call leaves the array out of order. */
  lemma LegalExactly(s: seq<Region>, op: Op)
    requires Sound(s)
    ensures Sound(Step(s, op)) <==> Legal(s, op)
  {
    if Legal(s, op) {
      StepKeeps(s, op);
    } else {
      match op
      case DoAdd(k, a, b) => AddSpoils(s, k, a, b);
      case DoReserve(a, b) => ReserveAlways(s, a, b);
      case DoAllocate(n, k) =>
        AllocateAlways(s, n, k);
        ZeroLength(n);
    }
  }

  lemma ZeroLength(n: u32)
    ensures ByteLength(n) == n % 0x10_0000 * 0x1000
    ensures ByteLength(n) == 0 <==> n % 0x10_0000 == 0
  {
  }

  lemma AddKeeps(s: seq<Region>, k: Kind, a: u64, b: u64)
    requires Sound(s) && Legal(s, DoAdd(k, a, b))
    ensures Sound(Add(s, k, a, b)) && |Add(s, k, a, b)| <= |s| + 1
  {
    hide And, TypeAt;
    var r := Rounded(k, a, b);
    AddAlways(s, k, a, b);
    if r.start < r.end {
      AddLaw(s, k, a, b);
      RoundedMeans(k, a, b);
      InsertedSound(s, r);
    }
  }

  /** A map the add leaves holds the new entry: free and reserved memory above
      the 52-bit address space shows. */
  lemma AddSpoils(s: seq<Region>, k: Kind, a: u64, b: u64)
    requires Sound(s) && !Legal(s, DoAdd(k, a, b))
    ensures !Sound(Add(s, k, a, b))
  {
    hide And, TypeAt, Add;
    var r := Rounded(k, a, b);
    AddAlways(s, k, a, b);
    if r.start < r.end && Clear(s, r) {
      AddLaw(s, k, a, b);
      var t, i := Inserted(s, r), Place(s, r.start);
      assert t[i] == r && Paged(r.kind) && !WholePages(r);
    }
  }

  lemma ReserveKeeps(s: seq<Region>, a: u32, b: u32)
    requires Sound(s) && Legal(s, DoReserve(a, b))
    ensures Sound(Reserve(s, a, b)) && |Reserve(s, a, b)| <= |s| + 2
  {
    hide And, TypeAt, Reserve;
    ReserveAlways(s, a, b);
  }

  lemma AllocateKeeps(s: seq<Region>, n: u32, k: Kind)
    requires Sound(s) && Legal(s, DoAllocate(n, k))
    ensures Sound(Allocate(s, n, k).0) && |Allocate(s, n, k).0| <= |s| + 1
  {
    hide TypeAt;
    if n > 0 {
      AllocateAlways(s, n, k);
      ZeroLength(n);
    }
  }

  lemma FreeKeeps(s: seq<Region>, p: u32)
    requires Sound(s)
    ensures Sound(Deallocate(s, p)) && |Deallocate(s, p)| <= |s|
  {
    if Freed(s, p) < |s| {
      DeallocateLaw(s, p);
    } else {
      DeallocateMiss(s, p);
      MergedPages(s);
      MergedFacts(s);
    }
  }

  lemma InsertedSound(s: seq<Region>, r: Region)
    requires Sound(s) && Valid(Inserted(s, r)) && (Paged(r.kind) ==> WholePages(r))
    ensures Sound(Inserted(s, r))
  {
    var i, t := Place(s, r.start), Inserted(s, r);
    forall k | 0 <= k < |t| && Paged(t[k].kind) ensures WholePages(t[k]) {
      assert k != i ==> t[k] == s[if k < i then k else k - 1];
    }
  }

  /** A run: the list before each call, and after the last one. */
  predicate Run(states: seq<seq<Region>>, ops: seq<Op>) {
    && |states| == |ops| + 1
    && Sound(states[0])
    && forall i :: 0 <= i < |ops| ==> Legal(states[i], ops[i]) && states[i + 1] == Step(states[i], ops[i])
  }

  function TotalSlots(ops: seq<Op>): nat {
    if ops == [] then 0 else TotalSlots(ops[..|ops| - 1]) + Slots(ops[|ops| - 1])
  }

  /** Over every run the array stays ordered, disjoint and free of tombstones,
      and the slots bound what it grows by. */
  lemma {:induction false} RunKeepsSound(states: seq<seq<Region>>, ops: seq<Op>, i: nat)
    requires Run(states, ops) && i <= |ops|
    ensures Sound(states[i]) && |states[i]| <= |states[0]| + TotalSlots(ops[..i])
  {
    if i > 0 {
      RunKeepsSound(states, ops, i - 1);
      StepKeeps(states[i - 1], ops[i - 1]);
      assert ops[..i][..i - 1] == ops[..i - 1];
    }
  }

  /** So a run from power-on whose adds, allocations and doubled reservations
      number at most 1024 never reaches past the end of `memory_regions`. */
  lemma SlotsSuffice(states: seq<seq<Region>>, ops: seq<Op>, i: nat)
    requires Run(states, ops) && states[0] == [] && TotalSlots(ops) <= 1024 && i < |ops|
    ensures |states[i]| + Slots(ops[i]) <= 1024
  {
    RunKeepsSound(states, ops, i);
    assert ops[..i + 1][..i] == ops[..i];
    SlotsGrow(ops, i + 1);
  }

  lemma {:induction false} SlotsGrow(ops: seq<Op>, i: nat)
    requires i <= |ops|
    ensures TotalSlots(ops[..i]) <= TotalSlots(ops)
  {
    if i == |ops| {
      assert ops[..i] == ops;
    } else {
      SlotsGrow(ops[..|ops| - 1], i);
      assert ops[..|ops| - 1][..i] == ops[..i];
    }
  }

  // ----- grants -----

  datatype Range = Range(lo: int, hi: int)

  /** The addresses a call takes out of free memory. */
  function Grant(s: seq<Region>, op: Op): Option<Range> {
    match op
    case DoReserve(a, b) =>
      var from, to := PageFloor32(a), PageCeil32(b);
      if Container(s, from, to) < |s| then Some(Range(from, to)) else None
    case DoAllocate(n, k) =>
      if Allocate(s, n, k).1 == 0 then None else
        var start := s[Chosen(s, n)].start;
        Some(Range(start, start + ByteLength(n)))
    case _ => None
  }

  /** The addresses the caller believes to have: whole pages around what it
      reserved, or the pages it asked for from the pointer on. */
  function Returned(s: seq<Region>, op: Op): Option<Range> {
    match op
    case DoAllocate(n, k) =>
      var p := Allocate(s, n, k).1;
      if p == 0 then None else Some(Range(p, p + n * 0x1000))
    case _ => Grant(s, op)
  }

  ghost predicate AllFree(s: seq<Region>, g: Range) {
    forall a :: g.lo <= a < g.hi ==> TypeAt(s, a) == Some(Available)
  }

  ghost predicate NoneFree(s: seq<Region>, g: Range) {
    forall a :: g.lo <= a < g.hi ==> TakenAt(s, a)
  }

  predicate Taking(op: Op) {
    !op.DoFree? && (op.DoAllocate? ==> op.as_kind != Available)
  }

  /** The caller gets what was taken exactly when the byte length did not wrap
      and the entry starts below 4 GiB. */
  lemma ReturnedExactly(s: seq<Region>, op: Op)
    requires Sound(s) && op.DoAllocate? && Grant(s, op).Some?
    ensures Returned(s, op).Some?
    ensures Returned(s, op) == Grant(s, op) <==> op.pages < 0x10_0000 && Grant(s, op).value.lo < 0x1_0000_0000
  {
    AllocateAlways(s, op.pages, op.as_kind);
    ZeroLength(op.pages);
  }

  lemma EntryFree(s: seq<Region>, i: nat, g: Range)
    requires Valid(s) && i < |s| && s[i].kind == Available && s[i].start <= g.lo && g.hi <= s[i].end
    ensures AllFree(s, g)
  {
    forall a | g.lo <= a < g.hi ensures TypeAt(s, a) == Some(Available) { TypeAtEntry(s, i, a); }
  }

  lemma RetypedTaken(s: seq<Region>, t: seq<Region>, g: Range, k: Kind)
    requires Retypes(s, t, g.lo, g.hi, k) && k != Available
    ensures NoneFree(t, g)
  {
  }

  /** A grant was free before the call and is not after it. */
  lemma GrantTakes(s: seq<Region>, op: Op)
    requires Sound(s) && Legal(s, op) && Taking(op) && Grant(s, op).Some?
    ensures AllFree(s, Grant(s, op).value) && NoneFree(Step(s, op), Grant(s, op).value)
  {
    hide TypeAt, AllFree, NoneFree, Retypes, And;
    var g := Grant(s, op).value;
    if op.DoReserve? {
      ReserveAlways(s, op.from, op.to);
      EntryFree(s, Container(s, g.lo, g.hi), g);
      RetypedTaken(s, Step(s, op), g, Allocated);
    } else {
      AllocateAlways(s, op.pages, op.as_kind);
      ZeroLength(op.pages);
      EntryFree(s, Chosen(s, op.pages), g);
      RetypedTaken(s, Step(s, op), g, op.as_kind);
    }
  }

  predicate TakenAt(s: seq<Region>, x: int) {
    TypeAt(s, x).Some? && TypeAt(s, x) != Some(Available)
  }

  lemma StepKeepsTaken(s: seq<Region>, op: Op, g: Range)
    requires Sound(s) && Legal(s, op) && Taking(op) && NoneFree(s, g)
    ensures NoneFree(Step(s, op), g)
  {
    var t := Step(s, op);
    forall x | g.lo <= x < g.hi ensures TakenAt(t, x) {
      StepKeepsTakenAt(s, op, x);
    }
  }

  lemma StepKeepsTakenAt(s: seq<Region>, op: Op, x: int)
    requires Sound(s) && Legal(s, op) && Taking(op) && TakenAt(s, x)
    ensures TakenAt(Step(s, op), x)
  {
    match op
    case DoAdd(k, a, b) => AddKeepsTaken(s, k, a, b, x);
    case DoReserve(a, b) => ReserveKeepsTaken(s, a, b, x);
    case DoAllocate(n, k) => AllocateKeepsTaken(s, n, k, x);
  }

  lemma AddKeepsTaken(s: seq<Region>, k: Kind, a: u64, b: u64, x: int)
    requires Sound(s) && Legal(s, DoAdd(k, a, b)) && TakenAt(s, x)
    ensures TakenAt(Add(s, k, a, b), x)
  {
    hide And, Add;
    AddAlways(s, k, a, b);
    AddKeeps(s, k, a, b);
    var i := TypeAtWitness(s, x);
    var r := Rounded(k, a, b);
    if r.start < r.end { assert s[i].end <= r.start || r.end <= s[i].start; }
  }

  lemma ReserveKeepsTaken(s: seq<Region>, a: u32, b: u32, x: int)
    requires Sound(s) && Legal(s, DoReserve(a, b)) && TakenAt(s, x)
    ensures TakenAt(Reserve(s, a, b), x)
  {
    hide And, Reserve;
    ReserveAlways(s, a, b);
  }

  lemma AllocateKeepsTaken(s: seq<Region>, n: u32, k: Kind, x: int)
    requires Sound(s) && Legal(s, DoAllocate(n, k)) && k != Available && TakenAt(s, x)
    ensures TakenAt(Allocate(s, n, k).0, x)
  {
    if n > 0 {
      AllocateAlways(s, n, k);
      ZeroLength(n);
    }
  }

  lemma {:induction false} RunKeepsTaken(states: seq<seq<Region>>, ops: seq<Op>, i: nat, j: nat, g: Range)
    requires Run(states, ops) && i <= j <= |ops| && NoneFree(states[i], g)
    requires forall k :: i <= k < j ==> Taking(ops[k])
    ensures NoneFree(states[j], g)
  {
    if i < j {
      RunKeepsTaken(states, ops, i, j - 1, g);
      RunKeepsSound(states, ops, j - 1);
      StepKeepsTaken(states[j - 1], ops[j - 1], g);
    }
  }

  predicate Apart(g: Range, h: Range) {
    g.hi <= h.lo || h.hi <= g.lo || h.lo >= h.hi || g.lo >= g.hi
  }

  /** As long as nothing is freed, whatever is taken out of free memory is
      disjoint from whatever is taken after it. */
  lemma GrantsDisjoint(states: seq<seq<Region>>, ops: seq<Op>, i: nat, j: nat)
    requires Run(states, ops) && i < j < |ops|
    requires forall k :: i <= k <= j ==> Taking(ops[k])
    requires Grant(states[i], ops[i]).Some? && Grant(states[j], ops[j]).Some?
    ensures Apart(Grant(states[i], ops[i]).value, Grant(states[j], ops[j]).value)
  {
    var g, h := Grant(states[i], ops[i]).value, Grant(states[j], ops[j]).value;
    RunKeepsSound(states, ops, i);
    RunKeepsSound(states, ops, j);
    GrantTakes(states[i], ops[i]);
    GrantTakes(states[j], ops[j]);
    RunKeepsTaken(states, ops, i + 1, j, g);
    Disjoint(states[j], g, h);
  }

  lemma Disjoint(u: seq<Region>, g: Range, h: Range)
    requires NoneFree(u, g) && AllFree(u, h)
    ensures Apart(g, h)
  {
    var a := if g.lo < h.lo then h.lo else g.lo;
    assert g.lo <= a < g.hi ==> TakenAt(u, a);
  }

  // ----- what the callers are given -----

  /** The caller of an allocation is given the memory that was taken. */
  predicate Truthful(s: seq<Region>, op: Op) {
    op.DoAllocate? && Grant(s, op).Some? ==> op.pages < 0x10_0000 && Grant(s, op).value.lo < 0x1_0000_0000
  }

  /** Separation over a run: as long as nothing is freed, what two calls give
      their callers is disjoint, if the page counts did not wrap and the entries
      start below 4 GiB. `SamePointerTwice` shows that without that it need not be. */
  lemma ReturnsDisjoint(states: seq<seq<Region>>, ops: seq<Op>, i: nat, j: nat)
    requires Run(states, ops) && i < j < |ops|
    requires forall k :: i <= k <= j ==> Taking(ops[k])
    requires Returned(states[i], ops[i]).Some? && Returned(states[j], ops[j]).Some?
    requires Truthful(states[i], ops[i]) && Truthful(states[j], ops[j])
    ensures Apart(Returned(states[i], ops[i]).value, Returned(states[j], ops[j]).value)
  {
    RunKeepsSound(states, ops, i);
    RunKeepsSound(states, ops, j);
    if ops[i].DoAllocate? { ReturnedExactly(states[i], ops[i]); }
    if ops[j].DoAllocate? { ReturnedExactly(states[j], ops[j]); }
    GrantsDisjoint(states, ops, i, j);
  }

  /** All free memory from 1 MiB on ends by 4 GiB. */
  predicate Low(s: seq<Region>) {
    forall i :: 0 <= i < |s| && s[i].kind == Available && ONE_MIB <= s[i].start ==> s[i].end <= 0x1_0000_0000
  }

  lemma LowIsTruthful(s: seq<Region>, op: Op)
    requires Sound(s) && Low(s) && (op.DoAllocate? ==> op.pages < 0x10_0000)
    ensures Truthful(s, op)
  {
    if op.DoAllocate? && Grant(s, op).Some? {
      AllocateAlways(s, op.pages, op.as_kind);
      var r := s[Chosen(s, op.pages)];
      assert r.start < r.end;
    }
  }

  /** Lowness in terms of addresses. */
  ghost predicate LowFree(s: seq<Region>) {
    forall a: int :: a >= 0x1_0000_0000 ==> TypeAt(s, a) != Some(Available)
  }

  lemma LowByTypes(s: seq<Region>)
    requires Valid(s) && LowFree(s)
    ensures Low(s)
  {
    forall i | 0 <= i < |s| && s[i].kind == Available ensures s[i].end <= 0x1_0000_0000 {
      if s[i].end > 0x1_0000_0000 {
        var a := if s[i].start < 0x1_0000_0000 then 0x1_0000_0000 else s[i].start;
        TypeAtEntry(s, i, a);
      }
    }
  }

  /** Adds that keep free memory below 4 GiB, and anything but a free. */
  predicate LowOp(op: Op) {
    Taking(op) && (op.DoAdd? && op.kind == Available ==> Rounded(op.kind, op.start, op.end).end <= 0x1_0000_0000)
  }

  lemma StepKeepsLow(s: seq<Region>, op: Op)
    requires Sound(s) && Legal(s, op) && LowOp(op) && LowFree(s)
    ensures LowFree(Step(s, op))
  {
    hide And, Add, Reserve, Allocate;
    match op
    case DoAdd(k, a, b) =>
      AddAlways(s, k, a, b);
      AddKeeps(s, k, a, b);
    case DoReserve(a, b) => ReserveAlways(s, a, b);
    case DoAllocate(n, k) => AllocateKeepsLow(s, n, k);
  }

  lemma AllocateKeepsLow(s: seq<Region>, n: u32, k: Kind)
    requires Sound(s) && Legal(s, DoAllocate(n, k)) && k != Available && LowFree(s)
    ensures LowFree(Allocate(s, n, k).0)
  {
    if n > 0 {
      AllocateAlways(s, n, k);
      ZeroLength(n);
    }
  }

  lemma {:induction false} RunKeepsLow(states: seq<seq<Region>>, ops: seq<Op>, i: nat)
    requires Run(states, ops) && i <= |ops| && LowFree(states[0]) && forall k :: 0 <= k < i ==> LowOp(ops[k])
    ensures LowFree(states[i])
  {
    if i > 0 {
      RunKeepsLow(states, ops, i - 1);
      RunKeepsSound(states, ops, i - 1);
      StepKeepsLow(states[i - 1], ops[i - 1]);
    }
  }

  /** A page count the 32-bit byte length can express. */
  predicate Modest(op: Op) { op.DoAllocate? ==> op.pages < 0x10_0000 }

  /** With no free memory above 4 GiB at the start, as at power-on, and none
      reported there: all callers are given disjoint memory. */
  lemma LowRunDisjoint(states: seq<seq<Region>>, ops: seq<Op>, i: nat, j: nat)
    requires Run(states, ops) && LowFree(states[0]) && i < j < |ops|
    requires forall k :: 0 <= k <= j ==> LowOp(ops[k]) && Modest(ops[k])
    requires Returned(states[i], ops[i]).Some? && Returned(states[j], ops[j]).Some?
    ensures Apart(Returned(states[i], ops[i]).value, Returned(states[j], ops[j]).value)
  {
    hide Returned, Apart, Legal, Step, LowFree, Low;
    RunKeepsLow(states, ops, i);
    RunKeepsLow(states, ops, j);
    RunKeepsSound(states, ops, i);
    RunKeepsSound(states, ops, j);
    LowByTypes(states[i]);
    LowByTypes(states[j]);
    LowIsTruthful(states[i], ops[i]);
    LowIsTruthful(states[j], ops[j]);
    ReturnsDisjoint(states, ops, i, j);
  }

  // ----- two callers, one pointer -----

  function HighBank(): seq<Region> {
    [Region(0x10_0000, 0x20_0000, Available), Region(0x1_0010_0000, 0x1_0100_0000, Available)]
  }

  lemma ChosenAt(s: seq<Region>, n: u32, i: nat)
    requires Sound(s) && 0 < n < 0x10_0000 && i < |s| && HasRoom(s[i], n)
    requires forall j :: 0 <= j < i ==> !HasRoom(s[j], n)
    ensures Chosen(s, n) == i && Allocate(s, n, Allocated).1 == s[i].start % 0x1_0000_0000
  {
    ChosenHasRoom(s, n);
    AllocateAlways(s, n, Allocated);
  }

  /** Free memory on both sides of 4 GiB: two allocations that are both still
      live are handed the same pointer. */
  lemma SamePointerTwice()
    ensures var s := HighBank();
            var (t, p) := Allocate(s, 0x200, Allocated);
            && Sound(s) && Legal(s, DoAllocate(0x200, Allocated)) && Legal(t, DoAllocate(1, Allocated))
            && p == 0x10_0000 && Allocate(t, 1, Allocated).1 == p
  {
    hide Allocate, Carved, Chosen, FreeSlot;
    var s := HighBank();
    assert Sound(s);
    ChosenAt(s, 0x200, 1);
    AllocateCarves(s, 0x200, Allocated);
    var t := Carved(s, 1, 0x200, Allocated);
    CarvedSound(s, 1, 0x200, Allocated);
    FirstStays(s, 0x200);
    ChosenAt(t, 1, 0);
  }

  lemma FirstStays(s: seq<Region>, n: nat)
    requires |s| == 2 && 0 < n && HasRoom(s[1], n)
    ensures Carved(s, 1, n, Allocated) != [] && Carved(s, 1, n, Allocated)[0] == s[0]
  {
  }
}
