/** `pmm_sort_regions`: a bubble sort that sweeps zero-length entries to the end
    and then cuts them off by count (Kickstart/Multiboot/pmm.c:279-319).

    The sort compares starts without asking whether the right neighbour is a
    tombstone, so it is not always right. This module finds out exactly when. */
module TombstoneSort {
  import opened Regions

  /** The inner loop's swap test for neighbours c, x. */
  predicate Overtakes(c: Region, x: Region) {
    c.Empty() || c.start > x.start
  }

  /** One sweep over s; its last element is the one the sweep has carried along. */
  function Pass(s: seq<Region>): (r: seq<Region>)
    ensures |r| == |s|
  {
    if |s| <= 1 then s
    else
      var p := Pass(s[..|s| - 1]);
      var c, x := p[|p| - 1], s[|s| - 1];
      if Overtakes(c, x) then p[..|p| - 1] + [x, c] else p + [x]
  }

  /** All sweeps, each over one entry fewer than the one before. */
  function BubbleSort(s: seq<Region>): (r: seq<Region>)
    ensures |r| == |s|
    decreases |s|
  {
    if s == [] then [] else
      var p := Pass(s);
      BubbleSort(p[..|p| - 1]) + [p[|p| - 1]]
  }

  /** What the function leaves in the counted part of the array. */
  function Compact(s: seq<Region>): (r: seq<Region>)
    ensures |r| == |s| - Tombs(s)
  {
    BubbleSort(s)[..|s| - Tombs(s)]
  }

  /** The sort did its job: the live entries, all of them, in order of start. */
  predicate Right(s: seq<Region>) {
    Sorted(Compact(s)) && multiset(Compact(s)) == multiset(Live(s))
  }

  /** Live entries of s that start above a. */
  function Above(s: seq<Region>, a: int): nat {
    if s == [] then 0
    else Above(s[..|s| - 1], a)
         + (if !s[|s| - 1].Empty() && s[|s| - 1].start > a then 1 else 0)
  }

  /** At entry j, should it be a tombstone: no more live entries with a larger
      start stand before it than there are tombstones after it, e of them behind s. */
  predicate FitsAt(s: seq<Region>, j: nat, e: nat)
    requires j < |s|
  {
    s[j].Empty() ==> Above(s[..j], s[j].start) <= Tombs(s[j + 1..]) + e
  }

  /** The exact condition for the sort to work. */
  predicate Sortable(s: seq<Region>) {
    forall j :: 0 <= j < |s| ==> FitsAt(s, j, 0)
  }

  /** `Sortable` read from the right, e tombstones standing behind s. */
  predicate SortableWith(s: seq<Region>, e: nat) {
    s == [] ||
    var x, t := s[|s| - 1], s[..|s| - 1];
    if x.Empty() then Above(t, x.start) <= e && SortableWith(t, e + 1) else SortableWith(t, e)
  }

  /** Every tombstone of s has a live entry with a larger start before it. */
  predicate AllOvertaken(s: seq<Region>) {
    s == [] ||
    var x, t := s[|s| - 1], s[..|s| - 1];
    (x.Empty() ==> Above(t, x.start) > 0) && AllOvertaken(t)
  }

  lemma Snoc(s: seq<Region>)
    requires s != []
    ensures s == s[..|s| - 1] + [s[|s| - 1]]
  {
  }

  lemma AboveSnoc(s: seq<Region>, x: Region, a: int)
    ensures Above(s + [x], a) == Above(s, a) + (if !x.Empty() && x.start > a then 1 else 0)
  {
    assert (s + [x])[..|s|] == s;
  }

  lemma {:induction false} AboveConcat(s: seq<Region>, t: seq<Region>, a: int)
    ensures Above(s + t, a) == Above(s, a) + Above(t, a)
  {
    if t == [] {
      assert s + t == s;
    } else {
      AboveConcat(s, t[..|t| - 1], a);
      assert (s + t)[..|s + t| - 1] == s + t[..|t| - 1];
    }
  }

  lemma SortableSnoc(s: seq<Region>, x: Region, e: nat)
    ensures SortableWith(s + [x], e) ==
            if x.Empty() then Above(s, x.start) <= e && SortableWith(s, e + 1) else SortableWith(s, e)
  {
    assert (s + [x])[..|s|] == s;
  }

  lemma {:induction false} PassMultiset(s: seq<Region>)
    ensures multiset(Pass(s)) == multiset(s)
  {
    if |s| > 1 {
      var t, x := s[..|s| - 1], s[|s| - 1];
      var p := Pass(t);
      PassMultiset(t);
      Snoc(s);
      Snoc(p);
      var q, c := p[..|p| - 1], p[|p| - 1];
      assert multiset(p) == multiset(q) + multiset{c};
      assert multiset(q + [x, c]) == multiset(q) + multiset{x, c};
      assert multiset(s) == multiset(t) + multiset{x};
    }
  }

  lemma AboveSwapped(q: seq<Region>, c: Region, x: Region, a: int)
    ensures Above(q + [x, c], a) == Above(q + [c] + [x], a)
  {
    AboveSnoc(q, c, a);
    AboveSnoc(q + [c], x, a);
    AboveSnoc(q, x, a);
    AboveSnoc(q + [x], c, a);
    assert q + [x, c] == q + [x] + [c];
  }

  lemma {:induction false} PassAbove(s: seq<Region>, a: int)
    ensures Above(Pass(s), a) == Above(s, a)
  {
    if |s| > 1 {
      var t, x := s[..|s| - 1], s[|s| - 1];
      var p := Pass(t);
      PassAbove(t, a);
      Snoc(p);
      AboveSnoc(p, x, a);
      AboveSwapped(p[..|p| - 1], p[|p| - 1], x, a);
    }
  }

  lemma TombsSnoc(s: seq<Region>, x: Region)
    ensures Tombs(s + [x]) == Tombs(s) + (if x.Empty() then 1 else 0)
  {
    TombsConcat(s, [x]);
  }

  lemma {:induction false} PassTombs(s: seq<Region>)
    ensures Tombs(Pass(s)) == Tombs(s)
  {
    if |s| > 1 {
      var t, x := s[..|s| - 1], s[|s| - 1];
      var p := Pass(t);
      var q, c := p[..|p| - 1], p[|p| - 1];
      PassTombs(t);
      Snoc(s);
      Snoc(p);
      TombsSnoc(t, x);
      TombsSnoc(q, c);
      TombsSnoc(p, x);
      TombsSnoc(q, x);
      TombsSnoc(q + [x], c);
      assert q + [x, c] == q + [x] + [c];
    }
  }

  /** A sweep that meets only overtaken tombstones carries a live entry of
      greatest start to the end, and moves each tombstone in front of exactly
      one live entry that started above it. */
  lemma {:induction false} LivePass(s: seq<Region>, e: nat)
    requires s != [] && AllOvertaken(s)
    ensures var c := Pass(s)[|s| - 1]; !c.Empty() && forall a :: Above(s, a) > 0 <==> c.start > a
    ensures SortableWith(Pass(s), e) == SortableWith(s, e + 1)
    decreases |s|
  {
    var t, x := s[..|s| - 1], s[|s| - 1];
    Snoc(s);
    if t == [] {
      assert s == [x];
      SingleAbove(x);
      SortableSnoc([], x, e);
      SortableSnoc([], x, e + 1);
      assert [] + [x] == s;
    } else {
      LivePass(t, e);
      var p := Pass(t);
      var q, c := p[..|p| - 1], p[|p| - 1];
      Snoc(p);
      forall a ensures Above(s, a) == Above(t, a) + (if !x.Empty() && x.start > a then 1 else 0) {
        AboveSnoc(t, x, a);
      }
      SortableSnoc(t, x, e + 1);
      SortableSnoc(p, x, e);
      SortableSnoc(q, c, e);
      if Overtakes(c, x) {
        SortableSnoc(q + [x], c, e);
        SortableSnoc(q, x, e);
        assert q + [x] + [c] == q + [x, c];
        if x.Empty() {
          LivePass(t, e + 1);
          SortableSnoc(q, c, e + 1);
          PassAbove(t, x.start);
          AboveSnoc(q, c, x.start);
        }
      }
    }
  }

  lemma SingleAbove(x: Region)
    ensures forall a :: Above([x], a) == if !x.Empty() && x.start > a then 1 else 0
  {
    forall a ensures Above([x], a) == if !x.Empty() && x.start > a then 1 else 0 {
      AboveSnoc([], x, a);
      assert [] + [x] == [x];
    }
  }

  /** Once the carried entry is a tombstone it stays so, and everything behind
      it moves one place to the front. */
  lemma {:induction false} TombPass(s: seq<Region>, t: Region, post: seq<Region>)
    requires t.Empty() && AllOvertaken(s) && Above(s, t.start) == 0
    ensures Pass(s + [t] + post) == Pass(s) + post + [t]
    decreases |post|
  {
    var w := s + [t] + post;
    if post == [] {
      assert w == s + [t] && w[..|w| - 1] == s;
      if s != [] {
        LivePass(s, 0);
      }
    } else {
      var x, front := post[|post| - 1], post[..|post| - 1];
      TombPass(s, t, front);
      assert w[..|w| - 1] == s + [t] + front;
      var p := Pass(s) + front + [t];
      assert p[..|p| - 1] == Pass(s) + front;
      assert post == front + [x];
    }
  }

  /** ... and taking it away leaves the condition on the rest as it was. */
  lemma {:induction false} TombPassSortable(s: seq<Region>, t: Region, post: seq<Region>, e: nat)
    requires t.Empty() && AllOvertaken(s) && Above(s, t.start) == 0
    ensures SortableWith(Pass(s) + post, e) == SortableWith(s + [t] + post, e)
    decreases |post|
  {
    var w := s + [t] + post;
    if post == [] {
      assert w == s + [t] && Pass(s) + post == Pass(s);
      SortableSnoc(s, t, e);
      if s != [] { LivePass(s, e); }
    } else {
      var x, front := post[|post| - 1], post[..|post| - 1];
      assert w == (s + [t] + front) + [x] && Pass(s) + post == (Pass(s) + front) + [x];
      SortableSnoc(s + [t] + front, x, e);
      SortableSnoc(Pass(s) + front, x, e);
      TombPassSortable(s, t, front, e);
      TombPassSortable(s, t, front, e + 1);
      PassAbove(s, x.start);
      AboveConcat(Pass(s), front, x.start);
      AboveConcat(s + [t], front, x.start);
      AboveSnoc(s, t, x.start);
    }
  }

  /** Where the sweep first picks up a tombstone it will keep, if anywhere. */
  lemma {:induction false} FirstKept(s: seq<Region>) returns (k: nat)
    ensures k <= |s| && AllOvertaken(s[..k])
    ensures k < |s| ==> s[k].Empty() && Above(s[..k], s[k].start) == 0
    ensures AllOvertaken(s) <==> k == |s|
  {
    if s == [] {
      k := 0;
    } else {
      var t, x := s[..|s| - 1], s[|s| - 1];
      k := FirstKept(t);
      if k == |t| {
        assert s[..|t|] == t;
        if !(x.Empty() && Above(t, x.start) == 0) {
          k := |s|;
          assert s[..k] == s;
        }
      } else {
        assert s[..k] == t[..k];
      }
    }
  }

  lemma {:induction false} OvertakenFails(s: seq<Region>)
    requires AllOvertaken(s) && SortableWith(s, 0)
    ensures Tombs(s) == 0
  {
    if s != [] {
      Snoc(s);
      TombsSnoc(s[..|s| - 1], s[|s| - 1]);
      OvertakenFails(s[..|s| - 1]);
    }
  }

  lemma {:induction false} TombFree(s: seq<Region>, e: nat)
    requires Tombs(s) == 0
    ensures SortableWith(s, e) && AllOvertaken(s)
  {
    if s != [] {
      Snoc(s);
      TombsSnoc(s[..|s| - 1], s[|s| - 1]);
      TombFree(s[..|s| - 1], e);
    }
  }

  lemma {:induction false} NoneAbove(s: seq<Region>, a: int, r: Region)
    requires Above(s, a) == 0 && r in s && !r.Empty()
    ensures r.start <= a
  {
    if s[|s| - 1] != r { NoneAbove(s[..|s| - 1], a, r); }
  }

  lemma {:induction false} SortMultiset(s: seq<Region>)
    ensures multiset(BubbleSort(s)) == multiset(s)
    decreases |s|
  {
    if s != [] {
      var p := Pass(s);
      PassMultiset(s);
      Snoc(p);
      SortMultiset(p[..|p| - 1]);
    }
  }

  lemma BoundedSort(q: seq<Region>, c: Region)
    requires Sorted(BubbleSort(q)) && forall r :: r in q ==> r.start <= c.start
    ensures Sorted(BubbleSort(q) + [c])
  {
    SortMultiset(q);
    var b := BubbleSort(q);
    forall i | 0 <= i < |b| ensures b[i].start <= c.start {
      assert b[i] in multiset(b);
      assert b[i] in multiset(q);
    }
  }

  /** Without tombstones this is the textbook bubble sort. */
  lemma {:induction false} SortsLive(s: seq<Region>)
    requires Tombs(s) == 0
    ensures Sorted(BubbleSort(s))
    decreases |s|
  {
    if s != [] {
      var p := Pass(s);
      var q, c := p[..|p| - 1], p[|p| - 1];
      LastIsGreatest(s);
      SortsLive(q);
      BoundedSort(q, c);
    }
  }

  lemma LastIsGreatest(s: seq<Region>)
    requires s != [] && Tombs(s) == 0
    ensures var p := Pass(s);
            Tombs(p[..|p| - 1]) == 0 && forall r :: r in p[..|p| - 1] ==> r.start <= p[|p| - 1].start
  {
    var p := Pass(s);
    var q, c := p[..|p| - 1], p[|p| - 1];
    PassTombs(s);
    Snoc(p);
    TombsSnoc(q, c);
    TombFree(s, 0);
    LivePass(s, 0);
    PassMultiset(s);
    forall r | r in q ensures r.start <= c.start {
      assert r in p;
      assert r in multiset(s);
      NoTombIn(s, r);
      NoneAbove(s, c.start, r);
    }
  }

  lemma {:induction false} NoTombIn(s: seq<Region>, r: Region)
    requires Tombs(s) == 0 && r in s
    ensures !r.Empty()
  {
    LiveLength(s);
    if s[0] != r { NoTombIn(s[1..], r); }
  }

  /** What the sweeps do to a list that meets the condition: first they take the
      tombstones to the end, one a sweep, then they sort the rest. */
  lemma {:induction false} SortableSorts(s: seq<Region>)
    requires SortableWith(s, 0)
    ensures Sorted(Compact(s)) && Tombs(Compact(s)) == 0
    decreases |s|
  {
    if Tombs(s) == 0 {
      SortsLive(s);
      SortTombs(s);
      assert Compact(s) == BubbleSort(s);
    } else {
      var q, t := FirstSweep(s);
      SortableSorts(q);
      CompactOfSweep(s, q, t);
    }
  }

  lemma CompactOfSweep(s: seq<Region>, q: seq<Region>, t: Region)
    requires Pass(s) == q + [t] && Tombs(q) + 1 == Tombs(s)
    ensures Compact(s) == Compact(q)
  {
    assert (q + [t])[..|q|] == q;
    assert BubbleSort(s) == BubbleSort(q) + [t];
  }

  lemma {:induction false} SortTombs(s: seq<Region>)
    ensures Tombs(BubbleSort(s)) == Tombs(s)
    decreases |s|
  {
    if s != [] {
      var p := Pass(s);
      PassTombs(s);
      Snoc(p);
      TombsSnoc(p[..|p| - 1], p[|p| - 1]);
      TombsSnoc(BubbleSort(p[..|p| - 1]), p[|p| - 1]);
      SortTombs(p[..|p| - 1]);
    }
  }

  /** One sweep over a list with tombstones that meets the condition. */
  lemma FirstSweep(s: seq<Region>) returns (q: seq<Region>, t: Region)
    requires SortableWith(s, 0) && Tombs(s) > 0
    ensures Pass(s) == q + [t] && t.Empty() && Tombs(q) == Tombs(s) - 1
    ensures SortableWith(q, 0)
  {
    var k := FirstKept(s);
    if k == |s| {
      OvertakenFails(s);
    }
    q, t := KeptSweep(s, k);
  }

  lemma KeptSweep(s: seq<Region>, k: nat) returns (q: seq<Region>, t: Region)
    requires k < |s| && AllOvertaken(s[..k]) && s[k].Empty() && Above(s[..k], s[k].start) == 0
    ensures Pass(s) == q + [t] && t.Empty() && Tombs(q) == Tombs(s) - 1
    ensures SortableWith(q, 0) == SortableWith(s, 0)
  {
    var pre, post := s[..k], s[k + 1..];
    t := s[k];
    assert s == pre + [t] + post;
    TombPass(pre, t, post);
    TombPassSortable(pre, t, post, 0);
    q := Pass(pre) + post;
    PassTombs(s);
    TombsSnoc(q, t);
  }

  lemma NotSortableHasTomb(s: seq<Region>)
    requires !SortableWith(s, 0)
    ensures Tombs(s) > 0
  {
    if Tombs(s) == 0 { TombFree(s, 0); }
  }

  /** A list that breaks the condition loses a live entry. */
  lemma {:induction false} UnsortableFails(s: seq<Region>)
    requires !SortableWith(s, 0)
    ensures Tombs(Compact(s)) > 0
    decreases |s|
  {
    NotSortableHasTomb(s);
    var k := FirstKept(s);
    if k == |s| {
      LivePass(s, 0);
      var p := Pass(s);
      LiveLast(s, BubbleSort(p[..|p| - 1]), p[|p| - 1]);
    } else {
      var q, t := KeptSweep(s, k);
      UnsortableFails(q);
      CompactOfSweep(s, q, t);
    }
  }

  /** Cutting k entries off a list that ends in a live entry leaves a tombstone. */
  lemma LiveLast(s: seq<Region>, b: seq<Region>, c: Region)
    requires BubbleSort(s) == b + [c] && !c.Empty() && Tombs(s) > 0
    ensures Tombs(Compact(s)) > 0
  {
    var n := |s| - Tombs(s);
    SortTombs(s);
    var w := BubbleSort(s);
    assert w == w[..n] + w[n..];
    TombsConcat(w[..n], w[n..]);
    var tail := w[n..];
    Snoc(tail);
    TombsSnoc(tail[..|tail| - 1], c);
  }

  lemma FitsAtSnoc(t: seq<Region>, x: Region, j: nat, e: nat)
    requires j < |t|
    ensures FitsAt(t + [x], j, e) == FitsAt(t, j, e + Tombs([x]))
  {
    var s := t + [x];
    assert s[j] == t[j] && s[..j] == t[..j] && s[j + 1..] == t[j + 1..] + [x];
    TombsConcat(t[j + 1..], [x]);
  }

  lemma {:induction false} SameCondition(s: seq<Region>, e: nat)
    ensures SortableWith(s, e) <==> forall j :: 0 <= j < |s| ==> FitsAt(s, j, e)
  {
    if s != [] {
      var t, x := s[..|s| - 1], s[|s| - 1];
      assert Tombs([x]) == if x.Empty() then 1 else 0;
      var e' := e + Tombs([x]);
      SameCondition(t, e');
      forall j | 0 <= j < |t| ensures FitsAt(s, j, e) == FitsAt(t, j, e') {
        Snoc(s);
        FitsAtSnoc(t, x, j, e);
      }
      assert FitsAt(s, |t|, e) == (x.Empty() ==> Above(t, x.start) <= e);
    }
  }

  lemma {:induction false} LiveCount(s: seq<Region>, r: Region)
    ensures multiset(Live(s))[r] == if r.Empty() then 0 else multiset(s)[r]
  {
    if s != [] {
      LiveCount(s[1..], r);
      assert s == [s[0]] + s[1..];
      assert multiset(s) == multiset{s[0]} + multiset(s[1..]);
    }
  }

  lemma LiveOfMultiset(a: seq<Region>, b: seq<Region>)
    requires multiset(a) == multiset(b)
    ensures multiset(Live(a)) == multiset(Live(b))
  {
    forall r ensures multiset(Live(a))[r] == multiset(Live(b))[r] {
      LiveCount(a, r);
      LiveCount(b, r);
    }
  }

  /** The array is compacted rightly exactly when `Sortable` holds of it. */
  lemma SortExact(s: seq<Region>)
    ensures Right(s) <==> Sortable(s)
  {
    SameCondition(s, 0);
    if Sortable(s) {
      SortableIsRight(s);
    } else {
      UnsortableFails(s);
      WrongCensus(s);
    }
  }

  lemma SortableIsRight(s: seq<Region>)
    requires SortableWith(s, 0)
    ensures Right(s)
  {
    hide BubbleSort, SortableWith, Live, Tombs;
    var w := BubbleSort(s);
    SortableSorts(s);
    SortMultiset(s);
    SortTombs(s);
    LiveOfMultiset(w, s);
    TombsBehind(w, |s| - Tombs(s));
  }

  lemma TombsBehind(w: seq<Region>, n: nat)
    requires n <= |w| && Tombs(w[..n]) == 0 && Tombs(w) == |w| - n
    ensures Live(w) == w[..n]
  {
    var front, back := w[..n], w[n..];
    assert w == front + back;
    LiveConcat(front, back);
    TombsConcat(front, back);
    LiveLength(back);
    NoTombsAllLive(front);
    assert Live(back) == [];
  }

  lemma WrongCensus(s: seq<Region>)
    requires Tombs(Compact(s)) > 0
    ensures !Right(s)
  {
    var c := Compact(s);
    var i := FindTomb(c);
    LiveLength(s);
    assert c[i] in multiset(c);
    assert c[i] !in Live(s);
    assert c[i] !in multiset(Live(s));
  }

  lemma {:induction false} FindTomb(s: seq<Region>) returns (i: nat)
    requires Tombs(s) > 0
    ensures i < |s| && s[i].Empty()
  {
    if s[0].Empty() {
      i := 0;
    } else {
      var j := FindTomb(s[1..]);
      i := j + 1;
    }
  }

  lemma NoTombsAllLive(s: seq<Region>)
    requires Tombs(s) == 0
    ensures Live(s) == s
  {
    forall i | 0 <= i < |s| ensures !s[i].Empty() { NoTombIn(s, s[i]); }
    AllLive(s);
  }

  /** The simplest way to meet the condition. */
  lemma NothingOvertakes(s: seq<Region>)
    requires forall i, j :: 0 <= i < j < |s| && s[j].Empty() && !s[i].Empty() ==> s[i].start <= s[j].start
    ensures Sortable(s)
  {
    forall j | 0 <= j < |s| ensures FitsAt(s, j, 0) {
      if s[j].Empty() { AboveZero(s[..j], s[j].start); }
    }
  }

  lemma {:induction false} AboveZero(s: seq<Region>, a: int)
    requires forall i :: 0 <= i < |s| && !s[i].Empty() ==> s[i].start <= a
    ensures Above(s, a) == 0
  {
    if s != [] { AboveZero(s[..|s| - 1], a); }
  }

  /** The list a caller gets back, when it knows the live entries in order. */
  lemma CompactTo(s: seq<Region>, want: seq<Region>)
    requires Sortable(s) && StrictlySorted(want) && multiset(want) == multiset(Live(s))
    ensures Compact(s) == want
  {
    SortExact(s);
    SortedUnique(want, Compact(s));
  }

  /** Sorting invents no entry. */
  lemma CompactMember(s: seq<Region>, i: nat)
    requires i < |Compact(s)|
    ensures exists j :: 0 <= j < |s| && s[j] == Compact(s)[i]
  {
    hide BubbleSort;
    SortMultiset(s);
    var r := Compact(s)[i];
    assert r == BubbleSort(s)[i] && r in BubbleSort(s);
    assert r in multiset(BubbleSort(s)) && r in s;
  }
}
