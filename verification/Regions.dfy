/** The boot memory map: typed half-open address ranges. */
module Regions {
  import opened Bits
  import opened Options

  datatype Kind = Available | Reserved | Reclaimable | Nvs | BadMem | Allocated | Kernel

  datatype Region = Region(start: u64, end: u64, kind: Kind) {
    /** A tombstone: the array code marks a dropped entry by a zero length. */
    predicate Empty() { start == end }
  }

  function Live(s: seq<Region>): (r: seq<Region>)
    ensures |r| <= |s|
  {
    if s == [] then [] else if s[0].Empty() then Live(s[1..]) else [s[0]] + Live(s[1..])
  }

  function Tombs(s: seq<Region>): (k: nat)
    ensures k <= |s|
  {
    if s == [] then 0 else (if s[0].Empty() then 1 else 0) + Tombs(s[1..])
  }

  predicate Sorted(s: seq<Region>) {
    forall i, j :: 0 <= i < j < |s| ==> s[i].start <= s[j].start
  }

  predicate StrictlySorted(s: seq<Region>) {
    forall i, j :: 0 <= i < j < |s| ==> s[i].start < s[j].start
  }

  /** A consistent map: no empty entry, ordered, pairwise disjoint. */
  predicate Valid(s: seq<Region>) {
    && (forall i :: 0 <= i < |s| ==> s[i].start < s[i].end)
    && (forall i, j :: 0 <= i < j < |s| ==> s[i].end <= s[j].start)
  }

  /** The abstraction of a map: the type of each address, None where no entry covers it. */
  function TypeAt(s: seq<Region>, a: int): Option<Kind> {
    if s == [] then None
    else if s[0].start <= a < s[0].end then Some(s[0].kind)
    else TypeAt(s[1..], a)
  }

  lemma Associative<T>(a: seq<T>, b: seq<T>, c: seq<T>)
    ensures a + (b + c) == a + b + c
  {
  }

  lemma LiveUnroll(s: seq<Region>, x: Region, t: seq<Region>)
    requires s == [x] + t
    ensures Live(s) == Live([x]) + Live(t)
  {
    assert s[1..] == t && [x][1..] == [];
  }

  lemma {:induction false} LiveConcat(a: seq<Region>, b: seq<Region>)
    ensures Live(a + b) == Live(a) + Live(b)
  {
    if a == [] {
      assert a + b == b;
    } else {
      LiveConcat(a[1..], b);
      assert a == [a[0]] + a[1..] && a + b == [a[0]] + (a[1..] + b);
      LiveUnroll(a + b, a[0], a[1..] + b);
      LiveUnroll(a, a[0], a[1..]);
      Associative(Live([a[0]]), Live(a[1..]), Live(b));
    }
  }

  lemma {:induction false} TombsConcat(a: seq<Region>, b: seq<Region>)
    ensures Tombs(a + b) == Tombs(a) + Tombs(b)
  {
    if a == [] {
      assert a + b == b;
    } else {
      TombsConcat(a[1..], b);
      assert (a + b)[1..] == a[1..] + b;
    }
  }

  lemma {:induction false} LiveLength(s: seq<Region>)
    ensures |Live(s)| + Tombs(s) == |s|
    ensures forall r :: r in Live(s) ==> r in s && !r.Empty()
    ensures forall r :: r in s && !r.Empty() ==> r in Live(s)
  {
    if s != [] {
      LiveLength(s[1..]);
      assert s == [s[0]] + s[1..];
    }
  }

  lemma {:induction false} AllLive(s: seq<Region>)
    requires forall i :: 0 <= i < |s| ==> !s[i].Empty()
    ensures Live(s) == s && Tombs(s) == 0
  {
    if s != [] { AllLive(s[1..]); }
  }

  lemma {:induction false} AllTombs(s: seq<Region>)
    requires forall i :: 0 <= i < |s| ==> s[i].Empty()
    ensures Live(s) == [] && Tombs(s) == |s|
  {
    if s != [] { AllTombs(s[1..]); }
  }

  lemma {:induction false} TypeAtConcat(a: seq<Region>, b: seq<Region>, x: int)
    ensures TypeAt(a + b, x) == if TypeAt(a, x).Some? then TypeAt(a, x) else TypeAt(b, x)
  {
    if a == [] {
      assert a + b == b;
    } else {
      TypeAtConcat(a[1..], b, x);
      assert (a + b)[1..] == a[1..] + b;
    }
  }

  /** In a valid map an address has the type of any entry that covers it. */
  lemma {:induction false} TypeAtEntry(s: seq<Region>, i: nat, a: int)
    requires Valid(s) && i < |s| && s[i].start <= a < s[i].end
    ensures TypeAt(s, a) == Some(s[i].kind)
  {
    if i > 0 {
      assert s[0].end <= s[i].start;
      ValidTail(s);
      TypeAtEntry(s[1..], i - 1, a);
    }
  }

  lemma ValidTail(s: seq<Region>)
    requires Valid(s) && s != []
    ensures Valid(s[1..])
  {
    var t := s[1..];
    assert forall i :: 0 <= i < |t| ==> t[i] == s[i + 1];
  }

  lemma {:induction false} TypeAtWitness(s: seq<Region>, a: int) returns (i: nat)
    requires TypeAt(s, a).Some?
    ensures i < |s| && s[i].start <= a < s[i].end && TypeAt(s, a) == Some(s[i].kind)
  {
    if s[0].start <= a < s[0].end {
      i := 0;
    } else {
      var j := TypeAtWitness(s[1..], a);
      i := j + 1;
    }
  }

  /** Two strictly sorted lists with the same entries are the same list. */
  lemma {:induction false} SortedUnique(a: seq<Region>, b: seq<Region>)
    requires StrictlySorted(a) && Sorted(b) && multiset(a) == multiset(b)
    ensures a == b
  {
    assert |multiset(a)| == |a| && |multiset(b)| == |b|;
    if a != [] {
      SameHead(a, b);
      assert a == [a[0]] + a[1..] && b == [b[0]] + b[1..];
      TailMultiset(a, b);
      SortedUnique(a[1..], b[1..]);
    }
  }

  lemma SameHead(a: seq<Region>, b: seq<Region>)
    requires a != [] && b != [] && StrictlySorted(a) && Sorted(b) && multiset(a) == multiset(b)
    ensures a[0] == b[0]
  {
    assert a[0] in multiset(b) && b[0] in multiset(a);
    var i :| 0 <= i < |b| && b[i] == a[0];
    var j :| 0 <= j < |a| && a[j] == b[0];
    assert b[0].start <= b[i].start;
  }

  lemma TailMultiset(a: seq<Region>, b: seq<Region>)
    requires a != [] && b != [] && a[0] == b[0] && multiset(a) == multiset(b)
    ensures multiset(a[1..]) == multiset(b[1..])
  {
    assert a == [a[0]] + a[1..] && b == [b[0]] + b[1..];
    assert multiset(a[1..]) == multiset(a) - multiset{a[0]};
    assert multiset(b[1..]) == multiset(b) - multiset{b[0]};
  }

  lemma ValidIsStrict(s: seq<Region>)
    requires Valid(s)
    ensures StrictlySorted(s)
  {
    forall i, j | 0 <= i < j < |s| ensures s[i].start < s[j].start {
      assert s[i].end <= s[j].start;
    }
  }
}
