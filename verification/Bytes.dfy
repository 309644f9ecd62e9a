/** Multi-byte integers in memory: the readers of Kickstart/Multiboot/util.h
    and the positional notation they compute. */
module Bytes {
  import opened Bits

  type byte = x: int | 0 <= x < 256

  function ReadU16Le(b: seq<byte>): nat
    requires |b| >= 2
  {
    Or(Or(0, Shl(b[0], 0)), Shl(b[1], 8))
  }

  function ReadU16Be(b: seq<byte>): nat
    requires |b| >= 2
  {
    Or(Or(0, Shl(b[0], 8)), Shl(b[1], 0))
  }

  function ReadU32Le(b: seq<byte>): nat
    requires |b| >= 4
  {
    Or(Or(Or(Or(0, Shl(b[0], 0)), Shl(b[1], 8)), Shl(b[2], 16)), Shl(b[3], 24))
  }

  function ReadU32Be(b: seq<byte>): nat
    requires |b| >= 4
  {
    Or(Or(Or(Or(0, Shl(b[0], 24)), Shl(b[1], 16)), Shl(b[2], 8)), Shl(b[3], 0))
  }

  function ReadU64Le(b: seq<byte>): nat
    requires |b| >= 8
  {
    Or(Or(Or(Or(Or(Or(Or(Or(0, Shl(b[0], 0)), Shl(b[1], 8)), Shl(b[2], 16)), Shl(b[3], 24)),
                Shl(b[4], 32)), Shl(b[5], 40)), Shl(b[6], 48)), Shl(b[7], 56))
  }

  function ReadU64Be(b: seq<byte>): nat
    requires |b| >= 8
  {
    Or(Or(Or(Or(Or(Or(Or(Or(0, Shl(b[0], 56)), Shl(b[1], 48)), Shl(b[2], 40)), Shl(b[3], 32)),
                Shl(b[4], 24)), Shl(b[5], 16)), Shl(b[6], 8)), Shl(b[7], 0))
  }

  /** Positional value, least significant byte first. */
  function Le(b: seq<byte>): nat {
    if b == [] then 0 else b[0] + 256 * Le(b[1..])
  }

  /** The n low bytes of w, least significant first. */
  function ToLe(w: nat, n: nat): (b: seq<byte>)
    ensures |b| == n
  {
    if n == 0 then [] else [w % 256] + ToLe(w / 256, n - 1)
  }

  function Reverse(b: seq<byte>): (r: seq<byte>)
    ensures |r| == |b|
    ensures forall i :: 0 <= i < |b| ==> r[i] == b[|b| - 1 - i]
  {
    if b == [] then [] else Reverse(b[1..]) + [b[0]]
  }

  lemma {:induction false} LeToLe(w: nat, n: nat)
    requires w < Pow2(8 * n)
    ensures Le(ToLe(w, n)) == w
  {
    if n > 0 {
      assert Pow2(8 * n) == 256 * Pow2(8 * (n - 1)) by { Pow2Byte(n); }
      LeToLe(w / 256, n - 1);
      assert ToLe(w, n)[1..] == ToLe(w / 256, n - 1);
    }
  }

  lemma Pow2Byte(n: nat)
    requires n > 0
    ensures Pow2(8 * n) == 256 * Pow2(8 * (n - 1))
  {
    var m := 8 * (n - 1);
    assert Pow2(m + 8) == 2 * Pow2(m + 7);
    assert Pow2(m + 7) == 2 * Pow2(m + 6);
    assert Pow2(m + 6) == 2 * Pow2(m + 5);
    assert Pow2(m + 5) == 2 * Pow2(m + 4);
    assert Pow2(m + 4) == 2 * Pow2(m + 3);
    assert Pow2(m + 3) == 2 * Pow2(m + 2);
    assert Pow2(m + 2) == 2 * Pow2(m + 1);
    assert Pow2(m + 1) == 2 * Pow2(m);
  }

  lemma {:induction false} LeBound(b: seq<byte>)
    ensures Le(b) < Pow2(8 * |b|)
  {
    if b != [] {
      LeBound(b[1..]);
      Pow2Byte(|b|);
    }
  }

  /** The readers' accumulation `val |= b[i] << 8*i`, for any length. */
  function OrLittle(b: seq<byte>): nat {
    if b == [] then 0 else Or(OrLittle(b[..|b| - 1]), Shl(b[|b| - 1], 8 * (|b| - 1)))
  }

  /** The readers' accumulation `val |= b[i] << 8*(n-1-i)`, for the first |b| of n bytes. */
  function OrBig(b: seq<byte>, n: nat): nat
    requires |b| <= n
  {
    if b == [] then 0 else Or(OrBig(b[..|b| - 1], n), Shl(b[|b| - 1], 8 * (n - |b|)))
  }

  lemma {:induction false} LeSnoc(b: seq<byte>, x: byte)
    ensures Le(b + [x]) == Le(b) + Shl(x, 8 * |b|)
  {
    if b == [] {
      assert Le([x]) == x + 256 * Le([x][1..]);
    } else {
      LeSnoc(b[1..], x);
      assert (b + [x])[1..] == b[1..] + [x];
      Pow2Byte(|b|);
      var p := Pow2(8 * (|b| - 1));
      assert x * (256 * p) == 256 * (x * p);
    }
  }

  lemma ShiftedByteFits(x: byte, m: nat)
    ensures Shl(x, 8 * m) < Pow2(8 * (m + 1))
  {
    Pow2Byte(m + 1);
    var p := Pow2(8 * m);
    assert x * p <= 255 * p;
  }

  lemma {:induction false} OrLittleIsLe(b: seq<byte>)
    ensures OrLittle(b) == Le(b)
  {
    if b != [] {
      var lo, x := b[..|b| - 1], b[|b| - 1];
      assert b == lo + [x];
      OrLittleIsLe(lo);
      LeSnoc(lo, x);
      LeBound(lo);
      OrDisjoint(x, Le(lo), 8 * |lo|);
    }
  }

  lemma Distribute(a: nat, b: nat, p: nat)
    ensures (a + b) * p == a * p + b * p
  {
  }

  lemma ShlByte(v: nat, m: nat)
    ensures Shl(v, 8 * (m + 1)) == Shl(256 * v, 8 * m)
  {
    Pow2Byte(m + 1);
    var p := Pow2(8 * m);
    assert v * (256 * p) == (256 * v) * p;
  }

  lemma OrBelow(v: nat, x: byte, m: nat)
    ensures Or(Shl(v, 8 * (m + 1)), Shl(x, 8 * m)) == Shl(x + 256 * v, 8 * m)
  {
    ShiftedByteFits(x, m);
    ShlByte(v, m);
    Distribute(x, 256 * v, Pow2(8 * m));
    OrDisjoint(v, Shl(x, 8 * m), 8 * (m + 1));
  }

  lemma {:induction false} OrBigIsReversedLe(b: seq<byte>, n: nat)
    requires |b| <= n
    ensures OrBig(b, n) == Shl(Le(Reverse(b)), 8 * (n - |b|))
  {
    if b == [] {
      assert Shl(0, 8 * n) == 0;
    } else {
      var hi, x := b[..|b| - 1], b[|b| - 1];
      OrBigIsReversedLe(hi, n);
      OrBelow(Le(Reverse(hi)), x, n - |b|);
      assert Reverse(b) == [x] + Reverse(hi);
      assert Reverse(b)[1..] == Reverse(hi);
    }
  }

  lemma ReadersAreLe(b: seq<byte>)
    ensures |b| >= 2 ==> ReadU16Le(b) == Le(b[..2])
    ensures |b| >= 4 ==> ReadU32Le(b) == Le(b[..4])
    ensures |b| >= 8 ==> ReadU64Le(b) == Le(b[..8])
  {
    if |b| >= 2 { LittleUnrolls(b, 2); OrLittleIsLe(b[..2]); }
    if |b| >= 4 { LittleUnrolls(b, 4); OrLittleIsLe(b[..4]); }
    if |b| >= 8 { LittleUnrolls(b, 8); OrLittleIsLe(b[..8]); }
  }

  /** Reading big-endian is reading the reversed bytes little-endian. */
  lemma BigIsReversedLittle(b: seq<byte>)
    ensures |b| == 2 ==> ReadU16Be(b) == ReadU16Le(Reverse(b))
    ensures |b| == 4 ==> ReadU32Be(b) == ReadU32Le(Reverse(b))
    ensures |b| == 8 ==> ReadU64Be(b) == ReadU64Le(Reverse(b))
  {
    var n := |b|;
    if n == 2 || n == 4 || n == 8 {
      BigUnrolls(b);
      OrBigIsReversedLe(b, n);
      assert b[..n] == b && Reverse(b)[..n] == Reverse(b);
      ReadersAreLe(Reverse(b));
      assert Shl(Le(Reverse(b)), 0) == Le(Reverse(b));
    }
  }

  lemma LittleUnrolls(b: seq<byte>, n: nat)
    requires n <= |b|
    ensures n == 2 ==> OrLittle(b[..n]) == ReadU16Le(b)
    ensures n == 4 ==> OrLittle(b[..n]) == ReadU32Le(b)
    ensures n == 8 ==> OrLittle(b[..n]) == ReadU64Le(b)
  {
    if n == 2 || n == 4 || n == 8 { LittleStep(b, 1); LittleStep(b, 2); }
    if n == 4 || n == 8 { LittleStep(b, 3); LittleStep(b, 4); }
    if n == 8 { LittleStep(b, 5); LittleStep(b, 6); LittleStep(b, 7); LittleStep(b, 8); }
  }

  lemma LittleStep(b: seq<byte>, n: nat)
    requires 0 < n <= |b|
    ensures OrLittle(b[..n]) == Or(OrLittle(b[..n - 1]), Shl(b[n - 1], 8 * (n - 1)))
  {
    assert b[..n][..n - 1] == b[..n - 1];
  }

  lemma BigStep(b: seq<byte>, i: nat, n: nat)
    requires 0 < i <= |b| <= n
    ensures OrBig(b[..i], n) == Or(OrBig(b[..i - 1], n), Shl(b[i - 1], 8 * (n - i)))
  {
    assert b[..i][..i - 1] == b[..i - 1];
  }

  lemma BigUnrolls(b: seq<byte>)
    ensures |b| == 2 ==> OrBig(b, 2) == ReadU16Be(b)
    ensures |b| == 4 ==> OrBig(b, 4) == ReadU32Be(b)
    ensures |b| == 8 ==> OrBig(b, 8) == ReadU64Be(b)
  {
    var n := |b|;
    assert b[..n] == b;
    if n == 2 || n == 4 || n == 8 { BigStep(b, 1, n); BigStep(b, 2, n); }
    if n == 4 || n == 8 { BigStep(b, 3, n); BigStep(b, 4, n); }
    if n == 8 { BigStep(b, 5, n); BigStep(b, 6, n); BigStep(b, 7, n); BigStep(b, 8, n); }
  }
}
