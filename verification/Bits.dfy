/** Unsigned words as natural numbers: C's bitwise operators, and the division
    and remainder forms they take for contiguous masks. */
module Bits {

  type u32 = x: int | 0 <= x < 0x1_0000_0000
  type u64 = x: int | 0 <= x < 0x1_0000_0000_0000_0000

  function Pow2(k: nat): (r: nat)
    ensures r > 0
  {
    if k == 0 then 1 else 2 * Pow2(k - 1)
  }

  /** C's reduction of an unsigned result to its width. */
  function Wrap64(x: nat): (r: u64)
    ensures x < 0x1_0000_0000_0000_0000 ==> r == x
  {
    x % 0x1_0000_0000_0000_0000
  }

  function Wrap32(x: nat): (r: u32)
    ensures x < 0x1_0000_0000 ==> r == x
  {
    x % 0x1_0000_0000
  }

  function And(x: nat, y: nat): nat {
    if x == 0 || y == 0 then 0 else (x % 2) * (y % 2) + 2 * And(x / 2, y / 2)
  }

  function Or(x: nat, y: nat): nat {
    if x == 0 then y else if y == 0 then x
    else (if x % 2 + y % 2 > 0 then 1 else 0) + 2 * Or(x / 2, y / 2)
  }

  function Shl(x: nat, k: nat): nat { x * Pow2(k) }

  function Shr(x: nat, k: nat): nat { Quotient(x, Pow2(k)) }

  function Quotient(x: nat, d: nat): nat
    requires d > 0
  {
    x / d
  }

  lemma DivUnique(n: int, d: int, q: int, r: int)
    requires 0 <= r < d && n == d * q + r
    ensures n / d == q && n % d == r
  {
    var q', r' := n / d, n % d;
    assert n == d * q' + r';
    assert d * (q - q') == r' - r;
    assert q - q' >= 1 ==> d * (q - q') >= d;
    assert q - q' <= -1 ==> d * (q - q') <= -d;
  }

  /** A multiple of the divisor comes out of a quotient and leaves a remainder alone. */
  lemma MultipleOut(q: nat, r: nat, d: nat)
    requires d > 0
    ensures (d * q + r) / d == q + r / d && (d * q + r) % d == r % d
  {
    assert d * (q + r / d) == d * q + d * (r / d);
    DivUnique(d * q + r, d, q + r / d, r % d);
  }

  /** Whole pages on from a page boundary is a page boundary. */
  lemma PagesOn(a: nat, n: nat)
    requires a % 0x1000 == 0
    ensures (a + n * 0x1000) % 0x1000 == 0
  {
  }

  /** Halving first and dividing by p later is dividing by 2p. */
  lemma HalveThenDivide(x: nat, p: nat)
    requires p > 0
    ensures x / (2 * p) == (x / 2) / p
    ensures x % (2 * p) == x % 2 + 2 * ((x / 2) % p)
  {
    var h := x / 2;
    assert h == p * (h / p) + h % p;
    DivUnique(x, 2 * p, h / p, x % 2 + 2 * (h % p));
  }

  lemma AndOdd(x: nat, h: nat)
    ensures And(x, 2 * h + 1) == x % 2 + 2 * And(x / 2, h)
  {
    assert (2 * h + 1) / 2 == h && (2 * h + 1) % 2 == 1;
  }

  lemma {:induction false} AndLowMask(x: nat, k: nat)
    ensures And(x, Pow2(k) - 1) == x % Pow2(k)
  {
    hide And;
    if k > 0 {
      var p := Pow2(k - 1);
      AndLowMask(x / 2, k - 1);
      HalveThenDivide(x, p);
      AndOdd(x, p - 1);
    } else {
      AndZero(x);
    }
  }

  lemma AndZero(x: nat)
    ensures And(x, 0) == 0
  {
  }

  lemma AndEven(x: nat, y: nat)
    ensures And(x, 2 * y) == 2 * And(x / 2, y)
  {
    assert (2 * y) / 2 == y && (2 * y) % 2 == 0;
  }

  lemma {:induction false} AndHighMask(x: nat, m: nat, k: nat)
    ensures And(x, Shl(m, k)) == Shl(And(Shr(x, k), m), k)
  {
    hide And;
    if k > 0 {
      AndEven(x, Shl(m, k - 1));
      var y := Shl(m, k - 1);
      AndHighMask(x / 2, m, k - 1);
      HalveThenDivide(x, Pow2(k - 1));
      assert Shl(m, k) == 2 * y by { Doubled(m, k); }
      var z := And(Shr(x, k), m);
      assert Shl(z, k) == 2 * Shl(z, k - 1) by { Doubled(z, k); }
    }
  }

  lemma Doubled(m: nat, k: nat)
    requires k > 0
    ensures Shl(m, k) == 2 * Shl(m, k - 1)
  {
    var p := Pow2(k - 1);
    assert m * (2 * p) == 2 * (m * p);
  }

  /** A mask of `width` ones standing `low` bits up cuts out one bit field. */
  lemma AndField(x: nat, low: nat, width: nat)
    ensures And(x, Shl(Pow2(width) - 1, low)) == Shl(Shr(x, low) % Pow2(width), low)
  {
    AndHighMask(x, Pow2(width) - 1, low);
    AndLowMask(Shr(x, low), width);
  }

  lemma OrEven(x: nat, y: nat)
    ensures Or(2 * x, y) == y % 2 + 2 * Or(x, y / 2)
    ensures Or(y, 2 * x) == y % 2 + 2 * Or(y / 2, x)
  {
    assert (2 * x) / 2 == x && (2 * x) % 2 == 0;
  }

  /** Or of a word whose low k bits are clear with a k-bit word is their sum. */
  lemma {:induction false} OrDisjoint(x: nat, y: nat, k: nat)
    requires y < Pow2(k)
    ensures Or(Shl(x, k), y) == Shl(x, k) + y
    ensures Or(y, Shl(x, k)) == Shl(x, k) + y
  {
    if k > 0 {
      OrDisjoint(x, y / 2, k - 1);
      Doubled(x, k);
      OrEven(Shl(x, k - 1), y);
    }
  }

  /** The same for a shift by a literal amount, `p` being its power of two. */
  lemma OrAdds(x: nat, y: nat, k: nat, p: nat)
    requires p == Pow2(k) && x % p == 0 && y < p
    ensures Or(x, y) == x + y && Or(y, x) == x + y
  {
    assert x == (x / p) * p;
    OrDisjoint(x / p, y, k);
  }

  lemma {:induction false} Pow2Add(a: nat, b: nat)
    ensures Pow2(a + b) == Pow2(a) * Pow2(b)
  {
    hide Pow2;
    if b == 0 {
      Pow2Step(0);
    } else {
      Pow2Add(a, b - 1);
      Pow2Step(a + b);
      Pow2Step(b);
      DoubleFactor(Pow2(a), Pow2(b - 1));
    }
  }

  lemma Pow2Step(k: nat)
    ensures Pow2(k) == if k == 0 then 1 else 2 * Pow2(k - 1)
  {
  }

  lemma DoubleFactor(p: nat, q: nat)
    ensures p * (2 * q) == 2 * (p * q)
  {
  }

  /** The powers of two that stand for the shift amounts of the code. */
  lemma Pow2Values()
    ensures Pow2(9) == 0x200 && Pow2(12) == 0x1000 && Pow2(18) == 0x4_0000 && Pow2(20) == 0x10_0000
    ensures Pow2(21) == 0x20_0000 && Pow2(27) == 0x800_0000 && Pow2(30) == 0x4000_0000
    ensures Pow2(39) == 0x80_0000_0000 && Pow2(40) == 0x100_0000_0000
    ensures Pow2(52) == 0x10_0000_0000_0000 && Pow2(63) == 0x8000_0000_0000_0000
    ensures Pow2(64) == 0x1_0000_0000_0000_0000
  {
    assert Pow2(9) == 0x200 && Pow2(12) == 0x1000;
    Pow2Add(9, 9);
    Pow2Add(9, 12);
    Pow2Add(9, 18);
    Pow2Add(18, 12);
    Pow2Add(27, 12);
    Pow2Add(30, 9);
    Pow2Add(40, 12);
    Pow2Add(39, 1);
    Pow2Add(20, 1);
    Pow2Add(52, 9);
    Pow2Add(61, 2);
    Pow2Add(63, 1);
    assert Pow2(1) == 2 && Pow2(2) == 4;
  }
}
