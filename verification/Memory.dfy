/** Byte-addressed physical memory, and 64-bit words in it. */
module Memory {
  import opened Bits
  import opened Bytes

  type Mem = seq<byte>

  /** The little-endian word at a; memory that is not there reads as zero. */
  function Word(m: Mem, a: nat): nat {
    if a + 8 <= |m| then Le(m[a..a + 8]) else 0
  }

  function Store(m: Mem, a: nat, b: seq<byte>): (r: Mem)
    requires a + |b| <= |m|
    ensures |r| == |m|
    ensures forall i :: 0 <= i < |m| ==> r[i] == if a <= i < a + |b| then b[i - a] else m[i]
  {
    m[..a] + b + m[a + |b|..]
  }

  function StoreWord(m: Mem, a: nat, w: nat): (r: Mem)
    requires a + 8 <= |m|
    ensures |r| == |m|
  {
    Store(m, a, ToLe(w, 8))
  }

  function Zeros(n: nat): (r: seq<byte>)
    ensures |r| == n && forall i :: 0 <= i < n ==> r[i] == 0
  {
    seq(n, _ => 0)
  }

  function Zeroed(m: Mem, a: nat, n: nat): (r: Mem)
    requires a + n <= |m|
    ensures |r| == |m|
  {
    Store(m, a, Zeros(n))
  }

  lemma WordFrame(m: Mem, m': Mem, a: nat)
    requires |m| == |m'| && a + 8 <= |m| && forall i :: a <= i < a + 8 ==> m'[i] == m[i]
    ensures Word(m', a) == Word(m, a)
  {
    assert m'[a..a + 8] == m[a..a + 8];
  }

  lemma WordBeside(m: Mem, a: nat, w: nat, b: nat)
    requires a + 8 <= |m| && b + 8 <= |m| && (a + 8 <= b || b + 8 <= a)
    ensures Word(StoreWord(m, a, w), b) == Word(m, b)
  {
    WordFrame(m, StoreWord(m, a, w), b);
  }

  lemma WordStored(m: Mem, a: nat, w: u64)
    requires a + 8 <= |m|
    ensures Word(StoreWord(m, a, w), a) == w
  {
    var r := StoreWord(m, a, w);
    assert r[a..a + 8] == ToLe(w, 8);
    Pow2Values();
    LeToLe(w, 8);
  }

  /** The eight bytes a stored word becomes, least significant first. */
  lemma WordBytes(m: Mem, a: nat, w: u64)
    requires a + 8 <= |m|
    ensures StoreWord(m, a, w)[a..a + 8] ==
            [w % 0x100, w / 0x100 % 0x100, w / 0x1_0000 % 0x100, w / 0x100_0000 % 0x100,
             w / 0x1_0000_0000 % 0x100, w / 0x100_0000_0000 % 0x100, w / 0x1_0000_0000_0000 % 0x100,
             w / 0x100_0000_0000_0000 % 0x100]
    ensures forall i :: 0 <= i < |m| && !(a <= i < a + 8) ==> StoreWord(m, a, w)[i] == m[i]
  {
    assert StoreWord(m, a, w)[a..a + 8] == ToLe(w, 8);
    DivideTwice(w, 0x100);
    DivideTwice(w, 0x1_0000);
    DivideTwice(w, 0x100_0000);
    DivideTwice(w, 0x1_0000_0000);
    DivideTwice(w, 0x100_0000_0000);
    DivideTwice(w, 0x1_0000_0000_0000);
    EightBytes(w);
  }

  lemma DivideTwice(w: nat, d: nat)
    requires d > 0
    ensures w / d / 0x100 == w / (0x100 * d)
  {
    var q := w / d;
    var q', r := q / 0x100, q % 0x100 * d + w % d;
    assert w == d * q + w % d && q == 0x100 * q' + q % 0x100;
    assert w == 0x100 * d * q' + r;
    RestFits(q % 0x100, d, w % d);
    DivUnique(w, 0x100 * d, q', r);
  }

  lemma RestFits(k: nat, d: nat, r: nat)
    requires k < 0x100 && r < d
    ensures k * d + r < 0x100 * d
  {
    assert k * d <= 0xFF * d;
  }

  lemma EightBytes(w: nat)
    ensures var w1 := w / 0x100; var w2 := w1 / 0x100; var w3 := w2 / 0x100; var w4 := w3 / 0x100;
            var w5 := w4 / 0x100; var w6 := w5 / 0x100; var w7 := w6 / 0x100;
            ToLe(w, 8) == [w % 0x100, w1 % 0x100, w2 % 0x100, w3 % 0x100] +
                          [w4 % 0x100, w5 % 0x100, w6 % 0x100, w7 % 0x100]
  {
    var w1 := w / 0x100;
    var w2 := w1 / 0x100;
    var w3 := w2 / 0x100;
    var w4 := w3 / 0x100;
    FourBytes(w4);
    assert ToLe(w3, 5) == [w3 % 0x100] + ToLe(w4, 4);
    assert ToLe(w2, 6) == [w2 % 0x100] + ToLe(w3, 5);
    assert ToLe(w1, 7) == [w1 % 0x100] + ToLe(w2, 6);
  }

  lemma FourBytes(w: nat)
    ensures var w1 := w / 0x100; var w2 := w1 / 0x100; var w3 := w2 / 0x100;
            ToLe(w, 4) == [w % 0x100, w1 % 0x100, w2 % 0x100, w3 % 0x100]
  {
    var w1 := w / 0x100;
    var w2 := w1 / 0x100;
    var w3 := w2 / 0x100;
    assert ToLe(w3, 1) == [w3 % 0x100] + ToLe(w3 / 0x100, 0);
    assert ToLe(w2, 2) == [w2 % 0x100] + ToLe(w3, 1);
    assert ToLe(w1, 3) == [w1 % 0x100] + ToLe(w2, 2);
  }

  lemma WordZeroed(m: Mem, a: nat, n: nat, b: nat)
    requires a + n <= |m| && a <= b && b + 8 <= a + n
    ensures Word(Zeroed(m, a, n), b) == 0
  {
    var r := Zeroed(m, a, n);
    assert r[b..b + 8] == Zeros(8);
    LeZeros(8);
  }

  lemma {:induction false} LeZeros(n: nat)
    ensures Le(Zeros(n)) == 0
  {
    if n > 0 {
      assert Zeros(n)[1..] == Zeros(n - 1);
      LeZeros(n - 1);
    }
  }

  // ----- memory as an array -----

  method ReadWord(mem: array<byte>, a: nat) returns (w: nat)
    requires a + 8 <= mem.Length
    ensures w == Word(mem[..], a)
  {
    ReadersAreLe(mem[a..a + 8]);
    assert mem[a..a + 8][..8] == mem[a..a + 8] == mem[..][a..a + 8];
    w := ReadU64Le(mem[a..a + 8]);
  }

  method WriteWord(mem: array<byte>, a: nat, w: nat)
    requires a + 8 <= mem.Length
    modifies mem
    ensures mem[..] == StoreWord(old(mem[..]), a, w)
  {
    ghost var m, b := mem[..], ToLe(w, 8);
    var rest := w;
    for i := 0 to 8
      invariant ToLe(rest, 8 - i) == b[i..]
      invariant forall x :: 0 <= x < mem.Length ==> mem[x] == if a <= x < a + i then b[x - a] else m[x]
    {
      assert b[i..][0] == b[i] && b[i..][1..] == b[i + 1..];
      mem[a + i] := rest % 256;
      rest := rest / 256;
    }
    assert mem[..] == Store(m, a, b);
  }
}
