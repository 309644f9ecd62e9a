/** Decoding of the ELF file header (Kickstart/Multiboot/elf.c:44-220) and its
    inverse, the encoding of the System V gABI, chapter 4. */
module Elf {
  import opened Bits
  import opened Bytes
  import opened Options
  import opened Memory

  datatype Class = Class32 | Class64
  datatype Endian = Little | Big
  datatype Arch = X86 | Amd64

  /** What `elf_initialize` keeps of a file. */
  datatype Header = Header(base: u32, cls: Class, endian: Endian, arch: Arch,
                           entry: nat, phoff: nat, phentsize: nat, phnum: nat)

  // ----- the cursor readers -----

  /** n bytes at a; 32-bit pointers wrap at the end of memory. */
  function Peek(m: Mem, a: nat, n: nat): (b: seq<byte>)
    requires |m| > 0
    ensures |b| == n
    ensures forall i :: 0 <= i < n ==> b[i] == m[(a + i) % |m|]
  {
    seq(n, i requires 0 <= i < n => m[(a + i) % |m|])
  }

  function ReadU16(e: Endian, b: seq<byte>): nat
    requires |b| >= 2
  {
    if e == Little then ReadU16Le(b) else ReadU16Be(b)
  }

  function ReadU32(e: Endian, b: seq<byte>): nat
    requires |b| >= 4
  {
    if e == Little then ReadU32Le(b) else ReadU32Be(b)
  }

  function ReadU64(e: Endian, b: seq<byte>): nat
    requires |b| >= 8
  {
    if e == Little then ReadU64Le(b) else ReadU64Be(b)
  }

  /** A value and the cursor behind it. */
  datatype Cursor = Cursor(value: nat, offset: nat)

  function Half(m: Mem, a: nat, off: nat, e: Endian): Cursor
    requires |m| > 0
  {
    Cursor(ReadU16(e, Peek(m, a + off, 2)), off + 2)
  }

  function Word32(m: Mem, a: nat, off: nat, e: Endian): Cursor
    requires |m| > 0
  {
    Cursor(ReadU32(e, Peek(m, a + off, 4)), off + 4)
  }

  /** `elf_read_addr` and `elf_read_off`. */
  function Addr(m: Mem, a: nat, off: nat, c: Class, e: Endian): Cursor
    requires |m| > 0
  {
    if c == Class32 then Cursor(ReadU32(e, Peek(m, a + off, 4)), off + 4)
    else Cursor(ReadU64(e, Peek(m, a + off, 8)), off + 8)
  }

  /** The 64-bit lengths of a program header. */
  function Xword(m: Mem, a: nat, off: nat, e: Endian): Cursor
    requires |m| > 0
  {
    Cursor(ReadU64(e, Peek(m, a + off, 8)), off + 8)
  }

  // ----- elf_initialize -----

  function ClassOf(b: byte): Option<Class> {
    if b == 1 then Some(Class32) else if b == 2 then Some(Class64) else None
  }

  function EndianOf(b: byte): Option<Endian> {
    if b == 1 then Some(Little) else if b == 2 then Some(Big) else None
  }

  const MAGIC: seq<byte> := [0x7F, 0x45, 0x4C, 0x46]

  function ParseHeader(m: Mem, base: u32): Option<Header>
    requires |m| > 0
  {
    var ident := Peek(m, base, 6);
    if ident[..4] != MAGIC then None else
    var cls, endian := ClassOf(ident[4]), EndianOf(ident[5]);
    if cls == None || endian == None then None else ParseFields(m, base, cls.value, endian.value)
  }

  /** Type and machine decide whether the file is taken. */
  function ParseFields(m: Mem, base: u32, c: Class, e: Endian): Option<Header>
    requires |m| > 0
  {
    var kind := Half(m, base, 16, e);
    if kind.value != 2 then None else
    var machine := Half(m, base, kind.offset, e);
    if machine.value != 3 && machine.value != 62 then None
    else Some(ParseRest(m, base, machine.offset, if machine.value == 3 then X86 else Amd64, c, e))
  }

  /** The fields behind e_machine. */
  function ParseRest(m: Mem, base: u32, off: nat, arch: Arch, c: Class, e: Endian): Header
    requires |m| > 0
  {
    var version := Word32(m, base, off, e);
    var entry := Addr(m, base, version.offset, c, e);
    var phoff := Addr(m, base, entry.offset, c, e);
    var shoff := Addr(m, base, phoff.offset, c, e);
    var flags := Word32(m, base, shoff.offset, e);
    var ehsize := Half(m, base, flags.offset, e);
    var phentsize := Half(m, base, ehsize.offset, e);
    var phnum := Half(m, base, phentsize.offset, e);
    Header(base, c, e, arch, entry.value, phoff.value, phentsize.value, phnum.value)
  }

  // ----- the encoding -----

  /** One integer of the file, `width` bytes wide. */
  datatype Field = Field(value: nat, width: nat)

  predicate FieldOk(f: Field) {
    (f.width == 2 || f.width == 4 || f.width == 8) && f.value < Pow2(8 * f.width)
  }

  function EncodeField(f: Field, e: Endian): (b: seq<byte>)
    ensures |b| == f.width
  {
    if e == Little then ToLe(f.value, f.width) else Reverse(ToLe(f.value, f.width))
  }

  function EncodeFields(fs: seq<Field>, e: Endian): seq<byte> {
    if fs == [] then [] else EncodeField(fs[0], e) + EncodeFields(fs[1..], e)
  }

  /** Every field of the header after e_ident. */
  datatype RawHeader = RawHeader(kind: nat, machine: nat, version: nat, entry: nat, phoff: nat, shoff: nat,
                                 flags: nat, ehsize: nat, phentsize: nat, phnum: nat, rest: seq<Field>)

  function AddrWidth(c: Class): nat { if c == Class32 then 4 else 8 }

  function Fields(h: RawHeader, c: Class): seq<Field> {
    [Field(h.kind, 2), Field(h.machine, 2), Field(h.version, 4), Field(h.entry, AddrWidth(c)),
     Field(h.phoff, AddrWidth(c)), Field(h.shoff, AddrWidth(c)), Field(h.flags, 4), Field(h.ehsize, 2),
     Field(h.phentsize, 2), Field(h.phnum, 2)] + h.rest
  }

  /** The file header: identification, ten padding bytes, then the fields. */
  function EncodeHeader(h: RawHeader, c: Class, e: Endian, pad: seq<byte>): seq<byte> {
    [0x7F, 0x45, 0x4C, 0x46] + [if c == Class32 then 1 else 2, if e == Little then 1 else 2] + pad +
    EncodeFields(Fields(h, c), e)
  }

  lemma {:induction false} ReverseTwice(b: seq<byte>)
    ensures Reverse(Reverse(b)) == b
  {
    assert forall i :: 0 <= i < |b| ==> Reverse(Reverse(b))[i] == Reverse(b)[|b| - 1 - i] == b[i];
  }

  /** Decoding undoes the encoding of each field, in both byte orders. */
  lemma DecodeField(f: Field, e: Endian)
    requires FieldOk(f)
    ensures f.width == 2 ==> ReadU16(e, EncodeField(f, e)) == f.value
    ensures f.width == 4 ==> ReadU32(e, EncodeField(f, e)) == f.value
    ensures f.width == 8 ==> ReadU64(e, EncodeField(f, e)) == f.value
  {
    var le := ToLe(f.value, f.width);
    LeToLe(f.value, f.width);
    ReadersAreLe(le);
    assert le[..f.width] == le;
    if e == Big {
      BigIsReversedLittle(Reverse(le));
      ReverseTwice(le);
    }
  }

  /** Where field i of a list starts. */
  function Start(fs: seq<Field>, i: nat): nat
    requires i <= |fs|
  {
    if i == 0 then 0 else Start(fs, i - 1) + fs[i - 1].width
  }

  lemma {:induction false} FieldsLength(fs: seq<Field>, e: Endian, i: nat)
    requires i <= |fs|
    ensures Start(fs, i) <= |EncodeFields(fs, e)|
    ensures EncodeFields(fs[i..], e) == EncodeFields(fs, e)[Start(fs, i)..]
  {
    hide EncodeFields, EncodeField;
    if i == 0 {
      assert fs[0..] == fs;
      assert EncodeFields(fs, e)[0..] == EncodeFields(fs, e);
    } else {
      FieldsLength(fs, e, i - 1);
      FieldsSplit(fs, e, i - 1);
      DropTwice(EncodeFields(fs, e), Start(fs, i - 1), fs[i - 1].width);
    }
  }

  lemma DropTwice(b: seq<byte>, i: nat, j: nat)
    requires i + j <= |b|
    ensures b[i..][j..] == b[i + j..] && b[i..][..j] == b[i..i + j]
  {
  }

  lemma FieldsSplit(fs: seq<Field>, e: Endian, i: nat)
    requires i < |fs|
    ensures var b := EncodeFields(fs[i..], e);
            && fs[i].width <= |b| && b[..fs[i].width] == EncodeField(fs[i], e)
            && b[fs[i].width..] == EncodeFields(fs[i + 1..], e)
  {
    hide EncodeField;
    var rest := fs[i..];
    assert rest[0] == fs[i] && rest[1..] == fs[i + 1..];
    assert EncodeFields(rest, e) == EncodeField(fs[i], e) + EncodeFields(fs[i + 1..], e);
  }

  lemma FieldBytes(fs: seq<Field>, e: Endian, i: nat)
    requires i < |fs|
    ensures Start(fs, i) + fs[i].width <= |EncodeFields(fs, e)|
    ensures EncodeFields(fs, e)[Start(fs, i)..Start(fs, i) + fs[i].width] == EncodeField(fs[i], e)
  {
    hide EncodeFields, EncodeField, Start;
    FieldsLength(fs, e, i);
    FieldsSplit(fs, e, i);
    DropTwice(EncodeFields(fs, e), Start(fs, i), fs[i].width);
  }

  ghost predicate HoldsFile(m: Mem, base: nat, file: seq<byte>) {
    |m| > 0 && forall i :: 0 <= i < |file| ==> m[(base + i) % |m|] == file[i]
  }

  lemma PeekFile(m: Mem, base: nat, file: seq<byte>, k: nat, n: nat)
    requires HoldsFile(m, base, file) && k + n <= |file|
    ensures Peek(m, base + k, n) == file[k..k + n]
  {
    var b := Peek(m, base + k, n);
    forall j | 0 <= j < n ensures b[j] == file[k + j] {
      assert m[(base + (k + j)) % |m|] == file[k + j];
    }
  }

  lemma FileBody(m: Mem, base: nat, front: seq<byte>, body: seq<byte>)
    requires HoldsFile(m, base, front + body)
    ensures HoldsFile(m, base + |front|, body)
  {
    forall i | 0 <= i < |body| ensures m[(base + |front| + i) % |m|] == body[i] {
      assert m[(base + (|front| + i)) % |m|] == (front + body)[|front| + i];
    }
  }

  /** The field part of the file stands 16 bytes in. */
  lemma HeaderBody(m: Mem, base: nat, h: RawHeader, c: Class, e: Endian, pad: seq<byte>)
    requires HoldsFile(m, base, EncodeHeader(h, c, e, pad)) && |pad| == 10
    ensures HoldsFile(m, base + 16, EncodeFields(Fields(h, c), e))
  {
    hide EncodeFields, HoldsFile;
    var front := [0x7F, 0x45, 0x4C, 0x46] + [if c == Class32 then 1 else 2, if e == Little then 1 else 2] + pad;
    FileBody(m, base, front, EncodeFields(Fields(h, c), e));
  }

  /** Reading at the start of a field gives the field. */
  lemma PeekField(m: Mem, a: nat, fs: seq<Field>, e: Endian, i: nat)
    requires HoldsFile(m, a, EncodeFields(fs, e)) && i < |fs|
    ensures |m| > 0 && Peek(m, a + Start(fs, i), fs[i].width) == EncodeField(fs[i], e)
  {
    hide EncodeFields, EncodeField, Start;
    FieldBytes(fs, e, i);
    PeekFile(m, a, EncodeFields(fs, e), Start(fs, i), fs[i].width);
  }

  lemma Starts(h: RawHeader, c: Class)
    ensures var fs, w := Fields(h, c), AddrWidth(c);
            && Start(fs, 0) == 0 && Start(fs, 1) == 2 && Start(fs, 2) == 4 && Start(fs, 3) == 8
            && Start(fs, 4) == 8 + w && Start(fs, 5) == 8 + 2 * w && Start(fs, 6) == 8 + 3 * w
            && Start(fs, 7) == 12 + 3 * w && Start(fs, 8) == 14 + 3 * w && Start(fs, 9) == 16 + 3 * w
  {
    var fs, w := Fields(h, c), AddrWidth(c);
    assert Start(fs, 1) == 2;
    assert Start(fs, 2) == 4;
    assert Start(fs, 3) == 8;
    assert Start(fs, 4) == 8 + w;
    assert Start(fs, 5) == 8 + 2 * w;
    assert Start(fs, 6) == 8 + 3 * w;
    assert Start(fs, 7) == 12 + 3 * w;
    assert Start(fs, 8) == 14 + 3 * w;
  }

  ghost predicate RawOk(h: RawHeader, c: Class) {
    forall i :: 0 <= i < 10 ==> FieldOk(Fields(h, c)[i])
  }

  lemma HalfField(m: Mem, base: nat, front: nat, fs: seq<Field>, e: Endian, i: nat)
    requires HoldsFile(m, base + front, EncodeFields(fs, e)) && i < |fs| && FieldOk(fs[i]) && fs[i].width == 2
    ensures |m| > 0 && Half(m, base, front + Start(fs, i), e) == Cursor(fs[i].value, front + Start(fs, i) + 2)
  {
    hide Start, EncodeFields, EncodeField, FieldOk, ReadU16;
    PeekField(m, base + front, fs, e, i);
    DecodeField(fs[i], e);
  }

  lemma WordField(m: Mem, base: nat, front: nat, fs: seq<Field>, e: Endian, i: nat)
    requires HoldsFile(m, base + front, EncodeFields(fs, e)) && i < |fs| && FieldOk(fs[i]) && fs[i].width == 4
    ensures |m| > 0 && Word32(m, base, front + Start(fs, i), e) == Cursor(fs[i].value, front + Start(fs, i) + 4)
  {
    hide Start, EncodeFields, EncodeField, FieldOk, ReadU32;
    PeekField(m, base + front, fs, e, i);
    DecodeField(fs[i], e);
  }

  lemma AddrField(m: Mem, base: nat, front: nat, fs: seq<Field>, c: Class, e: Endian, i: nat)
    requires HoldsFile(m, base + front, EncodeFields(fs, e)) && i < |fs| && FieldOk(fs[i])
    requires fs[i].width == AddrWidth(c)
    ensures |m| > 0
    ensures Addr(m, base, front + Start(fs, i), c, e) == Cursor(fs[i].value, front + Start(fs, i) + AddrWidth(c))
  {
    hide Start, EncodeFields, EncodeField, FieldOk, ReadU32, ReadU64;
    PeekField(m, base + front, fs, e, i);
    DecodeField(fs[i], e);
  }

  lemma IdentBytes(m: Mem, base: u32, h: RawHeader, c: Class, e: Endian, pad: seq<byte>)
    requires HoldsFile(m, base, EncodeHeader(h, c, e, pad)) && |pad| == 10
    ensures var ident := Peek(m, base, 6);
            ident[..4] == MAGIC && ClassOf(ident[4]) == Some(c) && EndianOf(ident[5]) == Some(e)
  {
    var file, ident := EncodeHeader(h, c, e, pad), Peek(m, base, 6);
    forall i | 0 <= i < 6 ensures ident[i] == file[i] {
      assert m[(base + i) % |m|] == file[i];
    }
    assert ident[..4] == file[..4] == MAGIC;
  }

  /** Header decoding inverts header encoding, for both classes and both byte
      orders: it accepts exactly executables for the two machines, and then
      recovers entry point and program header table. */
  lemma HeaderRoundTrip(m: Mem, base: u32, h: RawHeader, c: Class, e: Endian, pad: seq<byte>)
    requires HoldsFile(m, base, EncodeHeader(h, c, e, pad)) && |pad| == 10 && RawOk(h, c)
    ensures ParseHeader(m, base) ==
            if h.kind == 2 && (h.machine == 3 || h.machine == 62)
            then Some(Header(base, c, e, if h.machine == 3 then X86 else Amd64, h.entry, h.phoff, h.phentsize, h.phnum))
            else None
  {
    hide EncodeHeader, EncodeFields, Peek, Half, Word32, Addr, HoldsFile, FieldOk, Start;
    var fs := Fields(h, c);
    IdentBytes(m, base, h, c, e, pad);
    HeaderBody(m, base, h, c, e, pad);
    Starts(h, c);
    HalfField(m, base, 16, fs, e, 0);
    HalfField(m, base, 16, fs, e, 1);
    WordField(m, base, 16, fs, e, 2);
    AddrField(m, base, 16, fs, c, e, 3);
    AddrField(m, base, 16, fs, c, e, 4);
    AddrField(m, base, 16, fs, c, e, 5);
    WordField(m, base, 16, fs, e, 6);
    HalfField(m, base, 16, fs, e, 7);
    HalfField(m, base, 16, fs, e, 8);
    HalfField(m, base, 16, fs, e, 9);
  }

  // ----- every file is an encoding -----

  function DecodeValue(b: seq<byte>, e: Endian): nat {
    if e == Little then Le(b) else Le(Reverse(b))
  }

  lemma {:induction false} ToLeOfLe(b: seq<byte>)
    ensures ToLe(Le(b), |b|) == b
  {
    if b != [] {
      ToLeOfLe(b[1..]);
      DivUnique(Le(b), 256, Le(b[1..]), b[0]);
      assert b == [b[0]] + b[1..];
    }
  }

  lemma EncodeDecoded(b: seq<byte>, e: Endian)
    ensures EncodeField(Field(DecodeValue(b, e), |b|), e) == b
    ensures DecodeValue(b, e) < Pow2(8 * |b|)
  {
    if e == Little {
      ToLeOfLe(b);
      LeBound(b);
    } else {
      ToLeOfLe(Reverse(b));
      LeBound(Reverse(b));
      ReverseTwice(b);
    }
  }

  /** The fields of the given widths that stand at a. */
  function FieldsAt(m: Mem, a: nat, widths: seq<nat>, e: Endian): (fs: seq<Field>)
    requires |m| > 0
    ensures |fs| == |widths| && forall i :: 0 <= i < |fs| ==> fs[i].width == widths[i]
    decreases |widths|
  {
    if widths == [] then [] else
      [Field(DecodeValue(Peek(m, a, widths[0]), e), widths[0])] + FieldsAt(m, a + widths[0], widths[1..], e)
  }

  lemma HoldsBoth(m: Mem, a: nat, x: seq<byte>, y: seq<byte>)
    requires HoldsFile(m, a, x) && HoldsFile(m, a + |x|, y)
    ensures HoldsFile(m, a, x + y)
  {
    forall i | 0 <= i < |x + y| ensures m[(a + i) % |m|] == (x + y)[i] {
      if i >= |x| { assert m[(a + |x| + (i - |x|)) % |m|] == y[i - |x|]; }
    }
  }

  lemma {:induction false} FieldsAtHeld(m: Mem, a: nat, widths: seq<nat>, e: Endian)
    requires |m| > 0 && forall i :: 0 <= i < |widths| ==> widths[i] == 2 || widths[i] == 4 || widths[i] == 8
    ensures var fs := FieldsAt(m, a, widths, e);
            HoldsFile(m, a, EncodeFields(fs, e)) && forall i :: 0 <= i < |fs| ==> FieldOk(fs[i])
    decreases |widths|
  {
    hide HoldsFile, EncodeField, DecodeValue, Pow2;
    if widths == [] {
      NothingHeld(m, a);
    } else {
      var b := Peek(m, a, widths[0]);
      EncodeDecoded(b, e);
      FieldsAtHeld(m, a + widths[0], widths[1..], e);
      PeekHeld(m, a, widths[0]);
      HoldsBoth(m, a, b, EncodeFields(FieldsAt(m, a + widths[0], widths[1..], e), e));
    }
  }

  lemma NothingHeld(m: Mem, a: nat)
    requires |m| > 0
    ensures HoldsFile(m, a, [])
  {
  }

  lemma PeekHeld(m: Mem, a: nat, n: nat)
    requires |m| > 0
    ensures HoldsFile(m, a, Peek(m, a, n))
  {
  }

  function Widths(c: Class): seq<nat> {
    [2, 2, 4, AddrWidth(c), AddrWidth(c), AddrWidth(c), 4, 2, 2, 2]
  }

  /** Whatever follows a known identification is the encoding of some header. */
  lemma EveryFile(m: Mem, base: u32, c: Class, e: Endian) returns (h: RawHeader, pad: seq<byte>)
    requires |m| > 0
    requires var ident := Peek(m, base, 6);
             ident[..4] == MAGIC && ClassOf(ident[4]) == Some(c) && EndianOf(ident[5]) == Some(e)
    ensures IsHeader(m, base, h, c, e, pad)
  {
    hide HoldsFile, EncodeFields, FieldOk, FieldsAt;
    var fs := FieldsAt(m, base + 16, Widths(c), e);
    FieldsAtHeld(m, base + 16, Widths(c), e);
    h := RawHeader(fs[0].value, fs[1].value, fs[2].value, fs[3].value, fs[4].value, fs[5].value,
                   fs[6].value, fs[7].value, fs[8].value, fs[9].value, []);
    assert Fields(h, c) == fs;
    var ident := Peek(m, base, 6);
    pad := Peek(m, base + 6, 10);
    var front := [0x7F, 0x45, 0x4C, 0x46] + [if c == Class32 then 1 else 2, if e == Little then 1 else 2];
    assert ident == ident[..4] + [ident[4], ident[5]] == front;
    PeekHeld(m, base, 6);
    PeekHeld(m, base + 6, 10);
    HoldsBoth(m, base, front, pad);
    HoldsBoth(m, base, front + pad, EncodeFields(fs, e));
  }

  ghost predicate IsHeader(m: Mem, base: u32, h: RawHeader, c: Class, e: Endian, pad: seq<byte>) {
    HoldsFile(m, base, EncodeHeader(h, c, e, pad)) && |pad| == 10 && RawOk(h, c)
  }

  predicate Runnable(h: RawHeader) { h.kind == 2 && (h.machine == 3 || h.machine == 62) }

  /** `elf_initialize` accepts exactly the memories that hold the encoding of an
      executable's header for one of the two machines. */
  lemma AcceptedExactly(m: Mem, base: u32)
    requires |m| > 0
    ensures ParseHeader(m, base).Some? <==>
            exists h, c, e, pad :: IsHeader(m, base, h, c, e, pad) && Runnable(h)
  {
    hide EncodeHeader, HoldsFile, RawOk, ParseFields;
    if ParseHeader(m, base).Some? {
      var ident := Peek(m, base, 6);
      var c, e := ClassOf(ident[4]).value, EndianOf(ident[5]).value;
      var h, pad := EveryFile(m, base, c, e);
      HeaderRoundTrip(m, base, h, c, e, pad);
      assert IsHeader(m, base, h, c, e, pad) && Runnable(h);
    }
    if h, c, e, pad :| IsHeader(m, base, h, c, e, pad) && Runnable(h) {
      HeaderRoundTrip(m, base, h, c, e, pad);
    }
  }

  /** Byte i of a file, its base address wrapping like the code's. */
  function FileByte(m: Mem, base: u32, i: nat): byte
    requires |m| > 0
  {
    m[(base + i) % |m|]
  }

  /** The same by the bytes themselves: 0x7F 'E' 'L' 'F', class and byte order 1 or
      2, and in that byte order 2 at offset 16 and 3 or 62 at offset 18. */
  lemma AcceptedBytes(m: Mem, base: u32)
    requires |m| > 0
    ensures ParseHeader(m, base).Some? <==>
            && FileByte(m, base, 0) == 0x7F && FileByte(m, base, 1) == 0x45
            && FileByte(m, base, 2) == 0x4C && FileByte(m, base, 3) == 0x46
            && (FileByte(m, base, 4) == 1 || FileByte(m, base, 4) == 2)
            && (|| (&& FileByte(m, base, 5) == 1 && FileByte(m, base, 16) == 2 && FileByte(m, base, 17) == 0
                    && (FileByte(m, base, 18) == 3 || FileByte(m, base, 18) == 62) && FileByte(m, base, 19) == 0)
                || (&& FileByte(m, base, 5) == 2 && FileByte(m, base, 17) == 2 && FileByte(m, base, 16) == 0
                    && (FileByte(m, base, 19) == 3 || FileByte(m, base, 19) == 62) && FileByte(m, base, 18) == 0))
  {
    hide ReadU16Le, ReadU16Be, Peek, ParseRest;
    var ident := Peek(m, base, 6);
    assert ident[..4] == [ident[0], ident[1], ident[2], ident[3]];
    TwoBytes(m, base, 16);
    TwoBytes(m, base, 18);
  }

  lemma TwoBytes(m: Mem, base: u32, i: nat)
    requires |m| > 0
    ensures Half(m, base, i, Little) == Cursor(FileByte(m, base, i) + 256 * FileByte(m, base, i + 1), i + 2)
    ensures Half(m, base, i, Big) == Cursor(256 * FileByte(m, base, i) + FileByte(m, base, i + 1), i + 2)
  {
    hide ReadU16Le, ReadU16Be, Peek;
    var b := Peek(m, base + i, 2);
    assert b[0] == FileByte(m, base, i) && b[1] == m[(base + i + 1) % |m|] == FileByte(m, base, i + 1);
    PairIs(b);
  }

  lemma PairIs(b: seq<byte>)
    requires |b| == 2
    ensures var (x: nat, y: nat) := (b[0], b[1]); ReadU16Le(b) == x + 256 * y && ReadU16Be(b) == 256 * x + y
  {
    hide ReadU16Le, ReadU16Be;
    ReadersAreLe(b);
    assert b[..2] == b;
    BigIsReversedLittle(b);
    ReadersAreLe(Reverse(b));
    assert Reverse(b)[..2] == Reverse(b);
    LePair(b);
    LePair(Reverse(b));
  }

  lemma LePair(b: seq<byte>)
    requires |b| == 2
    ensures var (x: nat, y: nat) := (b[0], b[1]); Le(b) == x + 256 * y
  {
    var rest := b[1..];
    assert rest[0] == b[1] && rest[1..] == [];
    assert Le(rest) == rest[0] + 256 * Le(rest[1..]);
  }
}
