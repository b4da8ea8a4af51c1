/** The AML fragments of the DSDT: their bytes, and writing them into a slot. */
module Aml {
  import opened Outcomes
  import opened Words
  import opened Buffers
  import opened AcpiCore

  function Ascii(s: string): (b: seq<byte>)
    requires forall i :: 0 <= i < |s| ==> s[i] < 128 as char
    ensures |b| == |s| && forall i :: 0 <= i < |s| ==> b[i] == s[i] as int
  {
    seq<byte>(|s|, i requires 0 <= i < |s| => s[i] as int)
  }

  type NameSeg = n: seq<byte> | |n| == 4 witness [0x5F, 0x5F, 0x5F, 0x5F]

  const NAME_OP: byte := 0x08
  const BYTE_PREFIX: byte := 0x0A
  const WORD_PREFIX: byte := 0x0B
  const DWORD_PREFIX: byte := 0x0C
  const STRING_PREFIX: byte := 0x0D
  const BUFFER_OP: byte := 0x11
  const PACKAGE_OP: byte := 0x12
  const EXT_OP_PREFIX: byte := 0x5B
  const DEVICE_OP: byte := 0x82
  const PKG_LENGTH_BYTES: nat := 2
  const CRS_WRAPPER_BYTES: nat := 11
  const WORD_BUS_NUMBER_BYTES: nat := 16
  const DWORD_MEMORY_BYTES: nat := 26
  const QWORD_MEMORY_BYTES: nat := 46
  const EXTENDED_INTERRUPT_BYTES: nat := 9
  const END_TAG_BYTES: nat := 2

  // ---- bytes ----

  /** The two-byte form: a nibble and a byte. */
  function PkgLength(v: nat): (b: seq<byte>)
    requires v <= 0xFFF
    ensures |b| == PKG_LENGTH_BYTES
  {
    [0x40 + v % 16, v / 16]
  }

  function DeviceHeader(name: NameSeg, total: nat): (b: seq<byte>)
    requires 2 <= total <= 0x1001
    ensures |b| == 8
  {
    [EXT_OP_PREFIX, DEVICE_OP] + PkgLength(total - 2) + name
  }

  function NameByte(name: NameSeg, v: byte): (b: seq<byte>)
    ensures |b| == 7
  {
    [NAME_OP] + name + [BYTE_PREFIX, v]
  }

  function NameDword(name: NameSeg, v: u32): (b: seq<byte>)
    ensures |b| == 10
  {
    [NAME_OP] + name + [DWORD_PREFIX] + Le32(v)
  }

  function AmlString(s: seq<byte>): (b: seq<byte>)
    ensures |b| == |s| + 2
  {
    [STRING_PREFIX] + s + [0]
  }

  function NameString(name: NameSeg, s: seq<byte>): (b: seq<byte>)
    ensures |b| == |s| + 7
  {
    [NAME_OP] + name + AmlString(s)
  }

  function ByteBuffer(s: seq<byte>): (b: seq<byte>)
    requires |s| < U8_LIMIT
    ensures |b| == |s| + 5
  {
    [BUFFER_OP] + PkgLength(PKG_LENGTH_BYTES + 2 + |s|) + [BYTE_PREFIX, |s|] + s
  }

  /** What precedes `n` bytes of resource descriptors. */
  function CrsHeader(n: nat): (b: seq<byte>)
    requires n <= 0xFFA
    ensures |b| == CRS_WRAPPER_BYTES
  {
    [NAME_OP] + Ascii("_CRS") + [BUFFER_OP] + PkgLength(PKG_LENGTH_BYTES + 3 + n) + [WORD_PREFIX] + Le16(n)
  }

  /** Eight-bit saturating bus count: exact unless all 256 buses are spanned. */
  function BusCount(min: byte, max: byte): (n: byte)
  {
    var span := if min <= max then max - min else 0;
    if span + 1 < U8_LIMIT then span + 1 else U8_LIMIT - 1
  }

  lemma {:induction false} BusCountIsExact(min: byte, max: byte)
    requires min <= max
    ensures BusCount(min, max) == max - min + 1 <==> !(min == 0 && max == 255)
  {}

  const FIXED_RANGE: byte := 0x0C
  const READ_WRITE: byte := 1

  function WordBusNumber(min: byte, max: byte): (b: seq<byte>)
    ensures |b| == WORD_BUS_NUMBER_BYTES
  {
    [0x88, 0x0D, 0, 2, FIXED_RANGE, 0] + Le16(0) + Le16(min) + Le16(max) + Le16(0) + Le16(BusCount(min, max))
  }

  function LastOf(base: nat, size: nat): (m: nat)
    ensures m <= base + size
  {
    if base + size == 0 then 0 else base + size - 1
  }

  function DwordMemory(base: u32, size: u32): (b: seq<byte>)
    requires base + size < U32_LIMIT
    ensures |b| == DWORD_MEMORY_BYTES
  {
    [0x87, 0x17, 0, 0, FIXED_RANGE, READ_WRITE] + Le32(0) + Le32(base) + Le32(LastOf(base, size)) + Le32(0) + Le32(size)
  }

  function QwordMemory(base: u64, size: u64): (b: seq<byte>)
    requires base + size < U64_LIMIT
    ensures |b| == QWORD_MEMORY_BYTES
  {
    [0x8A, 0x2B, 0, 0, FIXED_RANGE, READ_WRITE] + Le64(0) + Le64(base) + Le64(LastOf(base, size)) + Le64(0) + Le64(size)
  }

  /** Trigger and polarity bits for a devicetree interrupt sense. */
  function TriggerPolarity(sense: u32): byte {
    if sense == 2 then 6 else if sense == 4 then 0 else if sense == 8 then 4 else 2
  }

  function ExtendedInterrupt(gsi: u32, sense: u32): (b: seq<byte>)
    ensures |b| == EXTENDED_INTERRUPT_BYTES
  {
    [0x89, 0x06, 0, 1 + TriggerPolarity(sense), 1] + Le32(gsi)
  }

  function EndTag(): (b: seq<byte>)
    ensures |b| == END_TAG_BYTES
  {
    [0x79, 0]
  }

  function HexDigit(c: byte): nat {
    if 0x30 <= c <= 0x39 then c - 0x30 else if 0x41 <= c <= 0x46 then c - 0x41 + 10 else 0
  }

  /** The compressed form of a PNP identifier: three five-bit letters and four hexadecimal digits. */
  function EisaId(s: seq<byte>): (v: u32)
    requires |s| == 7 && forall i :: 0 <= i < 3 ==> 0x40 <= s[i] < 0x60
  {
    var c0, c1, c2 := s[0] - 0x40, s[1] - 0x40, s[2] - 0x40;
    (4 * c0 + c1 / 8) + 0x100 * (32 * (c1 % 8) + c2)
    + 0x1_0000 * (16 * HexDigit(s[3]) + HexDigit(s[4])) + 0x100_0000 * (16 * HexDigit(s[5]) + HexDigit(s[6]))
  }

  /** A three-letter prefix and a digit or letter, saturating. */
  function NameSegIndexed(prefix: seq<byte>, index: byte): (n: NameSeg)
    requires |prefix| == 3
  {
    var suffix := if index < 10 then 0x30 + index else 0x41 + (index - 10);
    prefix + [if suffix < U8_LIMIT then suffix else U8_LIMIT - 1]
  }

  // ---- writers ----

  method WritePkgLength(buf: array<byte>, s: Slot, pos: nat, v: nat, ghost w: Trace) returns (r: Result<nat, DtbError>)
    requires Writing(buf[..], w, pos) && w.slot == s
    modifies buf
    ensures r.Success? <==> v <= 0xFFF && pos + PKG_LENGTH_BYTES <= s.len
    ensures r.Success? ==> r.value == pos + PKG_LENGTH_BYTES && Writing(buf[..], Then(w, PkgLength(v)), r.value)
  {
    hide Writing, Then;
    if v > 0xFFF { return Failure(Dtb); }
    r := WriteBytes(buf, s, pos, [0x40 + v % 16, v / 16], w);
  }

  method WriteDeviceHeader(buf: array<byte>, s: Slot, pos: nat, name: NameSeg, total: nat, ghost w: Trace)
    returns (r: Result<nat, DtbError>)
    requires Writing(buf[..], w, pos) && w.slot == s
    modifies buf
    ensures r.Success? <==> 2 <= total <= 0x1001 && pos + 8 <= s.len
    ensures r.Success? ==> r.value == pos + 8 && Writing(buf[..], Then(w, DeviceHeader(name, total)), r.value)
  {
    hide Writing, Then, PkgLength;
    var p :- WriteBytes(buf, s, pos, [EXT_OP_PREFIX, DEVICE_OP], w);
    if total < 2 { return Failure(Dtb); }
    ghost var w1 := Then(w, [EXT_OP_PREFIX, DEVICE_OP]);
    p :- WritePkgLength(buf, s, p, total - 2, w1);
    p :- WriteBytes(buf, s, p, name, Then(w1, PkgLength(total - 2)));
    JoinThen(w, [EXT_OP_PREFIX, DEVICE_OP], PkgLength(total - 2));
    JoinThen(w, [EXT_OP_PREFIX, DEVICE_OP] + PkgLength(total - 2), name);
    return Success(p);
  }

  method WriteNameByte(buf: array<byte>, s: Slot, pos: nat, name: NameSeg, v: byte, ghost w: Trace) returns (r: Result<nat, DtbError>)
    requires Writing(buf[..], w, pos) && w.slot == s
    modifies buf
    ensures r.Success? <==> pos + 7 <= s.len
    ensures r.Success? ==> r.value == pos + 7 && Writing(buf[..], Then(w, NameByte(name, v)), r.value)
  {
    hide Writing, Then;
    var p :- WriteBytes(buf, s, pos, [NAME_OP], w);
    p :- WriteBytes(buf, s, p, name, Then(w, [NAME_OP]));
    JoinThen(w, [NAME_OP], name);
    p :- WriteBytes(buf, s, p, [BYTE_PREFIX, v], Then(w, [NAME_OP] + name));
    JoinThen(w, [NAME_OP] + name, [BYTE_PREFIX, v]);
    return Success(p);
  }

  method WriteNameDword(buf: array<byte>, s: Slot, pos: nat, name: NameSeg, v: u32, ghost w: Trace) returns (r: Result<nat, DtbError>)
    requires Writing(buf[..], w, pos) && w.slot == s
    modifies buf
    ensures r.Success? <==> pos + 10 <= s.len
    ensures r.Success? ==> r.value == pos + 10 && Writing(buf[..], Then(w, NameDword(name, v)), r.value)
  {
    hide Writing, Then, Le32;
    var p :- WriteBytes(buf, s, pos, [NAME_OP], w);
    p :- WriteBytes(buf, s, p, name, Then(w, [NAME_OP]));
    JoinThen(w, [NAME_OP], name);
    p :- WriteBytes(buf, s, p, [DWORD_PREFIX], Then(w, [NAME_OP] + name));
    JoinThen(w, [NAME_OP] + name, [DWORD_PREFIX]);
    p :- WriteBytes(buf, s, p, Le32(v), Then(w, [NAME_OP] + name + [DWORD_PREFIX]));
    JoinThen(w, [NAME_OP] + name + [DWORD_PREFIX], Le32(v));
    return Success(p);
  }

  method WriteString(buf: array<byte>, s: Slot, pos: nat, v: seq<byte>, ghost w: Trace) returns (r: Result<nat, DtbError>)
    requires Writing(buf[..], w, pos) && w.slot == s
    modifies buf
    ensures r.Success? <==> pos + |v| + 2 <= s.len
    ensures r.Success? ==> r.value == pos + |v| + 2 && Writing(buf[..], Then(w, AmlString(v)), r.value)
  {
    hide Writing, Then;
    var p :- WriteBytes(buf, s, pos, [STRING_PREFIX], w);
    p :- WriteBytes(buf, s, p, v, Then(w, [STRING_PREFIX]));
    JoinThen(w, [STRING_PREFIX], v);
    p :- WriteBytes(buf, s, p, [0], Then(w, [STRING_PREFIX] + v));
    JoinThen(w, [STRING_PREFIX] + v, [0]);
    return Success(p);
  }

  method WriteNameString(buf: array<byte>, s: Slot, pos: nat, name: NameSeg, v: seq<byte>, ghost w: Trace)
    returns (r: Result<nat, DtbError>)
    requires Writing(buf[..], w, pos) && w.slot == s
    modifies buf
    ensures r.Success? <==> pos + |v| + 7 <= s.len
    ensures r.Success? ==> r.value == pos + |v| + 7 && Writing(buf[..], Then(w, NameString(name, v)), r.value)
  {
    hide Writing, Then, AmlString;
    var p :- WriteBytes(buf, s, pos, [NAME_OP], w);
    p :- WriteBytes(buf, s, p, name, Then(w, [NAME_OP]));
    JoinThen(w, [NAME_OP], name);
    p :- WriteString(buf, s, p, v, Then(w, [NAME_OP] + name));
    JoinThen(w, [NAME_OP] + name, AmlString(v));
    return Success(p);
  }

  method WriteByteBuffer(buf: array<byte>, s: Slot, pos: nat, v: seq<byte>, ghost w: Trace) returns (r: Result<nat, DtbError>)
    requires Writing(buf[..], w, pos) && w.slot == s
    modifies buf
    ensures r.Success? <==> |v| < U8_LIMIT && pos + |v| + 5 <= s.len
    ensures r.Success? ==> r.value == pos + |v| + 5 && Writing(buf[..], Then(w, ByteBuffer(v)), r.value)
  {
    hide Writing, Then, PkgLength;
    if |v| >= U8_LIMIT { return Failure(Dtb); }
    var pkg := PKG_LENGTH_BYTES + 2 + |v|;
    var p :- WriteBytes(buf, s, pos, [BUFFER_OP], w);
    p :- WritePkgLength(buf, s, p, pkg, Then(w, [BUFFER_OP]));
    JoinThen(w, [BUFFER_OP], PkgLength(pkg));
    p :- WriteBytes(buf, s, p, [BYTE_PREFIX, |v|], Then(w, [BUFFER_OP] + PkgLength(pkg)));
    JoinThen(w, [BUFFER_OP] + PkgLength(pkg), [BYTE_PREFIX, |v|]);
    p :- WriteBytes(buf, s, p, v, Then(w, [BUFFER_OP] + PkgLength(pkg) + [BYTE_PREFIX, |v|]));
    JoinThen(w, [BUFFER_OP] + PkgLength(pkg) + [BYTE_PREFIX, |v|], v);
    return Success(p);
  }

  method WriteCrsHeader(buf: array<byte>, s: Slot, pos: nat, n: nat, ghost w: Trace) returns (r: Result<nat, DtbError>)
    requires Writing(buf[..], w, pos) && w.slot == s
    modifies buf
    ensures r.Success? <==> n <= 0xFFA && pos + CRS_WRAPPER_BYTES <= s.len
    ensures r.Success? ==> r.value == pos + CRS_WRAPPER_BYTES && Writing(buf[..], Then(w, CrsHeader(n)), r.value)
  {
    hide Writing, Then, PkgLength, Le16, Ascii;
    if n >= U16_LIMIT { return Failure(Dtb); }
    var pkg := PKG_LENGTH_BYTES + 3 + n;
    var p :- WriteBytes(buf, s, pos, [NAME_OP], w);
    p :- WriteBytes(buf, s, p, Ascii("_CRS"), Then(w, [NAME_OP]));
    JoinThen(w, [NAME_OP], Ascii("_CRS"));
    ghost var a := [NAME_OP] + Ascii("_CRS");
    p :- WriteBytes(buf, s, p, [BUFFER_OP], Then(w, a));
    JoinThen(w, a, [BUFFER_OP]);
    p :- WritePkgLength(buf, s, p, pkg, Then(w, a + [BUFFER_OP]));
    JoinThen(w, a + [BUFFER_OP], PkgLength(pkg));
    p :- WriteBytes(buf, s, p, [WORD_PREFIX], Then(w, a + [BUFFER_OP] + PkgLength(pkg)));
    JoinThen(w, a + [BUFFER_OP] + PkgLength(pkg), [WORD_PREFIX]);
    p :- WriteBytes(buf, s, p, Le16(n), Then(w, a + [BUFFER_OP] + PkgLength(pkg) + [WORD_PREFIX]));
    JoinThen(w, a + [BUFFER_OP] + PkgLength(pkg) + [WORD_PREFIX], Le16(n));
    return Success(p);
  }

  /** A 32-bit window that ends below 4 GiB. */
  method WriteDwordMemory(buf: array<byte>, s: Slot, pos: nat, base: u32, size: u32, ghost w: Trace) returns (r: Result<nat, DtbError>)
    requires Writing(buf[..], w, pos) && w.slot == s
    modifies buf
    ensures r.Success? <==> base + size < U32_LIMIT && pos + DWORD_MEMORY_BYTES <= s.len
    ensures r.Success? ==> r.value == pos + DWORD_MEMORY_BYTES && Writing(buf[..], Then(w, DwordMemory(base, size)), r.value)
  {
    hide Writing, Then, DwordMemory;
    if base + size >= U32_LIMIT { return Failure(Dtb); }
    r := WriteBytes(buf, s, pos, DwordMemory(base, size), w);
  }

  method WriteQwordMemory(buf: array<byte>, s: Slot, pos: nat, base: u64, size: u64, ghost w: Trace) returns (r: Result<nat, DtbError>)
    requires Writing(buf[..], w, pos) && w.slot == s
    modifies buf
    ensures r.Success? <==> base + size < U64_LIMIT && pos + QWORD_MEMORY_BYTES <= s.len
    ensures r.Success? ==> r.value == pos + QWORD_MEMORY_BYTES && Writing(buf[..], Then(w, QwordMemory(base, size)), r.value)
  {
    hide Writing, Then, QwordMemory;
    if base + size >= U64_LIMIT { return Failure(Dtb); }
    r := WriteBytes(buf, s, pos, QwordMemory(base, size), w);
  }

  /** The descriptors carry the window's first and last address and its length. */
  lemma {:induction false} DwordWindowFields(base: u32, size: u32)
    requires base + size < U32_LIMIT
    ensures
      var b := DwordMemory(base, size);
      LeValue(b[10..14]) == base && LeValue(b[14..18]) == LastOf(base, size) && LeValue(b[22..26]) == size
  {
    FixedWidthRoundTrip(base);
    FixedWidthRoundTrip(size);
    FixedWidthRoundTrip(LastOf(base, size));
    hide Le32, LeValue, LastOf;
    WindowSlices([0x87, 0x17, 0, 0, FIXED_RANGE, READ_WRITE], Le32(0), Le32(base), Le32(LastOf(base, size)), Le32(0), Le32(size));
  }

  lemma {:induction false} QwordWindowFields(base: u64, size: u64)
    requires base + size < U64_LIMIT
    ensures
      var b := QwordMemory(base, size);
      LeValue(b[14..22]) == base && LeValue(b[22..30]) == LastOf(base, size) && LeValue(b[38..46]) == size
  {
    FixedWidthRoundTrip(base);
    FixedWidthRoundTrip(size);
    FixedWidthRoundTrip(LastOf(base, size));
    hide Le64, LeValue, LastOf;
    WindowSlices([0x8A, 0x2B, 0, 0, FIXED_RANGE, READ_WRITE], Le64(0), Le64(base), Le64(LastOf(base, size)), Le64(0), Le64(size));
  }

  lemma {:induction false} WindowSlices(h: seq<byte>, a: seq<byte>, x: seq<byte>, y: seq<byte>, b: seq<byte>, z: seq<byte>)
    requires |a| == |x| == |y| == |b| == |z|
    ensures
      var (all, i, n) := (h + a + x + y + b + z, |h|, |a|);
      all[i + n..i + 2 * n] == x && all[i + 2 * n..i + 3 * n] == y && all[i + 4 * n..i + 5 * n] == z
  {}

  lemma {:induction false} BusNumberFields(min: byte, max: byte)
    ensures
      var b := WordBusNumber(min, max);
      LeValue(b[8..10]) == min && LeValue(b[10..12]) == max && LeValue(b[14..16]) == BusCount(min, max)
  {
    hide Le16, LeValue, BusCount;
    FixedWidthRoundTrip(min);
    FixedWidthRoundTrip(max);
    FixedWidthRoundTrip(BusCount(min, max));
    var b := WordBusNumber(min, max);
    assert b[8..10] == Le16(min) && b[10..12] == Le16(max) && b[14..16] == Le16(BusCount(min, max));
  }

  /** Bit 1 says edge-triggered and bit 2 active-low; an unknown sense reads as a rising edge. */
  lemma {:induction false} InterruptFields(gsi: u32, sense: u32)
    ensures
      var b := ExtendedInterrupt(gsi, sense);
      && LeValue(b[5..9]) == gsi && b[3] % 2 == 1
      && (b[3] / 2 % 2 == 1 <==> sense != 4 && sense != 8) && (b[3] / 4 % 2 == 1 <==> sense == 2 || sense == 8)
  {
    hide Le32, LeValue;
    FixedWidthRoundTrip(gsi);
    assert ExtendedInterrupt(gsi, sense)[5..9] == Le32(gsi);
  }

  // ---- compressed identifiers ----

  predicate IsUpperHex(c: byte) { 0x30 <= c <= 0x39 || 0x41 <= c <= 0x46 }

  function DigitOf(d: nat): byte
    requires d < 16
  {
    if d < 10 then 0x30 + d else 0x41 + (d - 10)
  }

  /** The text of a compressed identifier. */
  function EisaText(v: u32): (s: seq<byte>)
    ensures |s| == 7
  {
    var (b0, b1, b2, b3) := (v % 0x100, v / 0x100 % 0x100, v / 0x1_0000 % 0x100, v / 0x100_0000);
    [0x40 + b0 / 4 % 32, 0x40 + b0 % 4 * 8 + b1 / 32, 0x40 + b1 % 32, DigitOf(b2 / 16), DigitOf(b2 % 16), DigitOf(b3 / 16), DigitOf(b3 % 16)]
  }

  /** Compression loses nothing of an identifier of three letters and four hexadecimal digits. */
  lemma {:induction false} EisaRoundTrip(s: seq<byte>)
    requires |s| == 7 && (forall i :: 0 <= i < 3 ==> 0x40 <= s[i] < 0x60) && forall i :: 3 <= i < 7 ==> IsUpperHex(s[i])
    ensures EisaText(EisaId(s)) == s
  {
    hide EisaText;
    var c0, c1, c2 := s[0] - 0x40, s[1] - 0x40, s[2] - 0x40;
    var b0, b1 := 4 * c0 + c1 / 8, 32 * (c1 % 8) + c2;
    var b2, b3 := 16 * HexDigit(s[3]) + HexDigit(s[4]), 16 * HexDigit(s[5]) + HexDigit(s[6]);
    assert EisaId(s) == b0 + 0x100 * b1 + 0x1_0000 * b2 + 0x100_0000 * b3;
    hide EisaId, HexDigit, IsUpperHex, DigitOf;
    LettersUnpack(c0, c1, c2);
    DigitsUnpack(s[3], s[4]);
    DigitsUnpack(s[5], s[6]);
    EisaTextOfBytes(b0, b1, b2, b3);
  }

  lemma {:induction false} LettersUnpack(c0: nat, c1: nat, c2: nat)
    requires c0 < 32 && c1 < 32 && c2 < 32
    ensures
      var b0, b1 := 4 * c0 + c1 / 8, 32 * (c1 % 8) + c2;
      b0 < U8_LIMIT && b1 < U8_LIMIT && b0 / 4 % 32 == c0 && b0 % 4 * 8 + b1 / 32 == c1 && b1 % 32 == c2
  {}

  lemma {:induction false} DigitsUnpack(x: byte, y: byte)
    requires IsUpperHex(x) && IsUpperHex(y)
    ensures
      var b := 16 * HexDigit(x) + HexDigit(y);
      b < U8_LIMIT && DigitOf(b / 16) == x && DigitOf(b % 16) == y
  {}

  lemma {:induction false} EisaTextOfBytes(b0: byte, b1: byte, b2: byte, b3: byte)
    ensures EisaText(b0 + 0x100 * b1 + 0x1_0000 * b2 + 0x100_0000 * b3) ==
      [0x40 + b0 / 4 % 32, 0x40 + b0 % 4 * 8 + b1 / 32, 0x40 + b1 % 32, DigitOf(b2 / 16), DigitOf(b2 % 16), DigitOf(b3 / 16), DigitOf(b3 % 16)]
  {
    hide DigitOf;
    EisaBytes(b0, b1, b2, b3);
  }

  lemma {:induction false} EisaBytes(b0: byte, b1: byte, b2: byte, b3: byte)
    ensures
      var v := b0 + 0x100 * b1 + 0x1_0000 * b2 + 0x100_0000 * b3;
      v % 0x100 == b0 && v / 0x100 % 0x100 == b1 && v / 0x1_0000 % 0x100 == b2 && v / 0x100_0000 == b3
  {
    var v := b0 + 0x100 * b1 + 0x1_0000 * b2 + 0x100_0000 * b3;
    DivideUnique(v, 0x100, b1 + 0x100 * b2 + 0x1_0000 * b3, b0);
    DivideUnique(b1 + 0x100 * b2 + 0x1_0000 * b3, 0x100, b2 + 0x100 * b3, b1);
    DivideUnique(v, 0x1_0000, b2 + 0x100 * b3, b0 + 0x100 * b1);
    DivideUnique(b2 + 0x100 * b3, 0x100, b3, b2);
    DivideUnique(v, 0x100_0000, b3, b0 + 0x100 * b1 + 0x1_0000 * b2);
  }
}
