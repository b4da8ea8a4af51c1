/** An AML reader, and the proof that it splits the DSDT body into exactly the emitted objects. */
module AmlGrammar {
  import opened Outcomes
  import opened Words
  import opened Buffers
  import opened AcpiCore
  import opened Aml
  import opened DeviceTree
  import opened AcpiDevices
  import opened AcpiWalks

  // ---- the reader ----

  datatype Package = Package(value: nat, size: nat)

  /** A package length: its value and its own size (section 20.2.4 of ACPI 6.5). */
  function PackageAt(s: seq<byte>): (p: Option<Package>)
    ensures p.Some? ==> 1 <= p.value.size <= |s|
  {
    if s == [] then None
    else
      var follow := s[0] / 64;
      if |s| < 1 + follow then None
      else if follow == 0 then Some(Package(s[0] % 64, 1))
      else Some(Package(s[0] % 16 + 16 * LeValue(s[1..1 + follow]), 1 + follow))
  }

  /** The bytes a package length at the start of `s` delimits, after the length itself. */
  function PackageBody(s: seq<byte>): (b: Option<seq<byte>>)
    ensures b.Some? ==> |b.value| < |s| && PackageAt(s).Some? && PackageAt(s).value.size + |b.value| == PackageAt(s).value.value
  {
    var p := PackageAt(s);
    if p.None? || !(p.value.size <= p.value.value <= |s|) then None else Some(s[p.value.size..p.value.value])
  }

  function NulAt(s: seq<byte>): (k: Option<nat>)
    ensures k.Some? ==> k.value < |s|
  {
    if s == [] then None
    else if s[0] == 0 then Some(0)
    else
      var k := NulAt(s[1..]);
      if k.None? then None else Some(k.value + 1)
  }

  /** A buffer's declared size must be what its package holds. */
  function BufferContents(s: seq<byte>): (b: Option<seq<byte>>)
    ensures b.Some? ==> |b.value| < |s|
  {
    var body := PackageBody(s);
    if body.None? then None
    else if |body.value| >= 2 && body.value[0] == BYTE_PREFIX && body.value[1] == |body.value| - 2 then Some(body.value[2..])
    else if |body.value| >= 3 && body.value[0] == WORD_PREFIX && LeValue(body.value[1..3]) == |body.value| - 3 then Some(body.value[3..])
    else None
  }

  /** The length of the data object that starts `s`, if all of it is well-formed. */
  function DataLen(s: seq<byte>): (n: Option<nat>)
    ensures n.Some? ==> 0 < n.value <= |s|
    decreases |s|, 0
  {
    if s == [] then None
    else if s[0] == 0 then Some(1)
    else if s[0] == BYTE_PREFIX then if |s| < 2 then None else Some(2)
    else if s[0] == WORD_PREFIX then if |s| < 3 then None else Some(3)
    else if s[0] == DWORD_PREFIX then if |s| < 5 then None else Some(5)
    else if s[0] == STRING_PREFIX then
      if NulAt(s[1..]).None? then None else Some(NulAt(s[1..]).value + 2)
    else if s[0] == BUFFER_OP then
      if BufferContents(s[1..]).None? then None else Some(1 + PackageAt(s[1..]).value.value)
    else if s[0] == PACKAGE_OP then
      var body := PackageBody(s[1..]);
      if body.None? || body.value == [] || !Elements(body.value[1..], body.value[0]) then None
      else Some(1 + PackageAt(s[1..]).value.value)
    else None
  }

  /** `s` is exactly `n` data objects. */
  predicate Elements(s: seq<byte>, n: nat)
    decreases |s|, 1
  {
    if n == 0 then s == []
    else
      var k := DataLen(s);
      k.Some? && Elements(s[k.value..], n - 1)
  }

  /** A resource template: descriptors by their own lengths, an end tag and nothing more. */
  predicate Template(s: seq<byte>)
    decreases |s|
  {
    if s == [] then false
    else if s[0] == 0x79 then |s| == 2
    else if s[0] >= 0x80 then |s| >= 3 && 3 + LeValue(s[1..3]) <= |s| && Template(s[3 + LeValue(s[1..3])..])
    else s[0] % 8 + 1 <= |s| && Template(s[s[0] % 8 + 1..])
  }

  /** The length of the named object or device that starts `s`. */
  function TermLen(s: seq<byte>): (n: Option<nat>)
    ensures n.Some? ==> 0 < n.value <= |s|
    decreases |s|, 0
  {
    if |s| >= 2 && s[0] == NAME_OP then
      var name := if s[1] == 0x5C then 6 else 5;
      if |s| < name then None
      else if DataLen(s[name..]).None? then None
      else if s[1..name] == Ascii("_CRS") && !IsCrs(s[name..]) then None
      else Some(name + DataLen(s[name..]).value)
    else if |s| >= 2 && s[0] == EXT_OP_PREFIX && s[1] == DEVICE_OP then
      var body := PackageBody(s[2..]);
      if body.None? || |body.value| < 4 || Terms(body.value[4..]).None? then None
      else Some(2 + PackageAt(s[2..]).value.value)
    else None
  }

  /** A buffer that holds a resource template. */
  predicate IsCrs(s: seq<byte>) {
    s != [] && s[0] == BUFFER_OP && BufferContents(s[1..]).Some? && Template(BufferContents(s[1..]).value)
  }

  /** All of `s` as consecutive objects. */
  function Terms(s: seq<byte>): (l: Option<seq<seq<byte>>>)
    decreases |s|, 1
  {
    if s == [] then Some([])
    else if TermLen(s).None? then None
    else
      var k := TermLen(s).value;
      var rest := Terms(s[k..]);
      if rest.None? then None else Some([s[..k]] + rest.value)
  }

  // ---- objects that delimit themselves ----

  ghost predicate IsTerm(x: seq<byte>) { x != [] && forall rest: seq<byte> :: TermLen(x + rest) == Some(|x|) }
  ghost predicate IsData(x: seq<byte>) { x != [] && forall rest: seq<byte> :: DataLen(x + rest) == Some(|x|) }

  ghost predicate AllTerms(l: seq<seq<byte>>) { forall i :: 0 <= i < |l| ==> IsTerm(l[i]) }

  lemma {:induction false} TermsStep(x: seq<byte>, rest: seq<byte>)
    requires IsTerm(x) && Terms(rest).Some?
    ensures Terms(x + rest) == Some([x] + Terms(rest).value)
  {
    hide TermLen;
    assert TermLen(x + rest) == Some(|x|);
    assert (x + rest)[..|x|] == x && (x + rest)[|x|..] == rest;
    assert x + rest != [];
  }

  /** Objects written one after another are read back one after another. */
  lemma {:induction false} TermsOfFlat(l: seq<seq<byte>>, rest: seq<byte>)
    requires AllTerms(l) && Terms(rest).Some?
    ensures Terms(Flat(l) + rest) == Some(l + Terms(rest).value)
    decreases |l|
  {
    hide Terms, IsTerm;
    if l == [] {
      assert Flat(l) + rest == rest && l + Terms(rest).value == Terms(rest).value;
    } else {
      var n := |l| - 1;
      TermsStep(l[n], rest);
      TermsOfFlat(l[..n], l[n] + rest);
      assert Flat(l[..n]) + l[n] + rest == Flat(l[..n]) + (l[n] + rest);
      assert l[..n] + ([l[n]] + Terms(rest).value) == l + Terms(rest).value;
    }
  }

  lemma {:induction false} TermsOfFlatExactly(l: seq<seq<byte>>)
    requires AllTerms(l)
    ensures Terms(Flat(l)) == Some(l)
  {
    hide IsTerm;
    TermsOfFlat(l, []);
    assert Flat(l) + [] == Flat(l) && l + [] == l;
  }

  /** The reader inverts the two-byte package length. */
  lemma {:induction false} PackageAtPkgLength(v: nat, rest: seq<byte>)
    requires v <= 0xFFF
    ensures PackageAt(PkgLength(v) + rest) == Some(Package(v, 2))
  {
    var s := PkgLength(v) + rest;
    assert s[0] == 0x40 + v % 16 && s[1] == v / 16;
    assert s[1..2] == [v / 16];
    assert LeValue([v / 16]) == v / 16 by { assert [v / 16][1..] == []; }
  }

  lemma {:induction false} PackageBodyIs(body: seq<byte>, rest: seq<byte>)
    requires |body| + 2 <= 0xFFF
    ensures
      var s := PkgLength(|body| + 2) + body + rest;
      PackageBody(s) == Some(body) && PackageAt(s).value.value == |body| + 2
  {
    hide PackageAt, PkgLength;
    PackageAtPkgLength(|body| + 2, body + rest);
    var h := PkgLength(|body| + 2);
    assert h + body + rest == h + (body + rest);
    assert (h + body + rest)[2..|body| + 2] == body;
  }

  // ---- data ----

  lemma {:induction false} NulIsFound(s: seq<byte>, rest: seq<byte>)
    requires 0 !in s
    ensures NulAt(s + [0] + rest) == Some(|s|)
  {
    if s == [] {
      assert (s + [0] + rest)[0] == 0;
    } else {
      NulIsFound(s[1..], rest);
      assert (s + [0] + rest)[1..] == s[1..] + [0] + rest && (s + [0] + rest)[0] == s[0] && s[0] in s;
    }
  }

  lemma {:induction false} StringIsData(s: seq<byte>)
    requires 0 !in s
    ensures IsData(AmlString(s))
  {
    forall rest: seq<byte> ensures DataLen(AmlString(s) + rest) == Some(|s| + 2) {
      NulIsFound(s, rest);
      assert (AmlString(s) + rest)[1..] == s + [0] + rest;
    }
  }

  lemma {:induction false} DwordIsData(v: u32)
    ensures IsData([DWORD_PREFIX] + Le32(v))
  {
    hide Le32;
  }

  lemma {:induction false} ByteBufferIsData(v: seq<byte>)
    requires |v| < U8_LIMIT
    ensures IsData(ByteBuffer(v))
  {
    hide PkgLength, PackageAt, PackageBody;
    forall rest: seq<byte> ensures DataLen(ByteBuffer(v) + rest) == Some(|v| + 5) {
      var body := [BYTE_PREFIX, |v|] + v;
      PackageBodyIs(body, rest);
      assert (ByteBuffer(v) + rest)[1..] == PkgLength(|body| + 2) + body + rest;
    }
  }

  /** `|l|` data objects in a package. */
  function PackageOf(n: byte, elements: seq<byte>): (b: seq<byte>)
    requires |elements| + 3 <= 0xFFF
  {
    [PACKAGE_OP] + PkgLength(PKG_LENGTH_BYTES + 1 + |elements|) + ([n] + elements)
  }

  lemma {:induction false} PackageIsData(n: byte, elements: seq<byte>)
    requires |elements| + 3 <= 0xFFF && Elements(elements, n)
    ensures IsData(PackageOf(n, elements)) && |PackageOf(n, elements)| == |elements| + 4
  {
    hide PkgLength, PackageAt, PackageBody, Elements;
    forall rest: seq<byte> ensures DataLen(PackageOf(n, elements) + rest) == Some(|elements| + 4) {
      var body := [n] + elements;
      PackageBodyIs(body, rest);
      assert (PackageOf(n, elements) + rest)[1..] == PkgLength(|body| + 2) + body + rest;
      assert body[1..] == elements;
    }
  }

  lemma {:induction false} ElementsStep(x: seq<byte>, s: seq<byte>, n: nat)
    requires IsData(x) && Elements(s, n)
    ensures Elements(x + s, n + 1)
  {
    hide DataLen;
    assert DataLen(x + s) == Some(|x|);
    assert (x + s)[|x|..] == s;
  }

  lemma {:induction false} NoElements()
    ensures Elements([], 0)
  {}

  lemma {:induction false} PropertyIsData(name: seq<byte>, v: u32)
    requires |name| < U8_LIMIT && 0 !in name
    ensures IsData(DwordProperty(name, v))
  {
    hide IsData, Elements, PkgLength, AmlString, Le32;
    var x, y := AmlString(name), [DWORD_PREFIX] + Le32(v);
    StringIsData(name);
    DwordIsData(v);
    NoElements();
    ElementsStep(y, [], 0);
    assert y + [] == y;
    ElementsStep(x, y, 1);
    PackageIsData(2, x + y);
    assert DwordProperty(name, v) == PackageOf(2, x + y);
  }

  lemma {:induction false} AsciiHasNoNul(s: string)
    requires forall i :: 0 <= i < |s| ==> 0 as char < s[i] < 128 as char
    ensures 0 !in Ascii(s)
  {}

  lemma {:induction false} PropertiesAreData(clock: u32, shift: u32, width: u32)
    ensures IsData(PropertiesPackage(clock, shift, width))
  {
    hide IsData, Elements, PkgLength, DwordProperty, Ascii;
    AsciiHasNoNul("clock-frequency");
    AsciiHasNoNul("reg-shift");
    AsciiHasNoNul("reg-io-width");
    var x, y, z := DwordProperty(Ascii("clock-frequency"), clock), DwordProperty(Ascii("reg-shift"), shift), DwordProperty(Ascii("reg-io-width"), width);
    PropertyIsData(Ascii("clock-frequency"), clock);
    PropertyIsData(Ascii("reg-shift"), shift);
    PropertyIsData(Ascii("reg-io-width"), width);
    NoElements();
    ElementsStep(z, [], 0);
    assert z + [] == z;
    ElementsStep(y, z, 1);
    ElementsStep(x, y + z, 2);
    assert x + y + z == x + (y + z);
    PackageIsData(3, x + y + z);
    assert PropertiesPackage(clock, shift, width) == PackageOf(3, x + y + z);
  }

  // ---- names ----

  /** A plain four-byte name that is not a resource template's. */
  predicate Plain(name: seq<byte>) { |name| == 4 && name[0] != 0x5C && name != Ascii("_CRS") }

  lemma {:induction false} NamedDataIsTerm(name: seq<byte>, x: seq<byte>)
    requires Plain(name) && IsData(x)
    ensures IsTerm([NAME_OP] + name + x)
  {
    hide DataLen, Ascii, IsCrs;
    forall rest: seq<byte> ensures TermLen([NAME_OP] + name + x + rest) == Some(5 + |x|) {
      var s := [NAME_OP] + name + x + rest;
      assert s[5..] == x + rest && s[1..5] == name;
      assert DataLen(x + rest) == Some(|x|);
    }
  }

  lemma {:induction false} PlainNames()
    ensures Plain(Ascii("_HID")) && Plain(Ascii("_CID")) && Plain(Ascii("_SEG")) && Plain(Ascii("_UID")) && Plain(Ascii("_BBN")) && Plain(Ascii("_DSD"))
  {
    assert Ascii("_CRS")[1] == 0x43 && Ascii("_CRS")[2] == 0x52;
    assert Ascii("_HID")[1] == 0x48 && Ascii("_CID")[2] == 0x49 && Ascii("_SEG")[1] == 0x53;
    assert Ascii("_UID")[1] == 0x55 && Ascii("_BBN")[1] == 0x42 && Ascii("_DSD")[1] == 0x44;
  }

  lemma {:induction false} NameByteIsTerm(name: NameSeg, v: byte)
    requires Plain(name)
    ensures IsTerm(NameByte(name, v))
  {
    hide IsTerm, Plain;
    assert IsData([BYTE_PREFIX, v]);
    NamedDataIsTerm(name, [BYTE_PREFIX, v]);
  }

  lemma {:induction false} NameDwordIsTerm(name: NameSeg, v: u32)
    requires Plain(name)
    ensures IsTerm(NameDword(name, v))
  {
    hide IsTerm, Plain, IsData, Le32;
    DwordIsData(v);
    NamedDataIsTerm(name, [DWORD_PREFIX] + Le32(v));
    assert NameDword(name, v) == [NAME_OP] + name + ([DWORD_PREFIX] + Le32(v));
  }

  lemma {:induction false} NameStringIsTerm(name: NameSeg, s: seq<byte>)
    requires Plain(name) && 0 !in s
    ensures IsTerm(NameString(name, s))
  {
    hide IsTerm, Plain, IsData, AmlString;
    StringIsData(s);
    NamedDataIsTerm(name, AmlString(s));
  }

  lemma {:induction false} DsdIsTerm(clock: u32, shift: u32, width: u32)
    ensures IsTerm(Dsd(clock, shift, width))
  {
    hide IsTerm, Plain, IsData, Elements, PkgLength, ByteBuffer, PropertiesPackage, Ascii;
    PlainNames();
    ByteBufferIsData(UUID);
    PropertiesAreData(clock, shift, width);
    var x, y := ByteBuffer(UUID), PropertiesPackage(clock, shift, width);
    NoElements();
    ElementsStep(y, [], 0);
    assert y + [] == y;
    ElementsStep(x, y, 1);
    PackageIsData(2, x + y);
    NamedDataIsTerm(Ascii("_DSD"), PackageOf(2, x + y));
    assert Dsd(clock, shift, width) == [NAME_OP] + Ascii("_DSD") + PackageOf(2, x + y);
  }

  // ---- resource templates ----

  lemma {:induction false} CrsIsTerm(descriptors: seq<byte>)
    requires |descriptors| <= 0xFFA && Template(descriptors)
    ensures IsTerm(CrsHeader(|descriptors|) + descriptors)
  {
    hide PkgLength, PackageAt, PackageBody, Template, Ascii, Le16, LeValue;
    var n := |descriptors|;
    FixedWidthRoundTrip(n);
    forall rest: seq<byte> ensures TermLen(CrsHeader(n) + descriptors + rest) == Some(CRS_WRAPPER_BYTES + n) {
      var body := [WORD_PREFIX] + Le16(n) + descriptors;
      var s := CrsHeader(n) + descriptors + rest;
      PackageBodyIs(body, rest);
      CrsLead();
      assert s[1..5] == Ascii("_CRS") && s[5] == BUFFER_OP && s[5..][1..] == PkgLength(|body| + 2) + body + rest;
      assert body[1..3] == Le16(n) && body[3..] == descriptors;
    }
  }

  lemma {:induction false} CrsLead()
    ensures Ascii("_CRS")[0] == 0x5F
  {}

  lemma {:induction false} EndTagIsTemplate()
    ensures Template(EndTag())
  {}

  lemma {:induction false} SmallWord(v: byte)
    ensures LeValue([v, 0]) == v
  {
    assert [v, 0][1..] == [0];
    assert LeValue([v, 0][1..]) == 0;
  }

  lemma {:induction false} LargeDescriptor(x: seq<byte>, rest: seq<byte>)
    requires |x| >= 3 && x[0] >= 0x80 && x[1] == |x| - 3 && x[2] == 0 && Template(rest)
    ensures Template(x + rest)
  {
    var s := x + rest;
    assert s[1..3] == [x[1], 0];
    SmallWord(x[1]);
    assert s[|x|..] == rest;
  }

  lemma {:induction false} DescriptorShapes(base: u64, size: u64, gsi: u32, sense: u32, rest: seq<byte>)
    requires Template(rest)
    ensures base + size < U32_LIMIT ==> Template(DwordMemory(base, size) + rest)
    ensures base + size < U64_LIMIT ==> Template(QwordMemory(base, size) + rest)
    ensures Template(ExtendedInterrupt(gsi, sense) + rest)
  {
    hide Template, Le32, Le64, LastOf;
    if base + size < U32_LIMIT { LargeDescriptor(DwordMemory(base, size), rest); }
    if base + size < U64_LIMIT { LargeDescriptor(QwordMemory(base, size), rest); }
    LargeDescriptor(ExtendedInterrupt(gsi, sense), rest);
  }

  lemma {:induction false} BusIsDescriptor(min: byte, max: byte, rest: seq<byte>)
    requires Template(rest)
    ensures Template(WordBusNumber(min, max) + rest)
  {
    hide Template, Le16, BusCount;
    LargeDescriptor(WordBusNumber(min, max), rest);
  }

  lemma {:induction false} WindowIsDescriptor(r: PciRange, rest: seq<byte>)
    requires WindowBytes(r).Some? && Template(rest)
    ensures Template(WindowBytes(r).value + rest)
  {
    hide Template, DwordMemory, QwordMemory;
    DescriptorShapes(r.parent, r.size, 0, 0, rest);
    assert [] + rest == rest;
  }

  lemma {:induction false} WindowsAreDescriptors(ranges: seq<PciRange>, rest: seq<byte>)
    requires WindowsBytes(ranges).Some? && Template(rest)
    ensures Template(WindowsBytes(ranges).value + rest)
    decreases |ranges|
  {
    hide Template, WindowBytes, WindowsCost, WindowCost;
    if ranges == [] {
      assert WindowsBytes(ranges).value + rest == rest;
    } else {
      var (front, r) := (ranges[..|ranges| - 1], ranges[|ranges| - 1]);
      var (a, last) := (WindowsBytes(front).value, WindowBytes(r).value);
      WindowIsDescriptor(r, rest);
      WindowsAreDescriptors(front, last + rest);
      assert a + last + rest == a + (last + rest);
    }
  }

  // ---- devices ----

  lemma {:induction false} DeviceIsTerm(name: NameSeg, parts: seq<seq<byte>>)
    requires AllTerms(parts) && |Flat(parts)| + 6 <= 0xFFF
    ensures IsTerm(DeviceHeader(name, |Flat(parts)| + 8) + Flat(parts))
  {
    hide PkgLength, PackageAt, PackageBody, Terms, AllTerms, Flat;
    TermsOfFlatExactly(parts);
    var body := name + Flat(parts);
    var d := DeviceHeader(name, |Flat(parts)| + 8) + Flat(parts);
    forall rest: seq<byte> ensures TermLen(d + rest) == Some(|d|) {
      PackageBodyIs(body, rest);
      assert (d + rest)[2..] == PkgLength(|body| + 2) + body + rest;
      assert body[4..] == Flat(parts);
    }
  }

  lemma {:induction false} FlatThree(a: seq<byte>, b: seq<byte>, c: seq<byte>)
    ensures Flat([a, b, c]) == a + b + c
  {
    FlatOne(a);
    assert [a, b][..1] == [a] && [a, b, c][..2] == [a, b];
  }

  lemma {:induction false} FlatMore(l: seq<seq<byte>>, x: seq<byte>)
    ensures Flat(l + [x]) == Flat(l) + x
  {
    assert (l + [x])[..|l|] == l;
  }

  lemma {:induction false} MotherboardIsTerm(index: byte, base: u64, size: u64)
    requires base + size < U64_LIMIT
    ensures IsTerm(MotherboardDevice(index, base, size))
  {
    hide IsTerm, DeviceHeader, NameDword, NameByte, CrsHeader, QwordMemory, EndTag, Ascii, EisaId, NameSegIndexed, Plain, Template, Flat;
    var hid, uid := NameDword(Ascii("_HID"), EisaId(Ascii("PNP0C02"))), NameByte(Ascii("_UID"), index);
    var descriptors := QwordMemory(base, size) + EndTag();
    var crs := CrsHeader(|descriptors|) + descriptors;
    PlainNames();
    NameDwordIsTerm(Ascii("_HID"), EisaId(Ascii("PNP0C02")));
    NameByteIsTerm(Ascii("_UID"), index);
    EndTagIsTemplate();
    DescriptorShapes(base, size, 0, 0, EndTag());
    CrsIsTerm(descriptors);
    FlatThree(hid, uid, crs);
    DeviceIsTerm(NameSegIndexed(Ascii("MBR"), index), [hid, uid, crs]);
    var h := DeviceHeader(NameSegIndexed(Ascii("MBR"), index), MOTHERBOARD_BYTES);
    assert h + hid + uid + CrsHeader(MOTHERBOARD_CRS) + QwordMemory(base, size) + EndTag() == h + (hid + uid + crs);
  }

  lemma {:induction false} UartCrsIsTerm(base: u64, size: u64, gsi: u32, sense: u32)
    requires base + size < U64_LIMIT
    ensures IsTerm(UartCrs(base, size, gsi, sense))
  {
    hide IsTerm, CrsHeader, QwordMemory, ExtendedInterrupt, EndTag, Template;
    EndTagIsTemplate();
    DescriptorShapes(0, 0, gsi, sense, EndTag());
    var irq := ExtendedInterrupt(gsi, sense) + EndTag();
    DescriptorShapes(base, size, 0, 0, irq);
    CrsIsTerm(QwordMemory(base, size) + irq);
    assert UartCrs(base, size, gsi, sense) == CrsHeader(UART_CRS) + (QwordMemory(base, size) + irq);
  }

  lemma {:induction false} HidIsTerm(id: string)
    requires forall i :: 0 <= i < |id| ==> 0 as char < id[i] < 128 as char
    ensures IsTerm(NameString(Ascii("_HID"), Ascii(id)))
  {
    hide IsTerm, Plain, NameString;
    PlainNames();
    AsciiHasNoNul(id);
    NameStringIsTerm(Ascii("_HID"), Ascii(id));
  }

  lemma {:induction false} UidIsTerm(index: byte)
    ensures IsTerm(NameByte(Ascii("_UID"), index))
  {
    hide IsTerm, Plain, NameByte;
    PlainNames();
    NameByteIsTerm(Ascii("_UID"), index);
  }

  lemma {:induction false} VirtioIsTerm(n: Node, index: byte)
    requires VirtioFits(n)
    ensures IsTerm(VirtioDevice(n, index))
  {
    hide IsTerm, DeviceHeader, NameString, NameByte, UartCrs, Ascii, VirtioName, Flat;
    var (reg, irq) := (FirstReg(n).value, n.interrupts.value);
    var hid, uid, crs := NameString(Ascii("_HID"), Ascii("LNRO0005")), NameByte(Ascii("_UID"), index), UartCrs(reg.0, reg.1, irq.0, irq.1);
    HidIsTerm("LNRO0005");
    UidIsTerm(index);
    UartCrsIsTerm(reg.0, reg.1, irq.0, irq.1);
    FlatThree(hid, uid, crs);
    DeviceIsTerm(VirtioName(index), [hid, uid, crs]);
    var h := DeviceHeader(VirtioName(index), VIRTIO_BYTES);
    assert h + hid + uid + crs == h + (hid + uid + crs);
  }

  lemma {:induction false} SerialIsTerm(n: Node)
    requires SerialFits(n)
    ensures IsTerm(SerialDevice(n))
  {
    hide IsTerm, DeviceHeader, NameString, NameByte, UartCrs, Ascii, Dsd, Flat;
    var (reg, irq) := (FirstReg(n).value, n.interrupts.value);
    var hid, uid, crs := NameString(Ascii("_HID"), Ascii("RSCV0003")), NameByte(Ascii("_UID"), 0), UartCrs(reg.0, reg.1, irq.0, irq.1);
    var dsd := Dsd(n.clockFrequency.value, n.regShift.value, n.regIoWidth.value);
    HidIsTerm("RSCV0003");
    UidIsTerm(0);
    UartCrsIsTerm(reg.0, reg.1, irq.0, irq.1);
    DsdIsTerm(n.clockFrequency.value, n.regShift.value, n.regIoWidth.value);
    FlatThree(hid, uid, crs);
    FlatMore([hid, uid, crs], dsd);
    DeviceIsTerm(Ascii("SER0"), [hid, uid, crs] + [dsd]);
    var h := DeviceHeader(Ascii("SER0"), SERIAL_BYTES);
    assert h + hid + uid + crs + dsd == h + (hid + uid + crs + dsd);
  }

  function HostParts(segment: byte, bus: byte): seq<seq<byte>> {
    [NameDword(Ascii("_HID"), EisaId(Ascii("PNP0A08"))), NameDword(Ascii("_CID"), EisaId(Ascii("PNP0A03"))), NameByte(Ascii("_SEG"), segment)]
    + [NameByte(Ascii("_UID"), segment)] + [NameByte(Ascii("_BBN"), bus)]
  }

  lemma {:induction false} HostPartsAreTerms(segment: byte, bus: byte)
    ensures AllTerms(HostParts(segment, bus)) && Flat(HostParts(segment, bus)) == HostNames(segment, bus)
  {
    hide IsTerm, NameDword, NameByte, Ascii, EisaId, Plain, Flat;
    var a, b := NameDword(Ascii("_HID"), EisaId(Ascii("PNP0A08"))), NameDword(Ascii("_CID"), EisaId(Ascii("PNP0A03")));
    var c, d, e := NameByte(Ascii("_SEG"), segment), NameByte(Ascii("_UID"), segment), NameByte(Ascii("_BBN"), bus);
    PlainNames();
    NameDwordIsTerm(Ascii("_HID"), EisaId(Ascii("PNP0A08")));
    NameDwordIsTerm(Ascii("_CID"), EisaId(Ascii("PNP0A03")));
    NameByteIsTerm(Ascii("_SEG"), segment);
    NameByteIsTerm(Ascii("_UID"), segment);
    NameByteIsTerm(Ascii("_BBN"), bus);
    FlatThree(a, b, c);
    FlatMore([a, b, c], d);
    FlatMore([a, b, c] + [d], e);
  }

  lemma {:induction false} HostCrsIsTerm(n: Node)
    requires HostFits(n)
    ensures
      var windows := WindowsBytes(n.ranges.value).value;
      var descriptors := WordBusNumber(n.busRange.value.0, n.busRange.value.1) + windows + EndTag();
      IsTerm(CrsHeader(HostCrs(|windows|)) + descriptors)
  {
    hide IsTerm, CrsHeader, WordBusNumber, EndTag, Template, WindowsBytes, WindowsCost;
    var windows := WindowsBytes(n.ranges.value).value;
    var bus := WordBusNumber(n.busRange.value.0, n.busRange.value.1);
    EndTagIsTemplate();
    WindowsAreDescriptors(n.ranges.value, EndTag());
    BusIsDescriptor(n.busRange.value.0, n.busRange.value.1, windows + EndTag());
    assert bus + windows + EndTag() == bus + (windows + EndTag());
    CrsIsTerm(bus + windows + EndTag());
  }

  lemma {:induction false} HostBridgeIsTerm(n: Node, segment: byte)
    requires HostFits(n)
    ensures IsTerm(HostBridgeDevice(n, segment))
  {
    hide IsTerm, DeviceHeader, HostNames, CrsHeader, WordBusNumber, EndTag, Ascii, NameSegIndexed, WindowsBytes, WindowsCost, Flat, HostParts;
    var windows := WindowsBytes(n.ranges.value).value;
    var bus := WordBusNumber(n.busRange.value.0, n.busRange.value.1);
    var names, crs := HostNames(segment, n.busRange.value.0), CrsHeader(HostCrs(|windows|)) + (bus + windows + EndTag());
    var parts := HostParts(segment, n.busRange.value.0);
    HostPartsAreTerms(segment, n.busRange.value.0);
    HostCrsIsTerm(n);
    FlatMore(parts, crs);
    DeviceIsTerm(NameSegIndexed(Ascii("PCI"), segment), parts + [crs]);
    var h := DeviceHeader(NameSegIndexed(Ascii("PCI"), segment), HostBridgeBytes(|windows|));
    assert h + names + CrsHeader(HostCrs(|windows|)) + bus + windows + EndTag() == h + (names + crs);
  }

  lemma {:induction false} S5IsTerm(sleep: byte)
    ensures IsTerm(S5(sleep))
  {
    hide Elements, PackageAt, PackageBody;
    forall rest: seq<byte> ensures TermLen(S5(sleep) + rest) == Some(S5_BYTES) {
      var s := S5(sleep) + rest;
      var tail := s[6..];
      assert tail[0] == PACKAGE_OP && tail[1..] == [6, 3, BYTE_PREFIX, sleep / 4 % 8, 0, 0] + rest;
      S5Package(sleep / 4 % 8, rest);
      assert s[1..6] != Ascii("_CRS");
    }
  }

  lemma {:induction false} S5Package(v: byte, rest: seq<byte>)
    ensures
      var s := [6, 3, BYTE_PREFIX, v, 0, 0] + rest;
      PackageBody(s) == Some([3, BYTE_PREFIX, v, 0, 0]) && PackageAt(s).value.value == 6 && Elements([BYTE_PREFIX, v, 0, 0], 3)
  {
    var s := [6, 3, BYTE_PREFIX, v, 0, 0] + rest;
    assert s[1..6] == [3, BYTE_PREFIX, v, 0, 0];
    NoElements();
    assert IsData([0]) && IsData([BYTE_PREFIX, v]);
    ElementsStep([0], [], 0);
    ElementsStep([0], [0], 1);
    ElementsStep([BYTE_PREFIX, v], [0, 0], 2);
    assert [BYTE_PREFIX, v] + [0, 0] == [BYTE_PREFIX, v, 0, 0] && [0] + [0] == [0, 0];
    hide Elements, IsData;
  }

  lemma {:induction false} WalkIsTerms(f: Walk, children: seq<Node>)
    requires Blocks(f, children).Some? && IsDevices(f)
    ensures AllTerms(Blocks(f, children).value)
  {
    hide IsTerm, BlockOf, Wants;
    if children != [] {
      var (front, n) := (children[..|children| - 1], children[|children| - 1]);
      WalkIsTerms(f, front);
      if Wants(f, n).value { BlockIsTerm(f, n, NextIndex(f, Blocks(f, front).value)); }
    }
  }

  lemma {:induction false} BlockIsTerm(f: Walk, n: Node, index: byte)
    requires BlockOf(f, n, index).Some? && IsDevices(f)
    ensures IsTerm(BlockOf(f, n, index).value)
  {
    hide IsTerm, MotherboardDevice, HostBridgeDevice, VirtioDevice, HostFits, VirtioFits;
    match f
    case Motherboard => MotherboardIsTerm(index, FirstReg(n).value.0, FirstReg(n).value.1);
    case HostBridge => HostBridgeIsTerm(n, index);
    case Virtio => VirtioIsTerm(n, index);
  }

  /** Every package length of the DSDT reads back: its body splits into the soft-off object and one
      well-formed device a node, in tree order, with nothing left over at any level. */
  lemma {:induction false} DsdtParses(sleep: byte, children: seq<Node>)
    requires Devices(children).Some?
    ensures Terms(DsdtBody(sleep, children)) == Some([S5(sleep)] + Devices(children).value)
  {
    hide IsTerm, Blocks, FindSerial, SerialDevice, SerialFits, Flat, S5;
    S5IsTerm(sleep);
    WalkIsTerms(Motherboard, children);
    WalkIsTerms(HostBridge, children);
    WalkIsTerms(Virtio, children);
    var serial := FindSerial(children).value;
    if serial.Some? { SerialIsTerm(serial.value); }
    var l := [S5(sleep)] + Devices(children).value;
    assert AllTerms(l);
    FlatOne(S5(sleep));
    FlatJoin([S5(sleep)], Devices(children).value);
    TermsOfFlatExactly(l);
  }

  // ---- names ----

  /** The characters of a name segment: letters and underscore, then also digits (section 20.2.2 of ACPI 6.5). */
  predicate IsNameSeg(n: seq<byte>) {
    |n| == 4 && IsNameLead(n[0]) && forall i :: 1 <= i < 4 ==> IsNameLead(n[i]) || 0x30 <= n[i] <= 0x39
  }

  predicate IsNameLead(c: byte) { c == 0x5F || 0x41 <= c <= 0x5A }

  /** Indexed names are valid segments below index 36 and, by the accident that `_` follows, at 40;
      the first 201 are distinct. */
  lemma {:induction false} IndexedNames(prefix: seq<byte>, i: byte, j: byte)
    requires |prefix| == 3 && forall k :: 0 <= k < 3 ==> IsNameLead(prefix[k])
    ensures IsNameSeg(NameSegIndexed(prefix, i)) <==> i < 36 || i == 40
    ensures i < j ==> (NameSegIndexed(prefix, i) == NameSegIndexed(prefix, j) <==> i >= 200)
  {
    var n := NameSegIndexed(prefix, i);
    assert n[0] == prefix[0] && n[1] == prefix[1] && n[2] == prefix[2];
    assert NameSegIndexed(prefix, j)[3] != n[3] || i >= 200 || i >= j;
  }

  lemma {:induction false} VirtioNames(i: byte, j: byte)
    ensures IsNameSeg(VirtioName(i)) <==> i < 100 || i >= 170
    ensures VirtioName(i) == VirtioName(j) ==> i == j
  {
    var n := VirtioName(i);
    assert n[2] == 0x30 + i / 10 && n[3] == 0x30 + i % 10;
    assert VirtioName(j)[2] == 0x30 + j / 10 && VirtioName(j)[3] == 0x30 + j % 10;
  }
}
