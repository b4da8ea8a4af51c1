/** The PE32+ writer: headers, section data at aligned file offsets, COFF string table. */
module Pe {
  import opened Outcomes
  import opened Words
  import opened Buffers

  type u16 = x: nat | x < U16_LIMIT
  type u32 = x: nat | x < U32_LIMIT
  type u64 = x: nat | x < U64_LIMIT

  datatype Section = Section(name: seq<byte>, vaddr: u64, virtualSize: u64, data: seq<byte>,
                             characteristics: u32, nonLoaded: bool)
  {
    predicate IsZeroShape() { data == [] }
  }

  datatype PeError = TooManySections | NulInName | StringTableOffsetTooLarge | Overflow

  const FILE_ALIGNMENT: nat := 0x1000
  const SECTION_ALIGNMENT: nat := 0x1000
  const LARGE_ALIGNMENT: nat := 0x20_0000
  const SECTION_HDR_SIZE: nat := 40
  /** DOS header, signature, COFF header, optional header. */
  const FIXED_HDR_SIZE: nat := 64 + 4 + 20 + 240

  /** A loaded section with data whose memory extent reaches 2 MiB. */
  predicate IsLargePayload(s: Section) {
    && !s.nonLoaded && !s.IsZeroShape()
    && (s.virtualSize >= LARGE_ALIGNMENT || |s.data| >= LARGE_ALIGNMENT)
  }

  function AlignmentFor(s: Section): (a: nat)
    ensures a == FILE_ALIGNMENT || a == LARGE_ALIGNMENT
    ensures IsLargePayload(s) <==> a == LARGE_ALIGNMENT
  {
    if IsLargePayload(s) then LARGE_ALIGNMENT else FILE_ALIGNMENT
  }

  // ---- decimal offsets in long-name fields ----

  /** The decimal digits of `n`, as ASCII. */
  function Decimal(n: nat): (s: seq<byte>)
    ensures |s| > 0 && forall i :: 0 <= i < |s| ==> 0x30 <= s[i] <= 0x39
  {
    if n < 10 then [0x30 + n] else Decimal(n / 10) + [0x30 + n % 10]
  }

  function ParseDecimal(s: seq<byte>): nat
    requires forall i :: 0 <= i < |s| ==> 0x30 <= s[i] <= 0x39
  {
    if s == [] then 0 else 10 * ParseDecimal(s[..|s| - 1]) + (s[|s| - 1] - 0x30)
  }

  lemma {:induction false} DecimalRoundTrip(n: nat)
    ensures ParseDecimal(Decimal(n)) == n
  {
    if n < 10 {
      assert Decimal(n)[..0] == [];
    } else {
      DecimalRoundTrip(n / 10);
      assert Decimal(n)[..|Decimal(n)| - 1] == Decimal(n / 10);
    }
  }

  // ---- string table ----

  /** The string table once the first `i` sections are named; the size prefix is still zero. */
  function Strings(sections: seq<Section>, i: nat): (t: seq<byte>)
    requires i <= |sections|
    ensures |t| >= 4
  {
    if i == 0 then NoStrings() else AddString(Strings(sections, i - 1), sections[i - 1].name)
  }

  function NoStrings(): (t: seq<byte>)
    ensures |t| == 4
  {
    [0, 0, 0, 0]
  }

  /** Long names go into the table, each with its NUL. */
  function AddString(t: seq<byte>, name: seq<byte>): (u: seq<byte>)
    ensures |t| <= |u|
  {
    if |name| <= 8 then t else t + name + [0]
  }

  /** The 8-byte name field of section `i`: the name itself, or `/N`. */
  function NameField(sections: seq<Section>, i: nat): (f: seq<byte>)
    requires i < |sections| && NameFits(sections, i)
    ensures |f| == 8
  {
    Pad8(NameText(sections, i))
  }

  function Pad8(text: seq<byte>): (f: seq<byte>)
    requires |text| <= 8
    ensures |f| == 8
  {
    text + Zeros(8 - |text|)
  }

  function NameText(sections: seq<Section>, i: nat): (f: seq<byte>)
    requires i < |sections|
  {
    TextFor(sections[i].name, |Strings(sections, i)|)
  }

  /** The name, or a slash and its decimal string-table offset when it is longer than 8 bytes. */
  function TextFor(name: seq<byte>, offset: nat): seq<byte> {
    if |name| <= 8 then name else [0x2F] + Decimal(offset)
  }

  /** The name fields of the first `i` sections. */
  function NameFields(sections: seq<Section>, i: nat): (f: seq<seq<byte>>)
    requires i <= |sections|
    ensures |f| == i
  {
    if i == 0 then [] else
      NameFields(sections, i - 1) + [if NameFits(sections, i - 1) then NameField(sections, i - 1) else []]
  }

  predicate NameFits(sections: seq<Section>, i: nat)
    requires i < |sections|
  {
    |NameText(sections, i)| <= 8
  }

  predicate NamesFit(sections: seq<Section>) {
    forall i :: 0 <= i < |sections| ==> NameFits(sections, i)
  }

  /** The finished string table: its length first. */
  function StringTable(sections: seq<Section>): (t: seq<byte>) {
    var strings := Strings(sections, |sections|);
    Le32(|strings|) + strings[4..]
  }

  predicate NeedStrings(sections: seq<Section>) { |Strings(sections, |sections|)| > 4 }

  // ---- file layout ----

  function HeaderSize(sections: seq<Section>): nat {
    AlignUp(FIXED_HDR_SIZE + |sections| * SECTION_HDR_SIZE, FILE_ALIGNMENT)
  }

  function RawSize(s: Section): nat {
    if s.IsZeroShape() then 0 else AlignUp(|s.data|, FILE_ALIGNMENT)
  }

  /** The first free file offset once `i` sections are placed. */
  function Cursor(sections: seq<Section>, i: nat): nat
    requires i <= |sections|
  {
    if i == 0 then HeaderSize(sections)
    else if sections[i - 1].IsZeroShape() then Cursor(sections, i - 1)
    else AlignUp(Cursor(sections, i - 1), AlignmentFor(sections[i - 1])) + RawSize(sections[i - 1])
  }

  function RawOffset(sections: seq<Section>, i: nat): nat
    requires i < |sections|
  {
    if sections[i].IsZeroShape() then 0 else AlignUp(Cursor(sections, i), AlignmentFor(sections[i]))
  }

  function RawOffsets(sections: seq<Section>, i: nat): (s: seq<nat>)
    requires i <= |sections|
    ensures |s| == i
  {
    seq(i, k requires 0 <= k < i => RawOffset(sections, k))
  }

  function RawSizes(sections: seq<Section>, i: nat): (s: seq<nat>)
    requires i <= |sections|
    ensures |s| == i
  {
    seq(i, k requires 0 <= k < i => RawSize(sections[k]))
  }

  /** No 32-bit step of placing section `i` overflows. */
  predicate PlacementFits(sections: seq<Section>, i: nat)
    requires i < |sections|
  {
    var s := sections[i];
    s.IsZeroShape() ||
    (&& Cursor(sections, i) + (AlignmentFor(s) - 1) < U32_LIMIT
     && |s.data| + (FILE_ALIGNMENT - 1) < U32_LIMIT
     && RawOffset(sections, i) + RawSize(s) < U32_LIMIT)
  }

  predicate LayoutFits(sections: seq<Section>) {
    && FIXED_HDR_SIZE + |sections| * SECTION_HDR_SIZE + (FILE_ALIGNMENT - 1) < U32_LIMIT
    && (forall i :: 0 <= i < |sections| ==> PlacementFits(sections, i))
    && (NeedStrings(sections) ==> Cursor(sections, |sections|) + |StringTable(sections)| < U32_LIMIT)
  }

  function StringsOffset(sections: seq<Section>): nat {
    if NeedStrings(sections) then Cursor(sections, |sections|) else 0
  }

  // ---- header fields ----

  /** Whether the `bit`-th characteristics flag is set. */
  predicate HasFlag(c: u32, bit: nat)
    requires bit > 0
  {
    (c / bit) % 2 == 1
  }

  const CNT_CODE: nat := 0x20
  const CNT_INITIALIZED_DATA: nat := 0x40
  const CNT_UNINITIALIZED_DATA: nat := 0x80

  /** What section `s` adds to the optional header's size field for `flag`. */
  function FlagBytes(s: Section, flag: nat): nat
    requires flag > 0
  {
    if !HasFlag(s.characteristics, flag) then 0
    else if flag == CNT_UNINITIALIZED_DATA then AlignUp(s.virtualSize, SECTION_ALIGNMENT)
    else AlignUp(|s.data|, AlignmentFor(s))
  }

  function FlagTotal(sections: seq<Section>, i: nat, flag: nat): nat
    requires i <= |sections| && flag > 0
  {
    if i == 0 then 0 else FlagTotal(sections, i - 1, flag) + FlagBytes(sections[i - 1], flag)
  }

  /** No 32-bit step of adding section `i` to the size fields overflows. */
  predicate TotalsFit(sections: seq<Section>, i: nat)
    requires i < |sections|
  {
    var s := sections[i];
    && (HasFlag(s.characteristics, CNT_CODE) || HasFlag(s.characteristics, CNT_INITIALIZED_DATA) ==>
          |s.data| < U32_LIMIT && |s.data| + (AlignmentFor(s) - 1) < U32_LIMIT)
    && (HasFlag(s.characteristics, CNT_UNINITIALIZED_DATA) ==> s.virtualSize + (SECTION_ALIGNMENT - 1) < U32_LIMIT)
    && FlagTotal(sections, i + 1, CNT_CODE) < U32_LIMIT
    && FlagTotal(sections, i + 1, CNT_INITIALIZED_DATA) < U32_LIMIT
    && FlagTotal(sections, i + 1, CNT_UNINITIALIZED_DATA) < U32_LIMIT
  }

  predicate AddressesFit(s: Section) {
    (s.nonLoaded || s.vaddr < U32_LIMIT) && s.virtualSize < U32_LIMIT
  }

  function SaturatingAlignUp(v: nat, a: nat): (r: u64)
    requires v < U64_LIMIT && a > 0
  {
    var sum := if v + (a - 1) < U64_LIMIT then v + (a - 1) else U64_LIMIT - 1;
    AlignDown(sum, a)
  }

  function SectionEnd(s: Section): (e: u64) {
    var end := s.vaddr + SaturatingAlignUp(s.virtualSize, SECTION_ALIGNMENT);
    if end < U64_LIMIT then end else U64_LIMIT - 1
  }

  /** The highest memory end over the first `i` loaded sections, at least the headers. */
  function ImageEnd(sections: seq<Section>, i: nat): (e: u64)
    requires i <= |sections| && HeaderSize(sections) < U64_LIMIT
  {
    if i == 0 then HeaderSize(sections) else
      var e := ImageEnd(sections, i - 1);
      if sections[i - 1].nonLoaded || SectionEnd(sections[i - 1]) <= e then e else SectionEnd(sections[i - 1])
  }

  function SizeOfImage(sections: seq<Section>): (e: u32)
    requires HeaderSize(sections) < U64_LIMIT
  {
    var e := SaturatingAlignUp(ImageEnd(sections, |sections|), SECTION_ALIGNMENT);
    if e < U32_LIMIT then e else U32_LIMIT - 1
  }

  function DosBytes(): (b: seq<byte>)
    ensures |b| == 64
  {
    Le16(0x5A4D) + Zeros(58) + Le32(64)
  }

  const SIGNATURE: seq<byte> := [0x50, 0x45, 0, 0]

  function CoffBytes(machine: u16, count: nat, strings: nat): (b: seq<byte>)
    ensures |b| == 20
  {
    Le16(machine) + Le16(count) + Le32(0) + Le32(strings) + Le32(0)
    + Le16(240) + Le16(0x0002 + 0x0020 + 0x0200)
  }

  function OptionalBytes(code: nat, init: nat, uninit: nat, image: nat, headers: nat): (b: seq<byte>)
    ensures |b| == 240
  {
    Le16(0x20B) + LeBytes(1, 1) + LeBytes(0, 1) + Le32(code) + Le32(init) + Le32(uninit)
    + Le32(0) + Le32(0) + Le64(0) + Le32(SECTION_ALIGNMENT) + Le32(FILE_ALIGNMENT)
    + Zeros(12) + Le32(0) + Le32(image) + Le32(headers) + Le32(0)
    + Le16(10) + Le16(0) + Zeros(32) + Le32(0) + Le32(16) + Zeros(128)
  }

  /** The emitted VirtualSize: loaded data sections cover their padded file bytes. */
  function HeaderVirtualSize(s: Section): nat {
    if s.nonLoaded || s.IsZeroShape() || s.virtualSize >= RawSize(s) then s.virtualSize else RawSize(s)
  }

  /** Name, VirtualSize, VirtualAddress, SizeOfRawData, PointerToRawData, then 16 more bytes. */
  function SectionHeader(sections: seq<Section>, i: nat): (b: seq<byte>)
    requires i < |sections| && NameFits(sections, i)
    ensures |b| == SECTION_HDR_SIZE
  {
    var s := sections[i];
    HeaderBytes(NameField(sections, i), HeaderVirtualSize(s), if s.nonLoaded then 0 else s.vaddr, RawSize(s), RawOffset(sections, i),
                s.characteristics)
  }

  function HeaderBytes(name: seq<byte>, vsize: nat, vaddr: nat, size: nat, offset: nat, flags: nat): (b: seq<byte>)
    ensures |b| == |name| + 32
  {
    name + (Le32(vsize) + Le32(vaddr)) + (Le32(size) + Le32(offset)) + (Zeros(12) + Le32(flags))
  }

  function SectionTable(sections: seq<Section>, i: nat): (b: seq<byte>)
    requires i <= |sections| && NamesFit(sections)
    ensures |b| == i * SECTION_HDR_SIZE
  {
    if i == 0 then [] else SectionTable(sections, i - 1) + SectionHeader(sections, i - 1)
  }

  /** Everything before the section table. */
  function FixedHeaders(machine: u16, sections: seq<Section>): (b: seq<byte>)
    requires HeaderSize(sections) < U64_LIMIT
    ensures |b| == FIXED_HDR_SIZE
  {
    DosBytes() + SIGNATURE + CoffBytes(machine, |sections|, StringsOffset(sections))
    + OptionalBytes(FlagTotal(sections, |sections|, CNT_CODE), FlagTotal(sections, |sections|, CNT_INITIALIZED_DATA),
                    FlagTotal(sections, |sections|, CNT_UNINITIALIZED_DATA), SizeOfImage(sections), HeaderSize(sections))
  }

  /** The file up to the end of the data of the first `i` sections. */
  function Body(machine: u16, sections: seq<Section>, i: nat): (b: seq<byte>)
    requires i <= |sections| && NamesFit(sections) && HeaderSize(sections) < U64_LIMIT
  {
    if i == 0 then FixedHeaders(machine, sections) + SectionTable(sections, |sections|) else
      var b := Body(machine, sections, i - 1);
      if sections[i - 1].IsZeroShape() || RawOffset(sections, i - 1) < |b| then b
      else b + Zeros(RawOffset(sections, i - 1) - |b|) + sections[i - 1].data
  }

  /** The whole file. */
  function File(machine: u16, sections: seq<Section>): (f: seq<byte>)
    requires NamesFit(sections) && HeaderSize(sections) < U64_LIMIT
  {
    var b := Body(machine, sections, |sections|);
    var end := Cursor(sections, |sections|);
    (if |b| <= end then b + Zeros(end - |b|) else b)
    + if NeedStrings(sections) then StringTable(sections) else []
  }

  ghost predicate Accepted(sections: seq<Section>) {
    && |sections| < U16_LIMIT
    && (forall i :: 0 <= i < |sections| ==> 0 !in sections[i].name)
    && NamesFit(sections)
    && LayoutFits(sections)
    && (forall i :: 0 <= i < |sections| ==> TotalsFit(sections, i))
    && (forall i :: 0 <= i < |sections| ==> AddressesFit(sections[i]))
  }

  // ---- the writer ----

  lemma {:induction false} AlignUpGrows(v: nat, a: nat)
    requires a == FILE_ALIGNMENT || a == LARGE_ALIGNMENT
    ensures v <= AlignUp(v, a) < v + a && AlignUp(v, a) % a == 0
  {
    AlignUpIsLeast(v, a);
  }

  function CheckedAlignUp(v: u32, a: nat): (r: Option<u32>)
    requires a == FILE_ALIGNMENT || a == LARGE_ALIGNMENT
    ensures r.Some? <==> v + (a - 1) < U32_LIMIT
    ensures r.Some? ==> r.value == AlignUp(v, a)
  {
    AlignUpGrows(v, a);
    if v + (a - 1) < U32_LIMIT then Some(AlignUp(v, a)) else None
  }

  method NameSections(sections: seq<Section>) returns (r: Result<(seq<byte>, seq<seq<byte>>), PeError>)
    ensures r.Success? <==> NamesFit(sections)
    ensures r.Success? ==> r.value == (Strings(sections, |sections|), NameFields(sections, |sections|))
    ensures r.Failure? ==> r.error == StringTableOffsetTooLarge
  {
    var strtab := NoStrings();
    var nameFields: seq<seq<byte>> := [];
    NameStart(sections);
    AllNamesFit(sections);
    hide *;
    for i := 0 to |sections|
      invariant strtab == Strings(sections, i)
      invariant nameFields == NameFields(sections, i)
      invariant forall k :: 0 <= k < i ==> NameFits(sections, k)
    {
      NameStep(sections, i);
      var n := sections[i].name;
      var text := TextFor(n, |strtab|);
      if |text| > 8 { return Failure(StringTableOffsetTooLarge); }
      strtab := AddString(strtab, n);
      nameFields := nameFields + [Pad8(text)];
    }
    return Success((strtab, nameFields));
  }

  lemma {:induction false} AllNamesFit(sections: seq<Section>)
    ensures NamesFit(sections) <==> forall i :: 0 <= i < |sections| ==> NameFits(sections, i)
  {}

  lemma {:induction false} NameStart(sections: seq<Section>)
    ensures Strings(sections, 0) == NoStrings() && NameFields(sections, 0) == []
  {}

  lemma {:induction false} NameStep(sections: seq<Section>, i: nat)
    requires i < |sections|
    ensures
      var n := sections[i].name;
      var text := TextFor(n, |Strings(sections, i)|);
      && (NameFits(sections, i) <==> |text| <= 8)
      && Strings(sections, i + 1) == AddString(Strings(sections, i), n)
      && (|text| <= 8 ==> NameFields(sections, i + 1) == NameFields(sections, i) + [Pad8(text)])
  {}

  lemma {:induction false} NameFieldsAt(sections: seq<Section>, n: nat, i: nat)
    requires i < n <= |sections| && NameFits(sections, i)
    ensures |NameFields(sections, n)| == n && NameFields(sections, n)[i] == NameField(sections, i)
  {
    if i < n - 1 { NameFieldsAt(sections, n - 1, i); }
  }

  /** Offset and size for section `s` at `cursor`, and the cursor after it. */
  function PlaceOne(s: Section, cursor: u32): (r: Result<(nat, nat, u32), PeError>)
    ensures r.Failure? ==> r.error == Overflow
  {
    if s.IsZeroShape() then Success((0, 0, cursor)) else
      var start := CheckedAlignUp(cursor, AlignmentFor(s));
      if start.None? || |s.data| >= U32_LIMIT then Failure(Overflow) else
        var size := CheckedAlignUp(|s.data|, FILE_ALIGNMENT);
        if size.None? || start.value + size.value >= U32_LIMIT then Failure(Overflow)
        else Success((start.value, size.value, start.value + size.value))
  }

  /** File offsets and sizes of the raw data, and where it ends. */
  method PlaceSections(sections: seq<Section>) returns (r: Result<(seq<nat>, seq<nat>, u32), PeError>)
    requires FIXED_HDR_SIZE + |sections| * SECTION_HDR_SIZE + (FILE_ALIGNMENT - 1) < U32_LIMIT
    ensures r.Success? <==> forall i :: 0 <= i < |sections| ==> PlacementFits(sections, i)
    ensures r.Success? ==> r.value == (RawOffsets(sections, |sections|), RawSizes(sections, |sections|), Cursor(sections, |sections|))
    ensures r.Failure? ==> r.error == Overflow
  {
    AlignUpGrows(FIXED_HDR_SIZE + |sections| * SECTION_HDR_SIZE, FILE_ALIGNMENT);
    var cursor: u32 := HeaderSize(sections);
    var offsets: seq<nat>, sizes: seq<nat> := [], [];
    CursorStart(sections);
    hide *;
    for i := 0 to |sections|
      invariant cursor == Cursor(sections, i)
      invariant offsets == RawOffsets(sections, i) && sizes == RawSizes(sections, i)
      invariant forall k :: 0 <= k < i ==> PlacementFits(sections, k)
    {
      PlaceStep(sections, i);
      var placed := PlaceOne(sections[i], cursor);
      if placed.Failure? { return Failure(placed.error); }
      offsets, sizes := offsets + [placed.value.0], sizes + [placed.value.1];
      cursor := placed.value.2;
    }
    return Success((offsets, sizes, cursor));
  }

  lemma {:induction false} PlaceStep(sections: seq<Section>, i: nat)
    requires i < |sections|
    ensures Cursor(sections, i) < U32_LIMIT ==>
      var r := PlaceOne(sections[i], Cursor(sections, i));
      && (r.Success? <==> PlacementFits(sections, i))
      && (r.Success? ==>
            && RawOffsets(sections, i + 1) == RawOffsets(sections, i) + [r.value.0]
            && RawSizes(sections, i + 1) == RawSizes(sections, i) + [r.value.1]
            && Cursor(sections, i + 1) == r.value.2)
  {
    hide AlignUp, AlignmentFor;
  }

  lemma {:induction false} PlacesAt(sections: seq<Section>, i: nat)
    requires i < |sections|
    ensures RawOffsets(sections, |sections|)[i] == RawOffset(sections, i) && RawSizes(sections, |sections|)[i] == RawSize(sections[i])
  {}

  /** The three size fields of the optional header. */
  method SumSizes(sections: seq<Section>) returns (r: Result<(u32, u32, u32), PeError>)
    ensures r.Success? <==> forall i :: 0 <= i < |sections| ==> TotalsFit(sections, i)
    ensures r.Success? ==> r.value == (FlagTotal(sections, |sections|, CNT_CODE), FlagTotal(sections, |sections|, CNT_INITIALIZED_DATA),
                                       FlagTotal(sections, |sections|, CNT_UNINITIALIZED_DATA))
    ensures r.Failure? ==> r.error == Overflow
  {
    hide HasFlag, AlignmentFor, AlignUp;
    var code: u32, init: u32, uninit: u32 := 0, 0, 0;
    for i := 0 to |sections|
      invariant code == FlagTotal(sections, i, CNT_CODE)
      invariant init == FlagTotal(sections, i, CNT_INITIALIZED_DATA)
      invariant uninit == FlagTotal(sections, i, CNT_UNINITIALIZED_DATA)
      invariant forall k :: 0 <= k < i ==> TotalsFit(sections, k)
    {
      hide FlagTotal, FlagBytes, TotalsFit;
      var s := sections[i];
      FlagSteps(sections, i);
      if HasFlag(s.characteristics, CNT_CODE) {
        var sum := AddAligned(code, |s.data|, AlignmentFor(s));
        if sum.Failure? { return Failure(Overflow); }
        code := sum.value;
      }
      if HasFlag(s.characteristics, CNT_INITIALIZED_DATA) {
        var sum := AddAligned(init, |s.data|, AlignmentFor(s));
        if sum.Failure? { return Failure(Overflow); }
        init := sum.value;
      }
      if HasFlag(s.characteristics, CNT_UNINITIALIZED_DATA) {
        var sum := AddAligned(uninit, s.virtualSize, SECTION_ALIGNMENT);
        if sum.Failure? { return Failure(Overflow); }
        uninit := sum.value;
      }
    }
    return Success((code, init, uninit));
  }

  lemma {:induction false} FlagSteps(sections: seq<Section>, i: nat)
    requires i < |sections|
    ensures
      var s := sections[i];
      var code, init, uninit := FlagTotal(sections, i, CNT_CODE), FlagTotal(sections, i, CNT_INITIALIZED_DATA), FlagTotal(sections, i, CNT_UNINITIALIZED_DATA);
      var size := |s.data| + (AlignmentFor(s) - 1);
      && FlagTotal(sections, i + 1, CNT_CODE) == code + (if HasFlag(s.characteristics, CNT_CODE) then AlignUp(|s.data|, AlignmentFor(s)) else 0)
      && FlagTotal(sections, i + 1, CNT_INITIALIZED_DATA) == init + (if HasFlag(s.characteristics, CNT_INITIALIZED_DATA) then AlignUp(|s.data|, AlignmentFor(s)) else 0)
      && FlagTotal(sections, i + 1, CNT_UNINITIALIZED_DATA) == uninit + (if HasFlag(s.characteristics, CNT_UNINITIALIZED_DATA) then AlignUp(s.virtualSize, SECTION_ALIGNMENT) else 0)
      && (code < U32_LIMIT && init < U32_LIMIT && uninit < U32_LIMIT ==>
            (TotalsFit(sections, i) <==>
               && (HasFlag(s.characteristics, CNT_CODE) ==> size < U32_LIMIT && FlagTotal(sections, i + 1, CNT_CODE) < U32_LIMIT)
               && (HasFlag(s.characteristics, CNT_INITIALIZED_DATA) ==> size < U32_LIMIT && FlagTotal(sections, i + 1, CNT_INITIALIZED_DATA) < U32_LIMIT)
               && (HasFlag(s.characteristics, CNT_UNINITIALIZED_DATA) ==> s.virtualSize + (SECTION_ALIGNMENT - 1) < U32_LIMIT && FlagTotal(sections, i + 1, CNT_UNINITIALIZED_DATA) < U32_LIMIT)))
  {
    hide AlignUp, HasFlag;
  }

  function AddAligned(total: u32, size: nat, a: nat): (r: Result<u32, PeError>)
    requires a == FILE_ALIGNMENT || a == LARGE_ALIGNMENT
    ensures r.Success? <==> size + (a - 1) < U32_LIMIT && total + AlignUp(size, a) < U32_LIMIT
    ensures r.Success? ==> r.value == total + AlignUp(size, a)
    ensures r.Failure? ==> r.error == Overflow
  {
    if size >= U32_LIMIT then Failure(Overflow) else
      var up := CheckedAlignUp(size, a);
      if up.None? || total + up.value >= U32_LIMIT then Failure(Overflow) else Success(total + up.value)
  }

  method ImageSize(sections: seq<Section>) returns (size: u32)
    requires HeaderSize(sections) < U32_LIMIT
    ensures size == SizeOfImage(sections)
  {
    var image: u64 := HeaderSize(sections);
    for i := 0 to |sections|
      invariant image == ImageEnd(sections, i)
    {
      if !sections[i].nonLoaded && SectionEnd(sections[i]) > image { image := SectionEnd(sections[i]); }
    }
    var e := SaturatingAlignUp(image, SECTION_ALIGNMENT);
    return if e < U32_LIMIT then e else U32_LIMIT - 1;
  }

  /** The data written so far ends before the cursor. */
  lemma {:induction false} BodyWithinCursor(machine: u16, sections: seq<Section>, i: nat)
    requires i <= |sections| && NamesFit(sections) && HeaderSize(sections) < U64_LIMIT
    ensures |Body(machine, sections, i)| <= Cursor(sections, i)
  {
    if i == 0 {
      AlignUpGrows(FIXED_HDR_SIZE + |sections| * SECTION_HDR_SIZE, FILE_ALIGNMENT);
    } else {
      BodyWithinCursor(machine, sections, i - 1);
      AlignUpGrows(Cursor(sections, i - 1), AlignmentFor(sections[i - 1]));
      AlignUpGrows(|sections[i - 1].data|, FILE_ALIGNMENT);
    }
  }

  lemma {:induction false} CursorGrows(sections: seq<Section>, i: nat, j: nat)
    requires i <= j <= |sections|
    ensures Cursor(sections, i) <= Cursor(sections, j)
    ensures i < j && !sections[i].IsZeroShape() ==> RawOffset(sections, i) + RawSize(sections[i]) <= Cursor(sections, j)
    decreases j
  {
    if i < j {
      CursorGrows(sections, i, j - 1);
      AlignUpGrows(Cursor(sections, j - 1), AlignmentFor(sections[j - 1]));
    }
  }

  /** The buffer starts with `used` and is zero from there on. */
  ghost predicate Filled(b: seq<byte>, used: seq<byte>) {
    |used| <= |b| && b == used + Zeros(|b| - |used|)
  }

  /** Writes `bytes` at or after the end of the used prefix. */
  method Append(buf: array<byte>, ghost used: seq<byte>, at: nat, bytes: seq<byte>)
    requires |used| <= at && at + |bytes| <= buf.Length && Filled(buf[..], used)
    modifies buf
    ensures Filled(buf[..], used + Zeros(at - |used|) + bytes)
  {
    WriteAt(buf, at, bytes);
  }

  /** Appending right at the end of the used prefix. */
  method AppendNext(buf: array<byte>, ghost used: seq<byte>, at: nat, bytes: seq<byte>)
    requires |used| == at && at + |bytes| <= buf.Length && Filled(buf[..], used)
    modifies buf
    ensures Filled(buf[..], used + bytes)
  {
    Append(buf, used, at, bytes);
    assert used + Zeros(0) + bytes == used + bytes;
  }

  lemma {:induction false} HeaderStep(sections: seq<Section>, i: nat)
    requires i < |sections| && NamesFit(sections)
    ensures
      var s := sections[i];
      var vsize := if s.nonLoaded || s.IsZeroShape() || s.virtualSize >= RawSize(s) then s.virtualSize else RawSize(s);
      && NameFits(sections, i)
      && SectionHeader(sections, i) ==
         HeaderBytes(NameField(sections, i), vsize, if s.nonLoaded then 0 else s.vaddr, RawSize(s), RawOffset(sections, i), s.characteristics)
  {
    hide NameField, RawSize, RawOffset, HeaderBytes;
  }

  lemma {:induction false} TableStep(sections: seq<Section>, i: nat, fixed: seq<byte>, hdr: seq<byte>)
    requires i < |sections| && NamesFit(sections) && hdr == SectionHeader(sections, i)
    ensures fixed + SectionTable(sections, i) + hdr == fixed + SectionTable(sections, i + 1)
    ensures |SectionTable(sections, i)| == i * SECTION_HDR_SIZE
  {
    hide SectionHeader;
  }

  /** Writes the header of section `i` after the ones before it. */
  method WriteHeader(buf: array<byte>, ghost fixed: seq<byte>, sections: seq<Section>, i: nat, name: seq<byte>, offset: nat, size: nat)
    requires i < |sections| && NamesFit(sections) && |fixed| == FIXED_HDR_SIZE
    requires NameFits(sections, i) && name == NameField(sections, i) && offset == RawOffset(sections, i) && size == RawSize(sections[i])
    requires FIXED_HDR_SIZE + (i + 1) * SECTION_HDR_SIZE <= buf.Length && Filled(buf[..], fixed + SectionTable(sections, i))
    modifies buf
    ensures Filled(buf[..], fixed + SectionTable(sections, i + 1))
  {
    hide *;
    var s := sections[i];
    HeaderStep(sections, i);
    var vsize := if s.nonLoaded || s.IsZeroShape() || s.virtualSize >= size then s.virtualSize else size;
    var hdr := HeaderBytes(name, vsize, if s.nonLoaded then 0 else s.vaddr, size, offset, s.characteristics);
    TableStep(sections, i, fixed, hdr);
    AppendNext(buf, fixed + SectionTable(sections, i), FIXED_HDR_SIZE + i * SECTION_HDR_SIZE, hdr);
  }

  method WriteSectionTable(buf: array<byte>, ghost fixed: seq<byte>, sections: seq<Section>, nameFields: seq<seq<byte>>,
                           offsets: seq<nat>, sizes: seq<nat>) returns (r: Result<(), PeError>)
    requires NamesFit(sections) && |fixed| == FIXED_HDR_SIZE
    requires nameFields == NameFields(sections, |sections|)
    requires offsets == RawOffsets(sections, |sections|) && sizes == RawSizes(sections, |sections|)
    requires FIXED_HDR_SIZE + |sections| * SECTION_HDR_SIZE <= buf.Length && Filled(buf[..], fixed)
    modifies buf
    ensures r.Success? <==> forall i :: 0 <= i < |sections| ==> AddressesFit(sections[i])
    ensures r.Success? ==> Filled(buf[..], fixed + SectionTable(sections, |sections|))
    ensures r.Failure? ==> r.error == Overflow
  {
    hide *;
    TableStart(sections, fixed);
    for i := 0 to |sections|
      invariant forall k :: 0 <= k < i ==> AddressesFit(sections[k])
      invariant Filled(buf[..], fixed + SectionTable(sections, i))
    {
      AddressesStep(sections[i]);
      if !sections[i].nonLoaded && sections[i].vaddr >= U32_LIMIT { return Failure(Overflow); }
      if sections[i].virtualSize >= U32_LIMIT { return Failure(Overflow); }
      AllNamesFit(sections);
      NameFieldsAt(sections, |sections|, i);
      PlacesAt(sections, i);
      WriteHeader(buf, fixed, sections, i, nameFields[i], offsets[i], sizes[i]);
    }
    return Success(());
  }

  lemma {:induction false} TableStart(sections: seq<Section>, fixed: seq<byte>)
    requires NamesFit(sections)
    ensures fixed + SectionTable(sections, 0) == fixed
  {}

  lemma {:induction false} AddressesStep(s: Section)
    ensures AddressesFit(s) <==> (s.nonLoaded || s.vaddr < U32_LIMIT) && s.virtualSize < U32_LIMIT
  {}

  lemma {:induction false} DataStep(machine: u16, sections: seq<Section>, i: nat)
    requires i < |sections| && NamesFit(sections) && HeaderSize(sections) < U64_LIMIT
    ensures
      var b := Body(machine, sections, i);
      if sections[i].IsZeroShape() then Body(machine, sections, i + 1) == b
      else
        && |b| <= RawOffset(sections, i)
        && RawOffset(sections, i) + |sections[i].data| <= Cursor(sections, |sections|)
        && Body(machine, sections, i + 1) == b + Zeros(RawOffset(sections, i) - |b|) + sections[i].data
  {
    hide NamesFit, HeaderSize, AlignUp, AlignmentFor;
    BodyWithinCursor(machine, sections, i);
    AlignUpGrows(Cursor(sections, i), AlignmentFor(sections[i]));
    AlignUpGrows(|sections[i].data|, FILE_ALIGNMENT);
    CursorGrows(sections, i, |sections|);
  }

  method WriteData(buf: array<byte>, ghost machine: u16, sections: seq<Section>, offsets: seq<nat>)
    requires NamesFit(sections) && HeaderSize(sections) < U64_LIMIT
    requires offsets == RawOffsets(sections, |sections|)
    requires Cursor(sections, |sections|) <= buf.Length && Filled(buf[..], Body(machine, sections, 0))
    modifies buf
    ensures Filled(buf[..], Body(machine, sections, |sections|))
  {
    hide NamesFit, HeaderSize, RawSize, RawOffset, Body, Filled, Cursor, RawOffsets;
    for i := 0 to |sections|
      invariant Filled(buf[..], Body(machine, sections, i))
    {
      DataStep(machine, sections, i);
      PlacesAt(sections, i);
      if !sections[i].IsZeroShape() {
        Append(buf, Body(machine, sections, i), offsets[i], sections[i].data);
      }
    }
  }

  /** The conditions checked before anything is laid out. */
  ghost predicate NamesAccepted(sections: seq<Section>) {
    && |sections| < U16_LIMIT
    && forall i :: 0 <= i < |sections| ==> 0 !in sections[i].name
  }

  method CheckNames(sections: seq<Section>) returns (r: Result<(), PeError>)
    ensures r.Success? <==> NamesAccepted(sections)
    ensures r.Failure? && r.error == TooManySections <==> |sections| >= U16_LIMIT
  {
    if |sections| >= U16_LIMIT { return Failure(TooManySections); }
    for i := 0 to |sections|
      invariant forall k :: 0 <= k < i ==> 0 !in sections[k].name
    {
      if 0 in sections[i].name { return Failure(NulInName); }
    }
    return Success(());
  }

  /** Writes everything into the laid-out file. */
  method WriteFile(machine: u16, sections: seq<Section>, strtab: seq<byte>, nameFields: seq<seq<byte>>,
                   offsets: seq<nat>, sizes: seq<nat>, cursor: u32) returns (r: Result<seq<byte>, PeError>)
    requires NamesFit(sections) && LayoutFits(sections) && strtab == StringTable(sections)
    requires cursor == Cursor(sections, |sections|) && nameFields == NameFields(sections, |sections|)
    requires offsets == RawOffsets(sections, |sections|) && sizes == RawSizes(sections, |sections|)
    requires HeaderSize(sections) < U32_LIMIT && FIXED_HDR_SIZE + |sections| * SECTION_HDR_SIZE <= cursor
    ensures r.Success? <==> forall i :: 0 <= i < |sections| ==> TotalsFit(sections, i) && AddressesFit(sections[i])
    ensures r.Success? ==> r.value == File(machine, sections)
    ensures r.Failure? ==> r.error == Overflow
  {
    hide NamesFit, TotalsFit, AddressesFit, Strings, NameField, NameFields, RawOffsets, RawSizes, Cursor, RawOffset, RawSize, FlagTotal, SizeOfImage, NameFits, Filled, LayoutFits, HeaderSize, OptionalBytes, CoffBytes, DosBytes, SectionTable, StringTable;
    var needStrtab := |strtab| > 4;
    StringsSize(sections);
    var strtabOffset := if needStrtab then cursor else 0;
    var image := ImageSize(sections);
    var buf := new byte[if needStrtab then cursor + |strtab| else cursor](_ => 0);
    BlankIsFilled(buf[..]);
    var dos := DosBytes();
    AppendNext(buf, [], 0, dos);
    assert [] + dos == dos;
    var totals := SumSizes(sections);
    if totals.Failure? { return Failure(totals.error); }
    var rest := SIGNATURE + CoffBytes(machine, |sections|, strtabOffset)
      + OptionalBytes(totals.value.0, totals.value.1, totals.value.2, image, HeaderSize(sections));
    AppendNext(buf, dos, 64, rest);
    ghost var fixed := FixedHeaders(machine, sections);
    assert dos + rest == fixed;
    var table := WriteSectionTable(buf, fixed, sections, nameFields, offsets, sizes);
    if table.Failure? { return Failure(table.error); }
    assert fixed + SectionTable(sections, |sections|) == Body(machine, sections, 0);
    WriteData(buf, machine, sections, offsets);
    BodyWithinCursor(machine, sections, |sections|);
    ghost var body := Body(machine, sections, |sections|);
    if needStrtab {
      Append(buf, body, strtabOffset, strtab);
    }
    FilledIsFile(machine, sections, buf[..]);
    return Success(buf[..]);
  }

  lemma {:induction false} BlankIsFilled(b: seq<byte>)
    requires forall i :: 0 <= i < |b| ==> b[i] == 0
    ensures Filled(b, [])
  {}

  lemma {:induction false} StringsSize(sections: seq<Section>)
    ensures |StringTable(sections)| == |Strings(sections, |sections|)|
  {}

  lemma {:induction false} FilledIsFile(machine: u16, sections: seq<Section>, b: seq<byte>)
    requires NamesFit(sections) && HeaderSize(sections) < U64_LIMIT
    requires |Body(machine, sections, |sections|)| <= Cursor(sections, |sections|)
    requires |b| == Cursor(sections, |sections|) + if NeedStrings(sections) then |StringTable(sections)| else 0
    requires
      var body := Body(machine, sections, |sections|);
      Filled(b, if NeedStrings(sections) then body + Zeros(Cursor(sections, |sections|) - |body|) + StringTable(sections) else body)
    ensures b == File(machine, sections)
  {
    hide Body, Cursor, StringTable, NeedStrings, NamesFit;
  }

  /** Success exactly on an accepted section list, with the whole file. */
  method BuildPe(machine: u16, sections: seq<Section>) returns (r: Result<seq<byte>, PeError>)
    ensures r.Success? <==> Accepted(sections)
    ensures r.Success? ==> HeaderSize(sections) < U64_LIMIT && r.value == File(machine, sections)
    ensures r.Failure? && r.error == TooManySections <==> |sections| >= U16_LIMIT
  {
    var checked := CheckNames(sections);
    if checked.Failure? { return Failure(checked.error); }
    hide NamesFit, PlacementFits, TotalsFit, AddressesFit, Strings, NameField, NameFields, RawOffsets, RawSizes, Cursor, RawOffset, RawSize, FlagTotal, SizeOfImage, NameFits, Body, File;
    var named := NameSections(sections);
    if named.Failure? { return Failure(named.error); }
    var (strtab, nameFields) := named.value;
    strtab := Le32(|strtab|) + strtab[4..];
    AlignUpGrows(FIXED_HDR_SIZE + |sections| * SECTION_HDR_SIZE, FILE_ALIGNMENT);
    var placed := PlaceSections(sections);
    if placed.Failure? { return Failure(placed.error); }
    var (offsets, sizes, cursor) := placed.value;
    CursorGrows(sections, 0, |sections|);
    CursorStart(sections);
    if |strtab| > 4 && cursor + |strtab| >= U32_LIMIT { return Failure(Overflow); }
    r := WriteFile(machine, sections, strtab, nameFields, offsets, sizes, cursor);
  }

  lemma {:induction false} CursorStart(sections: seq<Section>)
    ensures Cursor(sections, 0) == HeaderSize(sections)
  {}
}
