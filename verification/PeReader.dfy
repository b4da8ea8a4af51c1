/** Reading a PE file back through its own headers, and what the writer guarantees a reader. */
module PeReader {
  import opened Outcomes
  import opened Words
  import opened Buffers
  import opened Pe

  function Slice(f: seq<byte>, at: nat, n: nat): (r: Option<seq<byte>>) {
    if at + n <= |f| then Some(f[at..at + n]) else None
  }

  function FieldAt(f: seq<byte>, at: nat, n: nat): (r: Option<nat>) {
    var s := Slice(f, at, n);
    if s.Some? then Some(LeValue(s.value)) else None
  }

  /** The bytes before the first NUL. */
  function UntilNul(s: seq<byte>): (r: seq<byte>)
    ensures |r| <= |s| && r == s[..|r|] && 0 !in r
    ensures |r| < |s| ==> s[|r|] == 0
  {
    if s == [] || s[0] == 0 then [] else [s[0]] + UntilNul(s[1..])
  }

  lemma {:induction false} UntilNulStops(s: seq<byte>, name: seq<byte>)
    requires 0 !in name && |name| <= |s| && s[..|name|] == name
    requires |name| < |s| ==> s[|name|] == 0
    ensures UntilNul(s) == name
  {
    if name != [] {
      assert s[0] == name[0] && name[0] in name;
      assert s[1..][..|name| - 1] == name[1..];
      UntilNulStops(s[1..], name[1..]);
    }
  }

  predicate AllDigits(s: seq<byte>) { forall i :: 0 <= i < |s| ==> 0x30 <= s[i] <= 0x39 }

  function PeOffset(f: seq<byte>): Option<nat> { FieldAt(f, 60, 4) }

  function SectionCount(f: seq<byte>): Option<nat> {
    var pe := PeOffset(f);
    if pe.Some? then FieldAt(f, pe.value + 6, 2) else None
  }

  /** Where the header of section `i` starts: after the optional header. */
  function HeaderOffset(f: seq<byte>, i: nat): Option<nat> {
    var pe := PeOffset(f);
    if pe.None? then None else
      var opt := FieldAt(f, pe.value + 20, 2);
      if opt.None? then None else Some(pe.value + 24 + opt.value + i * 40)
  }

  function HeaderField(f: seq<byte>, i: nat, at: nat): Option<nat> {
    var h := HeaderOffset(f, i);
    if h.None? then None else FieldAt(f, h.value + at, 4)
  }

  /** The section's name, through the string table when the field is `/N`. */
  function ReadName(f: seq<byte>, i: nat): (r: Option<seq<byte>>) {
    var h := HeaderOffset(f, i);
    if h.None? then None else
      var field := Slice(f, h.value, 8);
      var strings := FieldAt(f, PeOffset(f).value + 12, 4);
      if field.None? || strings.None? then None else
        var text := UntilNul(field.value);
        if text == [] || text[0] != 0x2F then Some(text)
        else if !AllDigits(text[1..]) then None
        else StringAt(f, strings.value + ParseDecimal(text[1..]))
  }

  /** The NUL-terminated string at `at`. */
  function StringAt(f: seq<byte>, at: nat): Option<seq<byte>> {
    if at <= |f| then Some(UntilNul(f[at..])) else None
  }

  /** `name` and a NUL stand in `t` at `at`. */
  ghost predicate HasString(t: seq<byte>, at: nat, name: seq<byte>) {
    at + |name| < |t| && t[at..at + |name|] == name && t[at + |name|] == 0
  }

  /** The raw bytes of section `i`: PointerToRawData and SizeOfRawData. */
  function ReadRaw(f: seq<byte>, i: nat): (r: Option<seq<byte>>) {
    var size, at := HeaderField(f, i, 16), HeaderField(f, i, 20);
    if size.None? || at.None? then None else Slice(f, at.value, size.value)
  }

  // ---- what the written file holds ----

  ghost predicate Sized(sections: seq<Section>) { NamesFit(sections) && HeaderSize(sections) < U64_LIMIT }

  lemma {:induction false} SizedFits(sections: seq<Section>)
    requires Sized(sections)
    ensures NamesFit(sections) && HeaderSize(sections) < U64_LIMIT
  {}

  lemma {:induction false} BodyPrefix(machine: u16, sections: seq<Section>, i: nat, j: nat)
    requires i <= j <= |sections| && Sized(sections)
    ensures Body(machine, sections, i) <= Body(machine, sections, j)
    decreases j
  {
    hide NamesFit, HeaderSize, RawOffset;
    if i < j { BodyPrefix(machine, sections, i, j - 1); }
  }

  lemma {:induction false} FileHoldsBody(machine: u16, sections: seq<Section>, i: nat)
    requires i <= |sections| && Sized(sections)
    ensures Body(machine, sections, i) <= File(machine, sections)
  {
    hide Body, StringTable, NamesFit, HeaderSize, Cursor;
    BodyPrefix(machine, sections, i, |sections|);
  }

  lemma {:induction false} SliceOfPrefix(p: seq<byte>, f: seq<byte>, at: nat, n: nat)
    requires p <= f && at + n <= |p|
    ensures Slice(f, at, n) == Some(p[at..at + n])
  {
    assert f[at..at + n] == p[at..at + n];
  }

  lemma {:induction false} BodyStart(machine: u16, sections: seq<Section>)
    requires Sized(sections)
    ensures NamesFit(sections)
    ensures Body(machine, sections, 0) == FixedHeaders(machine, sections) + SectionTable(sections, |sections|)
  {}

  lemma {:induction false} SliceAfter(a: seq<byte>, t: seq<byte>, at: nat, n: nat)
    requires at + n <= |t|
    ensures (a + t)[|a| + at..|a| + at + n] == t[at..at + n]
  {}

  lemma {:induction false} SubSlice(h: seq<byte>, outer: seq<byte>, base: nat, lo: nat, hi: nat)
    requires base + |outer| <= |h| && h[base..base + |outer|] == outer && lo <= hi <= |outer|
    ensures h[base + lo..base + hi] == outer[lo..hi]
  {
    var part := h[base..base + |outer|];
    forall k | 0 <= k < hi - lo ensures h[base + lo..base + hi][k] == outer[lo..hi][k] {
      assert part[lo + k] == h[base + lo + k];
    }
  }

  lemma {:induction false} FieldOfPrefix(p: seq<byte>, f: seq<byte>, at: nat, n: nat, v: nat)
    requires p <= f && at + n <= |p|
    requires (n == 2 && p[at..at + 2] == Le16(v) && v < U16_LIMIT) || (n == 4 && p[at..at + 4] == Le32(v) && v < U32_LIMIT)
    ensures FieldAt(f, at, n) == Some(v)
  {
    SliceOfPrefix(p, f, at, n);
    FixedWidthRoundTrip(v);
  }

  lemma {:induction false} FixedHeaderParts(machine: u16, sections: seq<Section>)
    requires Sized(sections)
    ensures
      var h := FixedHeaders(machine, sections);
      h[0..64] == DosBytes() && h[68..88] == CoffBytes(machine, |sections|, StringsOffset(sections))
  {
    hide CoffBytes, OptionalBytes, DosBytes, Le16, Le32, Le64, SizeOfImage, FlagTotal, StringsOffset, HeaderSize, NamesFit;
    var h := FixedHeaders(machine, sections);
    assert h[0..64] == DosBytes();
    assert h[68..88] == CoffBytes(machine, |sections|, StringsOffset(sections));
  }

  lemma {:induction false} CoffFields(machine: u16, count: nat, strings: nat)
    ensures
      var c := CoffBytes(machine, count, strings);
      c[2..4] == Le16(count) && c[8..12] == Le32(strings) && c[16..18] == Le16(240)
  {
    hide Le16, Le32, Le64;
  }

  lemma {:induction false} DosFields()
    ensures DosBytes()[60..64] == Le32(64)
  {
    hide Le16, Le32, Le64;
  }

  lemma {:induction false} FixedHeaderFields(machine: u16, sections: seq<Section>)
    requires Sized(sections)
    ensures
      var h := FixedHeaders(machine, sections);
      && h[60..64] == Le32(64) && h[70..72] == Le16(|sections|)
      && h[76..80] == Le32(StringsOffset(sections)) && h[84..86] == Le16(240)
  {
    FixedHeaderParts(machine, sections);
    CoffFields(machine, |sections|, StringsOffset(sections));
    DosFields();
    hide FixedHeaders, CoffBytes, Le16, Le32, Le64, StringsOffset, NamesFit, HeaderSize, DosBytes;
    var h, dos, coff := FixedHeaders(machine, sections), DosBytes(), CoffBytes(machine, |sections|, StringsOffset(sections));
    SubSlice(h, dos, 0, 60, 64);
    SubSlice(h, coff, 68, 2, 4);
    SubSlice(h, coff, 68, 8, 12);
    SubSlice(h, coff, 68, 16, 18);
  }

  lemma {:induction false} ReaderFindsTable(machine: u16, sections: seq<Section>, i: nat)
    requires Sized(sections) && |sections| < U16_LIMIT && StringsOffset(sections) < U32_LIMIT
    ensures
      var f := File(machine, sections);
      && PeOffset(f) == Some(64) && SectionCount(f) == Some(|sections|)
      && HeaderOffset(f, i) == Some(FIXED_HDR_SIZE + i * SECTION_HDR_SIZE)
      && FieldAt(f, 76, 4) == Some(StringsOffset(sections))
  {
    var f, h := File(machine, sections), FixedHeaders(machine, sections);
    FileHoldsBody(machine, sections, 0);
    assert h <= Body(machine, sections, 0);
    assert h <= f;
    FixedHeaderFields(machine, sections);
    hide File, FixedHeaders, Body, StringsOffset, NamesFit, HeaderSize, Le16, Le32, Le64, Pow256;
    FieldOfPrefix(h, f, 60, 4, 64);
    FieldOfPrefix(h, f, 70, 2, |sections|);
    FieldOfPrefix(h, f, 76, 4, StringsOffset(sections));
    FieldOfPrefix(h, f, 84, 2, 240);
  }

  lemma {:induction false} TableHolds(sections: seq<Section>, n: nat, i: nat)
    requires i < n <= |sections| && NamesFit(sections)
    ensures SectionTable(sections, n)[i * SECTION_HDR_SIZE..(i + 1) * SECTION_HDR_SIZE] == SectionHeader(sections, i)
  {
    hide SectionHeader;
    var t := SectionTable(sections, n - 1);
    if i < n - 1 {
      TableHolds(sections, n - 1, i);
      assert SectionTable(sections, n)[i * SECTION_HDR_SIZE..(i + 1) * SECTION_HDR_SIZE]
        == t[i * SECTION_HDR_SIZE..(i + 1) * SECTION_HDR_SIZE];
    }
  }

  lemma {:induction false} HeaderParts(name: seq<byte>, vsize: nat, vaddr: nat, size: nat, offset: nat, flags: nat)
    requires |name| == 8
    ensures
      var h := HeaderBytes(name, vsize, vaddr, size, offset, flags);
      && h[..8] == name && h[8..12] == Le32(vsize) && h[12..16] == Le32(vaddr)
      && h[16..20] == Le32(size) && h[20..24] == Le32(offset)
  {
    hide Le16, Le32, Le64;
    var h := HeaderBytes(name, vsize, vaddr, size, offset, flags);
    var first, second := Le32(vsize) + Le32(vaddr), Le32(size) + Le32(offset);
    assert h[8..16] == first;
    assert h[16..24] == second;
    SubSlice(h, first, 8, 0, 4);
    SubSlice(h, first, 8, 4, 8);
    SubSlice(h, second, 16, 0, 4);
    SubSlice(h, second, 16, 4, 8);
  }

  /** The header of section `i` in the file. */
  lemma {:induction false} HeaderInFile(machine: u16, sections: seq<Section>, i: nat)
    requires i < |sections| && Sized(sections)
    ensures Slice(File(machine, sections), FIXED_HDR_SIZE + i * SECTION_HDR_SIZE, SECTION_HDR_SIZE) == Some(SectionHeader(sections, i))
  {
    hide File, FixedHeaders, SectionHeader, SectionTable, HeaderSize, Slice, Body;
    FileHoldsBody(machine, sections, 0);
    BodyStart(machine, sections);
    TableHolds(sections, |sections|, i);
    PartOfFile(File(machine, sections), FixedHeaders(machine, sections), SectionTable(sections, |sections|),
               i * SECTION_HDR_SIZE, SectionHeader(sections, i));
  }

  lemma {:induction false} PartOfFile(f: seq<byte>, a: seq<byte>, t: seq<byte>, at: nat, h: seq<byte>)
    requires a + t <= f && at + |h| <= |t| && t[at..at + |h|] == h
    ensures Slice(f, |a| + at, |h|) == Some(h)
  {
    SliceAfter(a, t, at, |h|);
    SliceOfPrefix(a + t, f, |a| + at, |h|);
  }

  lemma {:induction false} FieldInHeader(f: seq<byte>, i: nat, base: nat, h: seq<byte>, at: nat, v: nat)
    requires HeaderOffset(f, i) == Some(base) && Slice(f, base, |h|) == Some(h)
    requires at + 4 <= |h| && h[at..at + 4] == Le32(v) && v < U32_LIMIT
    ensures HeaderField(f, i, at) == Some(v)
  {
    hide HeaderOffset, Le32;
    FixedWidthRoundTrip(v);
    SubSlice(f, h, base, at, at + 4);
  }

  /** Everything the header of an accepted section says is read back. */
  lemma {:induction false} HeaderFieldsRead(machine: u16, sections: seq<Section>, i: nat)
    requires i < |sections| && Accepted(sections) && Sized(sections)
    ensures
      var f, s := File(machine, sections), sections[i];
      && HeaderField(f, i, 8) == Some(HeaderVirtualSize(s))
      && HeaderField(f, i, 12) == Some(if s.nonLoaded then 0 else s.vaddr)
      && HeaderField(f, i, 16) == Some(RawSize(s))
      && HeaderField(f, i, 20) == Some(RawOffset(sections, i))
      && Slice(f, FIXED_HDR_SIZE + i * SECTION_HDR_SIZE, 8) == Some(NameField(sections, i))
  {
    var f, s := File(machine, sections), sections[i];
    var base := FIXED_HDR_SIZE + i * SECTION_HDR_SIZE;
    AcceptedSizes(sections, i);
    AllNamesFit(sections);
    hide *;
    ReaderFindsTable(machine, sections, i);
    HeaderInFile(machine, sections, i);
    var h := SectionHeader(sections, i);
    SectionHeaderParts(sections, i);
    FieldInHeader(f, i, base, h, 8, HeaderVirtualSize(s));
    FieldInHeader(f, i, base, h, 12, if s.nonLoaded then 0 else s.vaddr);
    FieldInHeader(f, i, base, h, 16, RawSize(s));
    FieldInHeader(f, i, base, h, 20, RawOffset(sections, i));
    StartOfSlice(f, base, h, 8);
  }

  lemma {:induction false} StartOfSlice(f: seq<byte>, base: nat, h: seq<byte>, n: nat)
    requires Slice(f, base, |h|) == Some(h) && n <= |h|
    ensures Slice(f, base, n) == Some(h[..n])
  {
    SubSlice(f, h, base, 0, n);
    assert h[0..n] == h[..n];
  }

  lemma {:induction false} SectionHeaderParts(sections: seq<Section>, i: nat)
    requires i < |sections| && NameFits(sections, i)
    ensures
      var h, s := SectionHeader(sections, i), sections[i];
      && h[..8] == NameField(sections, i) && h[8..12] == Le32(HeaderVirtualSize(s))
      && h[12..16] == Le32(if s.nonLoaded then 0 else s.vaddr)
      && h[16..20] == Le32(RawSize(s)) && h[20..24] == Le32(RawOffset(sections, i))
  {
    var s := sections[i];
    HeaderParts(NameField(sections, i), HeaderVirtualSize(s), if s.nonLoaded then 0 else s.vaddr, RawSize(s),
                RawOffset(sections, i), s.characteristics);
    hide HeaderBytes, NameField, HeaderVirtualSize, RawSize, RawOffset, Le32;
  }

  lemma {:induction false} AcceptedSizes(sections: seq<Section>, i: nat)
    requires i < |sections| && Accepted(sections)
    ensures Sized(sections) && |sections| < U16_LIMIT && StringsOffset(sections) < U32_LIMIT
    ensures HeaderVirtualSize(sections[i]) < U32_LIMIT && RawSize(sections[i]) < U32_LIMIT && RawOffset(sections, i) < U32_LIMIT
    ensures sections[i].nonLoaded || sections[i].vaddr < U32_LIMIT
  {
    AlignUpGrows(FIXED_HDR_SIZE + |sections| * SECTION_HDR_SIZE, FILE_ALIGNMENT);
    assert PlacementFits(sections, i) && AddressesFit(sections[i]);
    hide AlignUp, NamesFit;
  }

  // ---- section data ----

  lemma {:induction false} DataEndsBody(machine: u16, sections: seq<Section>, i: nat)
    requires i < |sections| && Sized(sections) && !sections[i].IsZeroShape()
    ensures
      var b, off, data := Body(machine, sections, i + 1), RawOffset(sections, i), sections[i].data;
      |b| == off + |data| && b[off..off + |data|] == data
  {
    hide NamesFit, HeaderSize;
    DataStep(machine, sections, i);
  }

  /** Between the data of section `i` and the end of its raw range there are only zeros. */
  lemma {:induction false} PaddingStaysZero(machine: u16, sections: seq<Section>, i: nat, j: nat, k: nat)
    requires i < j <= |sections| && Sized(sections) && |Body(machine, sections, i + 1)| <= k < Cursor(sections, i + 1)
    ensures k < |Body(machine, sections, j)| ==> Body(machine, sections, j)[k] == 0
    decreases j
  {
    hide NamesFit, HeaderSize, Body, Cursor, RawOffset;
    if i + 1 < j {
      PaddingStaysZero(machine, sections, i, j - 1, k);
      DataStep(machine, sections, j - 1);
      CursorGrows(sections, i + 1, j - 1);
      if !sections[j - 1].IsZeroShape() {
        OffsetBounds(sections, j - 1);
        ZeroBefore(Body(machine, sections, j - 1), RawOffset(sections, j - 1), sections[j - 1].data, k);
      }
    }
  }

  lemma {:induction false} ZeroBefore(b: seq<byte>, off: nat, data: seq<byte>, k: nat)
    requires |b| <= off && k < off && (k < |b| ==> b[k] == 0)
    ensures (b + Zeros(off - |b|) + data)[k] == 0
  {}

  lemma {:induction false} FileParts(machine: u16, sections: seq<Section>)
    requires Sized(sections)
    ensures
      var f, b, end := File(machine, sections), Body(machine, sections, |sections|), Cursor(sections, |sections|);
      && |b| <= end && f == b + Zeros(end - |b|) + (if NeedStrings(sections) then StringTable(sections) else [])
  {
    hide Body, Cursor, NamesFit, HeaderSize, NeedStrings, StringTable;
    BodyWithinCursor(machine, sections, |sections|);
  }

  /** The raw range of a section is its data followed only by zeros. */
  lemma {:induction false} DataRead(machine: u16, sections: seq<Section>, i: nat)
    requires i < |sections| && Accepted(sections) && Sized(sections)
    ensures |sections[i].data| <= RawSize(sections[i])
    ensures ReadRaw(File(machine, sections), i) == Some(sections[i].data + Zeros(RawSize(sections[i]) - |sections[i].data|))
  {
    var f, s := File(machine, sections), sections[i];
    HeaderFieldsRead(machine, sections, i);
    RawSizeCovers(s);
    if s.IsZeroShape() {
      assert s.data + Zeros(0) == [];
    } else {
      hide *;
      DataSlice(machine, sections, i);
    }
    hide File, HeaderField, RawOffset, RawSize, NamesFit, HeaderSize, Accepted;
  }

  lemma {:induction false} RawSizeCovers(s: Section)
    ensures |s.data| <= RawSize(s) && (s.IsZeroShape() ==> RawSize(s) == 0)
  {
    AlignUpGrows(|s.data|, FILE_ALIGNMENT);
  }

  lemma {:induction false} DataSlice(machine: u16, sections: seq<Section>, i: nat)
    requires i < |sections| && Sized(sections) && !sections[i].IsZeroShape()
    ensures |sections[i].data| <= RawSize(sections[i])
    ensures Slice(File(machine, sections), RawOffset(sections, i), RawSize(sections[i]))
      == Some(sections[i].data + Zeros(RawSize(sections[i]) - |sections[i].data|))
  {
    hide File, RawOffset, RawSize, NamesFit, HeaderSize, Body, Cursor, Slice, StringTable, NeedStrings;
    var f, data, off, raw := File(machine, sections), sections[i].data, RawOffset(sections, i), RawSize(sections[i]);
    RawSizeCovers(sections[i]);
    RawEnd(sections, i);
    DataEndsBody(machine, sections, i);
    FileHoldsBody(machine, sections, i + 1);
    FileParts(machine, sections);
    CursorGrows(sections, i + 1, |sections|);
    forall k | off + |data| <= k < off + raw ensures f[k] == 0 { PaddingStaysZero(machine, sections, i, |sections|, k); }
    PaddedSlice(f, Body(machine, sections, i + 1), off, data, raw);
  }

  lemma {:induction false} RawEnd(sections: seq<Section>, i: nat)
    requires i < |sections| && !sections[i].IsZeroShape()
    ensures Cursor(sections, i + 1) == RawOffset(sections, i) + RawSize(sections[i])
  {}

  lemma {:induction false} PaddedSlice(f: seq<byte>, b: seq<byte>, off: nat, data: seq<byte>, raw: nat)
    requires b <= f && |b| == off + |data| && b[off..off + |data|] == data && |data| <= raw
    requires off + raw <= |f| && forall k :: off + |data| <= k < off + raw ==> f[k] == 0
    ensures Slice(f, off, raw) == Some(data + Zeros(raw - |data|))
  {
    var r, want := f[off..off + raw], data + Zeros(raw - |data|);
    forall k | 0 <= k < raw ensures r[k] == want[k] {
      if k < |data| { assert b[off..off + |data|][k] == f[off + k]; }
    }
    assert r == want;
  }

  // ---- names ----

  /** Each long name stands in the table at its offset, ended by a NUL. */
  lemma {:induction false} StringHolds(sections: seq<Section>, i: nat, n: nat)
    requires i < n <= |sections| && |sections[i].name| > 8
    ensures HasString(Strings(sections, n), |Strings(sections, i)|, sections[i].name)
    ensures |Strings(sections, n)| > 4
    decreases n
  {
    if i < n - 1 {
      StringHolds(sections, i, n - 1);
      assert Strings(sections, n - 1) <= Strings(sections, n);
    }
  }

  lemma {:induction false} PaddedName(text: seq<byte>)
    requires |text| <= 8 && 0 !in text
    ensures UntilNul(Pad8(text)) == text
  {
    UntilNulStops(Pad8(text), text);
  }

  lemma {:induction false} LongName(f: seq<byte>, used: seq<byte>, t: seq<byte>, at: nat, name: seq<byte>)
    requires f == used + t && NoNul(name) && HasString(t, at, name)
    ensures StringAt(f, |used| + at) == Some(name)
  {
    var rest := f[|used| + at..];
    assert rest == t[at..];
    assert rest[..|name|] == t[at..at + |name|];
    UntilNulStops(rest, name);
  }

  /** A short name a reader cannot mistake for a string-table reference. */
  predicate Readable(name: seq<byte>) { |name| > 8 || name == [] || name[0] != 0x2F }

  /** The header of section `i` holds the padded name text. */
  ghost predicate HoldsText(f: seq<byte>, i: nat, text: seq<byte>, strings: nat) {
    && |text| <= 8 && PeOffset(f) == Some(64) && FieldAt(f, 76, 4) == Some(strings)
    && HeaderOffset(f, i).Some? && Slice(f, HeaderOffset(f, i).value, 8) == Some(Pad8(text))
  }

  lemma {:induction false} TextInFile(machine: u16, sections: seq<Section>, i: nat)
    requires i < |sections| && Accepted(sections) && Sized(sections)
    ensures HoldsText(File(machine, sections), i, NameText(sections, i), StringsOffset(sections))
  {
    AcceptedSizes(sections, i);
    AllNamesFit(sections);
    NameFieldIsText(sections, i);
    ReaderFindsTable(machine, sections, i);
    HeaderFieldsRead(machine, sections, i);
    hide Accepted, Sized, NamesFit, File, FieldAt, HeaderOffset, PeOffset, Slice, Strings, StringsOffset, NameField, NameText, Pad8, HeaderSize;
  }

  lemma {:induction false} NameFieldIsText(sections: seq<Section>, i: nat)
    requires i < |sections| && NameFits(sections, i)
    ensures |NameText(sections, i)| <= 8 && NameField(sections, i) == Pad8(NameText(sections, i))
  {}

  lemma {:induction false} NameRead(machine: u16, sections: seq<Section>, i: nat)
    requires i < |sections| && Accepted(sections) && Sized(sections) && Readable(sections[i].name)
    ensures ReadName(File(machine, sections), i) == Some(sections[i].name)
  {
    hide *;
    SizedFits(sections);
    NulFree(sections, i);
    TextInFile(machine, sections, i);
    var f, name, strings := File(machine, sections), sections[i].name, StringsOffset(sections);
    TextCases(sections, i);
    if |name| <= 8 {
      ShortNameRead(f, i, name, strings);
    } else {
      NamedInFile(machine, sections, i);
      LongNameRead(f, i, |Strings(sections, i)|, strings, name);
    }
  }

  lemma {:induction false} TextCases(sections: seq<Section>, i: nat)
    requires i < |sections|
    ensures |sections[i].name| <= 8 ==> NameText(sections, i) == sections[i].name
    ensures |sections[i].name| > 8 ==> NameText(sections, i) == [0x2F] + Decimal(|Strings(sections, i)|)
  {}

  ghost predicate NoNul(name: seq<byte>) { 0 !in name }

  lemma {:induction false} NulFree(sections: seq<Section>, i: nat)
    requires i < |sections| && Accepted(sections)
    ensures NoNul(sections[i].name)
  {}

  lemma {:induction false} ShortNameRead(f: seq<byte>, i: nat, name: seq<byte>, strings: nat)
    requires HoldsText(f, i, name, strings) && NoNul(name) && Readable(name)
    ensures ReadName(f, i) == Some(name)
  {
    PaddedName(name);
    FieldGivesName(f, i, name, strings);
  }

  lemma {:induction false} LongNameRead(f: seq<byte>, i: nat, at: nat, strings: nat, name: seq<byte>)
    requires HoldsText(f, i, [0x2F] + Decimal(at), strings) && StringAt(f, strings + at) == Some(name)
    ensures ReadName(f, i) == Some(name)
  {
    var text: seq<byte> := [0x2F] + Decimal(at);
    ReferenceText(at);
    hide Decimal, ParseDecimal, StringAt, FieldAt, Slice, HeaderOffset, PeOffset;
    PaddedName(text);
    FieldGivesName(f, i, text, strings);
  }

  lemma {:induction false} ReferenceText(at: nat)
    ensures
      var text: seq<byte> := [0x2F] + Decimal(at);
      0 !in text && AllDigits(text[1..]) && ParseDecimal(text[1..]) == at
  {
    DecimalRoundTrip(at);
    assert ([0x2F] + Decimal(at))[1..] == Decimal(at);
  }

  /** What a name field holding `text` reads as. */
  lemma {:induction false} FieldGivesName(f: seq<byte>, i: nat, text: seq<byte>, strings: nat)
    requires HoldsText(f, i, text, strings) && UntilNul(Pad8(text)) == text
    ensures ReadName(f, i) ==
      if text == [] || text[0] != 0x2F then Some(text)
      else if !AllDigits(text[1..]) then None
      else StringAt(f, strings + ParseDecimal(text[1..]))
  {
    hide StringAt, FieldAt, HeaderOffset, PeOffset, Slice, UntilNul, Pad8;
  }

  lemma {:induction false} NamedInFile(machine: u16, sections: seq<Section>, i: nat)
    requires i < |sections| && Accepted(sections) && Sized(sections) && |sections[i].name| > 8
    ensures StringAt(File(machine, sections), StringsOffset(sections) + |Strings(sections, i)|) == Some(sections[i].name)
  {
    hide *;
    StringHolds(sections, i, |sections|);
    TableString(sections, |Strings(sections, i)|, sections[i].name);
    StringsFollow(machine, sections, i, |Strings(sections, i)|);
  }

  lemma {:induction false} StringsFollow(machine: u16, sections: seq<Section>, i: nat, at: nat)
    requires i < |sections| && Accepted(sections) && Sized(sections) && |Strings(sections, |sections|)| > 4
    requires HasString(StringTable(sections), at, sections[i].name)
    ensures StringAt(File(machine, sections), StringsOffset(sections) + at) == Some(sections[i].name)
  {
    hide *;
    SizedFits(sections);
    NulFree(sections, i);
    FileParts(machine, sections);
    StringsNeeded(sections);
    var used := Body(machine, sections, |sections|) + Zeros(Cursor(sections, |sections|) - |Body(machine, sections, |sections|)|);
    LongName(File(machine, sections), used, StringTable(sections), at, sections[i].name);
  }

  lemma {:induction false} StringsNeeded(sections: seq<Section>)
    requires |Strings(sections, |sections|)| > 4
    ensures NeedStrings(sections) && StringsOffset(sections) == Cursor(sections, |sections|)
  {}

  lemma {:induction false} TableString(sections: seq<Section>, at: nat, name: seq<byte>)
    requires 4 <= at && HasString(Strings(sections, |sections|), at, name)
    ensures HasString(StringTable(sections), at, name)
  {
    hide Strings, Le32;
    var t := Strings(sections, |sections|);
    var table := StringTable(sections);
    forall k | 4 <= k < |t| ensures table[k] == t[k] { assert table[k] == t[4..][k - 4]; }
    assert table[at..at + |name|] == t[at..at + |name|];
  }

  /** Reading the file back gives every section's name, addresses and data. */
  lemma {:induction false} PeRoundTrip(machine: u16, sections: seq<Section>, i: nat)
    requires i < |sections| && Accepted(sections)
    ensures Sized(sections)
    ensures
      var f, s := File(machine, sections), sections[i];
      && SectionCount(f) == Some(|sections|)
      && (Readable(s.name) ==> ReadName(f, i) == Some(s.name))
      && HeaderField(f, i, 8) == Some(HeaderVirtualSize(s))
      && (!s.nonLoaded ==> HeaderField(f, i, 12) == Some(s.vaddr))
      && |s.data| <= RawSize(s)
      && ReadRaw(f, i) == Some(s.data + Zeros(RawSize(s) - |s.data|))
  {
    AcceptedSizes(sections, i);
    ReaderFindsTable(machine, sections, i);
    HeaderFieldsRead(machine, sections, i);
    DataRead(machine, sections, i);
    hide *;
    if Readable(sections[i].name) { NameRead(machine, sections, i); }
  }

  /** Headers, raw ranges and string table follow one another inside the file. */
  lemma {:induction false} PeLayout(machine: u16, sections: seq<Section>, i: nat, j: nat)
    requires i <= j < |sections| && Accepted(sections) && !sections[i].IsZeroShape() && !sections[j].IsZeroShape()
    ensures Sized(sections)
    ensures FIXED_HDR_SIZE + |sections| * SECTION_HDR_SIZE <= HeaderSize(sections) <= RawOffset(sections, i)
    ensures i < j ==> RawOffset(sections, i) + RawSize(sections[i]) <= RawOffset(sections, j)
    ensures RawOffset(sections, j) + RawSize(sections[j]) <= Cursor(sections, |sections|) <= |File(machine, sections)|
    ensures NeedStrings(sections) ==>
      && StringsOffset(sections) == Cursor(sections, |sections|)
      && |File(machine, sections)| == StringsOffset(sections) + |StringTable(sections)|
  {
    AcceptedSizes(sections, i);
    AlignUpGrows(FIXED_HDR_SIZE + |sections| * SECTION_HDR_SIZE, FILE_ALIGNMENT);
    OffsetBounds(sections, i);
    OffsetBounds(sections, j);
    CursorGrows(sections, i, j);
    CursorGrows(sections, j, |sections|);
    FileParts(machine, sections);
    hide File, Body, Cursor, RawOffset, RawSize, NamesFit, HeaderSize, NeedStrings, StringTable, Accepted, AlignUp;
  }

  /** Raw data starts after the headers on a page, and large loaded payloads at 2 MiB multiples. */
  lemma {:induction false} OffsetBounds(sections: seq<Section>, i: nat)
    requires i < |sections| && !sections[i].IsZeroShape()
    ensures HeaderSize(sections) <= Cursor(sections, i) <= RawOffset(sections, i)
    ensures RawOffset(sections, i) % FILE_ALIGNMENT == 0
    ensures IsLargePayload(sections[i]) ==> RawOffset(sections, i) % LARGE_ALIGNMENT == 0
  {
    CursorGrows(sections, 0, i);
    CursorStart(sections);
    AlignUpGrows(Cursor(sections, i), AlignmentFor(sections[i]));
    assert RawOffset(sections, i) == AlignUp(Cursor(sections, i), AlignmentFor(sections[i]));
    if IsLargePayload(sections[i]) { MultipleOfMultiple(RawOffset(sections, i), LARGE_ALIGNMENT, FILE_ALIGNMENT); }
  }

  /** A short name that starts with a slash is read as a string-table reference: not at all when its tail
      is not a number, and otherwise as whatever stands at that offset from the string table, or from the
      start of the file when there is no string table. */
  lemma {:induction false} SlashNameRead(machine: u16, sections: seq<Section>, i: nat)
    requires i < |sections| && Accepted(sections) && !Readable(sections[i].name)
    ensures Sized(sections)
    ensures
      var f, tail := File(machine, sections), sections[i].name[1..];
      ReadName(f, i) == if AllDigits(tail) then StringAt(f, StringsOffset(sections) + ParseDecimal(tail)) else None
  {
    hide *;
    AcceptedSizes(sections, i);
    SizedFits(sections);
    TextInFile(machine, sections, i);
    TextCases(sections, i);
    NulFree(sections, i);
    UnreadableIsShort(sections[i].name);
    SlashField(File(machine, sections), i, sections[i].name, StringsOffset(sections));
  }

  lemma {:induction false} UnreadableIsShort(name: seq<byte>)
    requires !Readable(name)
    ensures 0 < |name| <= 8
  {}

  lemma {:induction false} SlashField(f: seq<byte>, i: nat, name: seq<byte>, strings: nat)
    requires !Readable(name) && HoldsText(f, i, name, strings) && NoNul(name)
    ensures name != []
    ensures ReadName(f, i) == if AllDigits(name[1..]) then StringAt(f, strings + ParseDecimal(name[1..])) else None
  {
    hide ReadName, HoldsText, StringAt, AllDigits, UntilNul;
    PaddedName(name);
    FieldGivesName(f, i, name, strings);
  }

  /** Exactly which names come back: those that cannot be mistaken, and those whose reference happens to
      lead to their own text. */
  lemma {:induction false} NameSurvives(machine: u16, sections: seq<Section>, i: nat)
    requires i < |sections| && Accepted(sections)
    ensures Sized(sections)
    ensures
      var f, name := File(machine, sections), sections[i].name;
      ReadName(f, i) == Some(name) <==>
        Readable(name) || (AllDigits(name[1..]) && StringAt(f, StringsOffset(sections) + ParseDecimal(name[1..])) == Some(name))
  {
    AcceptedSizes(sections, i);
    hide Accepted, Sized, File, StringsOffset, ReadName;
    if Readable(sections[i].name) { NameRead(machine, sections, i); } else { SlashNameRead(machine, sections, i); }
  }

  /** A slash and anything but digits is always lost. */
  lemma {:induction false} SlashNameIsLost(machine: u16, sections: seq<Section>, i: nat)
    requires i < |sections| && Accepted(sections) && !Readable(sections[i].name) && !AllDigits(sections[i].name[1..])
    ensures Sized(sections) && ReadName(File(machine, sections), i) == None
  {
    hide Accepted, Sized, File, ReadName;
    SlashNameRead(machine, sections, i);
  }

  /** A single section named `/328`: without long names the reference counts from the start of the file,
      where offset 328 is this very name. */
  lemma {:induction false} SlashNameReadByAccident(machine: u16)
    ensures
      var s := Section([0x2F, 0x33, 0x32, 0x38], 0, 0, [], 0, false);
      Accepted([s]) && Sized([s]) && !Readable(s.name) && ReadName(File(machine, [s]), 0) == Some(s.name)
  {
    var name: seq<byte> := [0x2F, 0x33, 0x32, 0x38];
    var s := Section(name, 0, 0, [], 0, false);
    SlashAccepted(s);
    AcceptedSizes([s], 0);
    TextInFile(machine, [s], 0);
    SlashNameRead(machine, [s], 0);
    TextCases([s], 0);
    NoStringTable(s);
    Number328();
    hide Accepted, Sized, NamesFit, ReadName, Strings, StringsOffset, NameField, NameText;
    HeaderOfFirst(machine, s);
    NameInHeader(File(machine, [s]), name);
  }

  lemma {:induction false} Number328()
    ensures AllDigits([0x33, 0x32, 0x38]) && ParseDecimal([0x33, 0x32, 0x38]) == 328
  {
    var n: seq<byte> := [0x33, 0x32, 0x38];
    assert n[..2] == [0x33, 0x32] && n[..2][..1] == [0x33] && n[..2][..1][..0] == [];
    assert ParseDecimal(n[..2][..1]) == 3;
    assert ParseDecimal(n[..2]) == 32;
  }

  lemma {:induction false} NoStringTable(s: Section)
    requires |s.name| <= 8
    ensures StringsOffset([s]) == 0
  {
    assert Strings([s], 0) == NoStrings();
    assert Strings([s], 1) == NoStrings();
  }

  lemma {:induction false} HeaderOfFirst(machine: u16, s: Section)
    requires Accepted([s]) && Sized([s])
    ensures HeaderOffset(File(machine, [s]), 0) == Some(328)
  {
    ReaderFindsTable(machine, [s], 0);
    hide Accepted, Sized, File;
  }

  lemma {:induction false} NameInHeader(f: seq<byte>, name: seq<byte>)
    requires |name| < 8 && 0 !in name && Slice(f, 328, 8) == Some(Pad8(name))
    ensures StringAt(f, 328) == Some(name)
  {
    var rest := f[328..];
    assert rest[..8] == Pad8(name);
    assert rest[..|name|] == rest[..8][..|name|] == name;
    assert rest[|name|] == rest[..8][|name|] == 0;
    UntilNulStops(rest, name);
  }

  lemma {:induction false} SlashAccepted(s: Section)
    requires s == Section([0x2F, 0x33, 0x32, 0x38], 0, 0, [], 0, false)
    ensures Accepted([s])
  {
    var sections := [s];
    AlignUpGrows(FIXED_HDR_SIZE + SECTION_HDR_SIZE, FILE_ALIGNMENT);
    assert Strings(sections, 0) == NoStrings();
    assert Strings(sections, 1) == NoStrings();
    assert TotalsFit(sections, 0) by { assert FlagTotal(sections, 0, CNT_CODE) == 0; }
  }
}
