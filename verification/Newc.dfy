/** The cpio newc writer and the independently written archive checker. */
module Newc {
  import opened Outcomes
  import opened Words
  import opened Buffers

  type u32 = x: nat | x < U32_LIMIT

  const MAGIC: seq<byte> := [0x30, 0x37, 0x30, 0x37, 0x30, 0x31]
  const TRAILER: seq<byte> := [0x54, 0x52, 0x41, 0x49, 0x4C, 0x45, 0x52, 0x21, 0x21, 0x21]
  const HEADER_SIZE: nat := 110

  // ---- hexadecimal fields ----

  function HexDigit(d: nat): (b: byte)
    requires d < 16
  {
    if d < 10 then 0x30 + d else 0x41 + (d - 10)
  }

  /** ASCII hexadecimal digits of either case. */
  predicate IsHex(b: byte) { 0x30 <= b <= 0x39 || 0x41 <= b <= 0x46 || 0x61 <= b <= 0x66 }

  function HexValue(b: byte): (d: nat)
    requires IsHex(b)
    ensures d < 16
  {
    if b <= 0x39 then b - 0x30 else if b <= 0x46 then b - 0x41 + 10 else b - 0x61 + 10
  }

  predicate AllHex(s: seq<byte>) { forall i :: 0 <= i < |s| ==> IsHex(s[i]) }

  /** `n` hexadecimal digits, most significant first, upper case. */
  function Hex(v: nat, n: nat): (s: seq<byte>)
    ensures |s| == n && AllHex(s)
  {
    if n == 0 then [] else Hex(v / 16, n - 1) + [HexDigit(v % 16)]
  }

  function ParseHex(s: seq<byte>): (v: nat)
    requires AllHex(s)
  {
    if s == [] then 0 else 16 * ParseHex(s[..|s| - 1]) + HexValue(s[|s| - 1])
  }

  function Pow16(n: nat): (p: nat)
    ensures p > 0
  {
    if n == 0 then 1 else 16 * Pow16(n - 1)
  }

  lemma {:induction false} HexRoundTrip(v: nat, n: nat)
    requires v < Pow16(n)
    ensures ParseHex(Hex(v, n)) == v
  {
    if n > 0 {
      HexRoundTrip(v / 16, n - 1);
      assert Hex(v, n)[..n - 1] == Hex(v / 16, n - 1);
    }
  }

  lemma {:induction false} EightHexDigits(v: u32)
    ensures ParseHex(Hex(v, 8)) == v
  {
    assert Pow16(8) == U32_LIMIT by { assert Pow16(4) == 0x1_0000; assert Pow16(6) == 0x100_0000; }
    HexRoundTrip(v, 8);
  }

  // ---- entries ----

  datatype Entry = Entry(ino: u32, mode: u32, nlink: u32, name: seq<byte>, data: seq<byte>, rdev: Option<(u32, u32)>)

  /** What the newc header and the caller's size check allow. */
  predicate Encodable(e: Entry) { |e.name| + 1 < U32_LIMIT && |e.data| < U32_LIMIT }

  /** The thirteen header fields in order. */
  function Fields(e: Entry): (f: seq<u32>)
    requires Encodable(e)
    ensures |f| == 13 && f[0] == e.ino && f[1] == e.mode && f[4] == e.nlink && f[6] == |e.data| && f[11] == |e.name| + 1 && f[12] == 0
    ensures f[9] == (if e.rdev.Some? then e.rdev.value.0 else 0) && f[10] == if e.rdev.Some? then e.rdev.value.1 else 0
  {
    [e.ino, e.mode, 0, 0, e.nlink, 0, |e.data|, 0, 0,
     if e.rdev.Some? then e.rdev.value.0 else 0, if e.rdev.Some? then e.rdev.value.1 else 0, |e.name| + 1, 0]
  }

  function HexFields(f: seq<u32>): (s: seq<byte>)
    ensures |s| == 8 * |f| && AllHex(s)
  {
    if f == [] then [] else HexFields(f[..|f| - 1]) + Hex(f[|f| - 1], 8)
  }

  lemma {:induction false} HexFieldAt(f: seq<u32>, k: nat)
    requires k < |f|
    ensures HexFields(f)[8 * k..8 * k + 8] == Hex(f[k], 8)
  {
    var head := HexFields(f[..|f| - 1]);
    if k < |f| - 1 {
      HexFieldAt(f[..|f| - 1], k);
      assert HexFields(f)[8 * k..8 * k + 8] == head[8 * k..8 * k + 8];
    }
  }

  function Align4(n: nat): (a: nat)
    ensures n <= a < n + 4 && a % 4 == 0
  {
    (n + 3) / 4 * 4
  }

  function Header(e: Entry): (h: seq<byte>)
    requires Encodable(e)
    ensures |h| == HEADER_SIZE
  {
    MAGIC + HexFields(Fields(e))
  }

  /** The bytes of an entry that starts at archive offset `at`. */
  function EntryAt(at: nat, e: Entry): (b: seq<byte>)
    requires Encodable(e)
    ensures (at + |b|) % 4 == 0
  {
    var start := at + HEADER_SIZE + |e.name| + 1;
    var end := Align4(start) + |e.data|;
    Header(e) + (e.name + [0]) + Zeros(Align4(start) - start) + e.data + Zeros(Align4(end) - end)
  }

  method PadTo4(out: seq<byte>) returns (padded: seq<byte>)
    ensures padded == out + Zeros(Align4(|out|) - |out|)
  {
    padded := out;
    while |padded| % 4 != 0
      invariant |out| <= |padded| <= Align4(|out|)
      invariant padded == out + Zeros(|padded| - |out|)
      decreases Align4(|out|) - |padded|
    {
      padded := padded + [0];
    }
  }

  method CpioEntry(out: seq<byte>, e: Entry) returns (more: seq<byte>)
    requires Encodable(e)
    ensures more == out + EntryAt(|out|, e)
  {
    hide Header, Zeros;
    var h := Header(e);
    more := out + h;
    more := more + e.name;
    more := more + [0];
    ghost var start := |out| + HEADER_SIZE + |e.name| + 1;
    more := PadTo4(more);
    more := more + e.data;
    more := PadTo4(more);
    Reassociate(out, h, e.name, Zeros(Align4(start) - start), e.data, Zeros(Align4(Align4(start) + |e.data|) - Align4(start) - |e.data|));
  }

  lemma {:induction false} Reassociate(out: seq<byte>, h: seq<byte>, name: seq<byte>, z: seq<byte>, d: seq<byte>, y: seq<byte>)
    ensures out + h + name + [0] + z + d + y == out + (h + (name + [0]) + z + d + y)
  {}

  // ---- reading ----

  datatype Parsed = Parsed(fields: seq<nat>, name: seq<byte>, data: seq<byte>, next: nat)

  function ParseFields(b: seq<byte>): (f: seq<nat>)
    requires |b| == 104 && AllHex(b)
    ensures |f| == 13
  {
    seq(13, k requires 0 <= k < 13 => ParseHex(b[8 * k..8 * k + 8]))
  }

  /** One record: a well-formed header, a NUL-terminated name without other NULs, the data, and
      where the next record starts; nothing may run past the end. */
  function ParseEntry(b: seq<byte>): (p: Option<Parsed>)
    ensures p.Some? ==> HEADER_SIZE < p.value.next <= |b|
  {
    if |b| < HEADER_SIZE || b[..6] != MAGIC || !AllHex(b[6..HEADER_SIZE]) then None else
      var f := ParseFields(b[6..HEADER_SIZE]);
      var nameEnd := HEADER_SIZE + f[11];
      if nameEnd > |b| then None else
        var name := b[HEADER_SIZE..nameEnd];
        if f[11] == 0 || name[f[11] - 1] != 0 || 0 in name[..f[11] - 1] || f[12] != 0 then None else
          var dataStart := Align4(nameEnd);
          var next := Align4(dataStart + f[6]);
          if next > |b| then None
          else Some(Parsed(f, name[..f[11] - 1], b[dataStart..dataStart + f[6]], next))
  }

  /** The bytes after the first NUL-padding run. */
  function SkipPadding(b: seq<byte>): (r: seq<byte>)
    ensures |r| <= |b|
  {
    if b == [] || b[0] != 0 then b else SkipPadding(b[1..])
  }

  /** The records of one archive up to and including its trailer, and the bytes after it. */
  function ParseArchive(b: seq<byte>): (r: Option<(seq<Parsed>, seq<byte>)>)
    ensures r.Some? ==> |r.value.1| < |b|
    decreases |b|
  {
    var p := ParseEntry(b);
    if p.None? then None
    else if p.value.name == TRAILER then
      if p.value.data == [] then Some(([p.value], b[p.value.next..])) else None
    else
      var r := ParseArchive(b[p.value.next..]);
      if r.None? then None else Some(([p.value] + r.value.0, r.value.1))
  }

  /** One or more complete archives with NUL padding between and after them. */
  predicate Valid(b: seq<byte>)
    decreases |b|
  {
    var a := ParseArchive(b);
    a.Some? && var rest := SkipPadding(a.value.1); rest == [] || Valid(rest)
  }

  method CheckHeader(header: seq<byte>) returns (fields: Option<seq<nat>>)
    requires |header| == HEADER_SIZE
    ensures fields.Some? <==> header[..6] == MAGIC && AllHex(header[6..])
    ensures fields.Some? ==> fields.value == ParseFields(header[6..])
  {
    if header[..6] != MAGIC { return None; }
    var digits := header[6..];
    var f: seq<nat> := [];
    for k := 0 to 13
      invariant |f| == k && AllHex(digits[..8 * k])
      invariant forall i :: 0 <= i < k ==> AllHex(digits[8 * i..8 * i + 8]) && f[i] == ParseHex(digits[8 * i..8 * i + 8])
    {
      var hex := digits[8 * k..8 * k + 8];
      if !AllHex(hex) {
        var i :| 0 <= i < 8 && !IsHex(hex[i]);
        assert digits[8 * k + i] == hex[i];
        return None;
      }
      assert digits[..8 * (k + 1)] == digits[..8 * k] + hex;
      f := f + [ParseHex(hex)];
    }
    assert digits[..104] == digits;
    return Some(f);
  }

  method CheckEntry(bytes: seq<byte>) returns (record: Option<Parsed>)
    ensures record == ParseEntry(bytes)
  {
    if |bytes| < HEADER_SIZE { return None; }
    var header := bytes[..HEADER_SIZE];
    assert header[..6] == bytes[..6] && header[6..] == bytes[6..HEADER_SIZE];
    var fields := CheckHeader(header);
    if fields.None? { return None; }
    var size, namesize := fields.value[6], fields.value[11];
    var nameEnd := HEADER_SIZE + namesize;
    if nameEnd > |bytes| { return None; }
    var name := bytes[HEADER_SIZE..nameEnd];
    if namesize == 0 || name[namesize - 1] != 0 || 0 in name[..namesize - 1] || fields.value[12] != 0 { return None; }
    var dataStart := Align4(nameEnd);
    var dataEnd := dataStart + size;
    var next := Align4(dataEnd);
    if next > |bytes| { return None; }
    return Some(Parsed(fields.value, name[..namesize - 1], bytes[dataStart..dataEnd], next));
  }

  /** Accepts exactly the concatenations of complete archives. */
  method ValidateCpio(input: seq<byte>) returns (ok: bool)
    ensures ok <==> Valid(input)
  {
    hide Valid, ParseArchive, ParseEntry, SkipPadding;
    var bytes := input;
    while true
      invariant Valid(input) <==> Valid(bytes)
      decreases |bytes|
    {
      ghost var archive := bytes;
      ghost var whole := ParseArchive(archive);
      while true
        invariant |bytes| <= |archive|
        invariant whole.Some? <==> ParseArchive(bytes).Some?
        invariant whole.Some? ==> whole.value.1 == ParseArchive(bytes).value.1
        decreases |bytes|
      {
        var record := CheckEntry(bytes);
        RecordStep(bytes);
        if record.None? { ArchiveStep(archive); return false; }
        var rest := bytes[record.value.next..];
        if record.value.name == TRAILER {
          if record.value.data != [] { ArchiveStep(archive); return false; }
          bytes := rest;
          break;
        }
        bytes := rest;
      }
      ArchiveStep(archive);
      bytes := SkipPadding(bytes);
      if bytes == [] { return true; }
    }
  }

  lemma {:induction false} ArchiveStep(b: seq<byte>)
    ensures ParseArchive(b).None? ==> !Valid(b)
    ensures ParseArchive(b).Some? ==>
      var rest := SkipPadding(ParseArchive(b).value.1);
      Valid(b) <==> rest == [] || Valid(rest)
  {}

  lemma {:induction false} RecordStep(b: seq<byte>)
    ensures
      var p := ParseEntry(b);
      if p.None? then ParseArchive(b).None?
      else if p.value.name == TRAILER then
        if p.value.data == [] then ParseArchive(b) == Some(([p.value], b[p.value.next..])) else ParseArchive(b).None?
      else
        var r := ParseArchive(b[p.value.next..]);
        && (ParseArchive(b).Some? <==> r.Some?)
        && (r.Some? ==> ParseArchive(b) == Some(([p.value] + r.value.0, r.value.1)))
  {}

  // ---- the printer and the reader agree ----

  /** A record's place in a longer byte string does not matter to the reader. */
  lemma {:induction false} ParseEntryPrefix(p: seq<byte>, f: seq<byte>)
    requires p <= f && ParseEntry(p).Some?
    ensures ParseEntry(f) == ParseEntry(p)
  {
    hide AllHex, ParseFields;
    var r := ParseEntry(p).value;
    PrefixSlice(p, f, 0, 6);
    PrefixSlice(p, f, 6, HEADER_SIZE);
    var fields := ParseFields(p[6..HEADER_SIZE]);
    var nameEnd := HEADER_SIZE + fields[11];
    PrefixSlice(p, f, HEADER_SIZE, nameEnd);
    PrefixSlice(p, f, Align4(nameEnd), Align4(nameEnd) + fields[6]);
    assert p[..6] == p[0..6] && f[..6] == f[0..6];
  }

  lemma {:induction false} PrefixSlice(p: seq<byte>, f: seq<byte>, lo: nat, hi: nat)
    requires p <= f && lo <= hi <= |p|
    ensures f[lo..hi] == p[lo..hi]
  {}

  lemma {:induction false} HeaderFieldsParse(e: Entry)
    requires Encodable(e)
    ensures Header(e)[..6] == MAGIC && AllHex(Header(e)[6..]) && ParseFields(Header(e)[6..]) == Fields(e)
  {
    var h, f := Header(e)[6..], Fields(e);
    assert h == HexFields(f);
    hide HexFields, Hex, Header, Fields;
    forall k | 0 <= k < 13 ensures ParseFields(h)[k] == f[k] {
      HexFieldAt(f, k);
      EightHexDigits(f[k]);
    }
    assert ParseFields(h) == f;
  }

  /** What the reader makes of an emitted entry. */
  function Record(e: Entry): (p: Parsed)
    requires Encodable(e)
  {
    Parsed(Fields(e), e.name, e.data, |EntryAt(0, e)|)
  }

  lemma {:induction false} EntryAligned(at: nat, e: Entry)
    requires Encodable(e) && at % 4 == 0
    ensures EntryAt(at, e) == EntryAt(0, e)
  {
    var start := HEADER_SIZE + |e.name| + 1;
    hide Header, Zeros, Align4;
    Align4Shift(at, start);
    Align4Shift(at, Align4(start) + |e.data|);
  }

  lemma {:induction false} Align4Shift(at: nat, n: nat)
    requires at % 4 == 0
    ensures Align4(at + n) == at + Align4(n)
  {}

  /** An emitted entry reads back as itself. */
  lemma {:induction false} EntryRoundTrip(e: Entry)
    requires Encodable(e) && 0 !in e.name
    ensures ParseEntry(EntryAt(0, e)) == Some(Record(e))
  {
    HeaderFieldsParse(e);
    EntryPieces(e);
    var b, f, h := EntryAt(0, e), Fields(e), Header(e);
    hide EntryAt, Header, Fields, AllHex, ParseFields, ParseEntry, Align4;
    assert b[..6] == b[0..HEADER_SIZE][..6] && b[6..HEADER_SIZE] == b[0..HEADER_SIZE][6..];
    ParsePieces(b, f, e.name, e.data);
  }

  lemma {:induction false} ParsePieces(b: seq<byte>, f: seq<nat>, name: seq<byte>, data: seq<byte>)
    requires |b| >= HEADER_SIZE && b[..6] == MAGIC && AllHex(b[6..HEADER_SIZE]) && ParseFields(b[6..HEADER_SIZE]) == f
    requires |f| == 13 && f[6] == |data| && f[11] == |name| + 1 && f[12] == 0 && 0 !in name
    requires |b| == Align4(Align4(HEADER_SIZE + f[11]) + |data|)
    requires b[HEADER_SIZE..HEADER_SIZE + f[11]] == name + [0]
    requires b[Align4(HEADER_SIZE + f[11])..Align4(HEADER_SIZE + f[11]) + |data|] == data
    ensures ParseEntry(b) == Some(Parsed(f, name, data, |b|))
  {
    hide AllHex, ParseFields;
    assert (name + [0])[..|name|] == name;
  }

  lemma {:induction false} EntryPieces(e: Entry)
    requires Encodable(e)
    ensures
      var b, start := EntryAt(0, e), HEADER_SIZE + |e.name| + 1;
      && |b| == Align4(Align4(start) + |e.data|)
      && b[0..HEADER_SIZE] == Header(e)
      && b[HEADER_SIZE..start] == e.name + [0]
      && b[Align4(start)..Align4(start) + |e.data|] == e.data
  {
    hide Header, Zeros, Align4;
    var start := HEADER_SIZE + |e.name| + 1;
    FivePieces(Header(e), e.name + [0], Zeros(Align4(start) - start), e.data,
               Zeros(Align4(Align4(start) + |e.data|) - Align4(start) - |e.data|));
  }

  lemma {:induction false} FivePieces(a: seq<byte>, b: seq<byte>, c: seq<byte>, d: seq<byte>, e: seq<byte>)
    ensures
      var s := a + b + c + d + e;
      && s[0..|a|] == a && s[|a|..|a| + |b|] == b
      && s[|a| + |b| + |c|..|a| + |b| + |c| + |d|] == d
  {}

  // ---- archives ----

  predicate Clean(e: Entry) { Encodable(e) && 0 !in e.name }

  predicate AllClean(es: seq<Entry>) { forall i :: 0 <= i < |es| ==> Clean(es[i]) }

  /** The entries written one after another. */
  function Emit(es: seq<Entry>): (b: seq<byte>)
    requires AllClean(es)
    ensures |b| % 4 == 0
  {
    if es == [] then [] else
      var b := Emit(es[..|es| - 1]);
      b + EntryAt(|b|, es[|es| - 1])
  }

  lemma {:induction false} EmitNext(es: seq<Entry>, e: Entry)
    requires AllClean(es) && Clean(e)
    ensures Emit(es + [e]) == Emit(es) + EntryAt(|Emit(es)|, e)
  {
    hide EntryAt;
    assert (es + [e])[..|es|] == es;
  }

  lemma {:induction false} EmitFirst(e: Entry, es: seq<Entry>)
    requires AllClean(es) && Clean(e)
    ensures AllClean([e] + es) && Emit([e] + es) == EntryAt(0, e) + Emit(es)
    decreases |es|
  {
    hide EntryAt, Emit;
    EmitNothing();
    if es == [] {
      EmitNext([], e);
      assert [] + [e] == [e] + es;
      assert EntryAt(0, e) + [] == EntryAt(0, e) && [] + EntryAt(0, e) == EntryAt(0, e);
    } else {
      var front, last := es[..|es| - 1], es[|es| - 1];
      EmitFirst(e, front);
      EmitNext([e] + front, last);
      EmitNext(front, last);
      assert [e] + front + [last] == [e] + es && front + [last] == es;
      EntryAligned(|Emit([e] + front)|, last);
      EntryAligned(|Emit(front)|, last);
    }
  }

  function TrailerEntry(): (e: Entry)
    ensures Clean(e)
  {
    Entry(0, 0, 1, TRAILER, [], None)
  }

  /** Entries whose names are not the trailer's. */
  predicate Members(es: seq<Entry>) {
    AllClean(es) && forall i :: 0 <= i < |es| ==> es[i].name != TRAILER
  }

  function Records(es: seq<Entry>): (r: seq<Parsed>)
    requires Members(es)
    ensures |r| == |es|
  {
    seq(|es|, i requires 0 <= i < |es| => Record(es[i]))
  }

  /** The members and the trailer as one archive. */
  function Archive(es: seq<Entry>): (b: seq<byte>)
    requires Members(es)
  {
    Emit(es + [TrailerEntry()])
  }

  /** The reader recovers every record of a generated archive and what follows it. */
  lemma {:induction false} ArchiveRoundTrip(es: seq<Entry>, rest: seq<byte>)
    requires Members(es)
    ensures ParseArchive(Archive(es) + rest) == Some((Records(es) + [Record(TrailerEntry())], rest))
    decreases |es|
  {
    hide ParseArchive, ParseEntry, EntryAt, Emit, Record;
    var e := if es == [] then TrailerEntry() else es[0];
    var tail := if es == [] then [] else es[1..] + [TrailerEntry()];
    assert es + [TrailerEntry()] == [e] + tail;
    assert AllClean(tail);
    EmitFirst(e, tail);
    EmitNothing();
    var first := EntryAt(0, e);
    var b := Archive(es) + rest;
    var after := Emit(tail) + rest;
    assert b == first + after;
    FirstRecord(e, after);
    RecordStep(b);
    if es != [] {
      ArchiveRoundTrip(es[1..], rest);
      assert Records(es) == [Record(e)] + Records(es[1..]);
      assert [Record(e)] + (Records(es[1..]) + [Record(TrailerEntry())]) == Records(es) + [Record(TrailerEntry())];
    } else {
      assert after == rest;
      assert Records(es) + [Record(TrailerEntry())] == [Record(TrailerEntry())];
    }
  }

  lemma {:induction false} EmitNothing()
    ensures Emit([]) == []
  {}

  lemma {:induction false} FirstRecord(e: Entry, after: seq<byte>)
    requires Clean(e)
    ensures
      var b := EntryAt(0, e) + after;
      && ParseEntry(b) == Some(Record(e)) && Record(e).name == e.name && Record(e).data == e.data
      && Record(e).next <= |b| && b[Record(e).next..] == after
  {
    EntryRoundTrip(e);
    ParseEntryPrefix(EntryAt(0, e), EntryAt(0, e) + after);
    hide ParseEntry, EntryAt;
  }

  lemma {:induction false} SkipNothing()
    ensures SkipPadding([]) == []
  {}

  /** Every generated archive is accepted. */
  lemma {:induction false} ArchiveIsValid(es: seq<Entry>)
    requires Members(es)
    ensures Valid(Archive(es))
  {
    hide *;
    ArchiveRoundTrip(es, []);
    assert Archive(es) + [] == Archive(es);
    ArchiveStep(Archive(es));
    SkipNothing();
  }

  /** An archive reads the same whatever follows it. */
  lemma {:induction false} ParseArchiveExtends(a: seq<byte>, x: seq<byte>)
    requires ParseArchive(a).Some?
    ensures ParseArchive(a + x) == Some((ParseArchive(a).value.0, ParseArchive(a).value.1 + x))
    decreases |a|
  {
    hide ParseArchive, ParseEntry;
    RecordStep(a);
    RecordStep(a + x);
    var p := ParseEntry(a).value;
    ParseEntryPrefix(a, a + x);
    assert (a + x)[p.next..] == a[p.next..] + x;
    if p.name != TRAILER { ParseArchiveExtends(a[p.next..], x); }
  }

  /** No strict prefix of a generated archive is accepted. */
  lemma {:induction false} StrictPrefixIsInvalid(es: seq<Entry>, p: seq<byte>)
    requires Members(es) && p < Archive(es)
    ensures !Valid(p)
  {
    hide *;
    var f := Archive(es);
    ArchiveStep(p);
    ArchiveRoundTrip(es, []);
    assert f + [] == f && p + f[|p|..] == f;
    if ParseArchive(p).Some? { ParseArchiveExtends(p, f[|p|..]); }
  }

  lemma {:induction false} SkipPaddingThrough(r: seq<byte>, n: nat, b: seq<byte>)
    requires b != [] && b[0] != 0
    decreases |r| + n
    ensures
      if SkipPadding(r) == [] then SkipPadding(r + Zeros(n) + b) == b
      else SkipPadding(r + Zeros(n) + b) == SkipPadding(r) + Zeros(n) + b
  {
    hide SkipPadding;
    SkipStep(r);
    SkipStep(r + Zeros(n) + b);
    if r == [] {
      if n == 0 {
        assert r + Zeros(n) + b == b;
      } else {
        SkipPaddingThrough(r, n - 1, b);
        assert (r + Zeros(n) + b)[1..] == r + Zeros(n - 1) + b;
      }
    } else if r[0] == 0 {
      SkipPaddingThrough(r[1..], n, b);
      assert (r + Zeros(n) + b)[1..] == r[1..] + Zeros(n) + b;
    }
  }

  lemma {:induction false} SkipStep(b: seq<byte>)
    ensures SkipPadding(b) == if b == [] || b[0] != 0 then b else SkipPadding(b[1..])
  {}

  lemma {:induction false} ValidStarts(b: seq<byte>)
    requires Valid(b)
    ensures b != [] && b[0] != 0
  {
    hide ParseFields, AllHex, SkipPadding;
    assert ParseEntry(b).Some?;
    assert b[..6][0] == b[0];
  }

  /** Accepted inputs may be joined by any NUL padding. */
  lemma {:induction false} ValidConcat(a: seq<byte>, n: nat, b: seq<byte>)
    requires Valid(a) && Valid(b)
    ensures Valid(a + Zeros(n) + b)
    decreases |a|
  {
    hide *;
    ValidStarts(b);
    ArchiveStep(a);
    var rest := ParseArchive(a).value.1;
    ParseArchiveExtends(a, Zeros(n) + b);
    assert a + (Zeros(n) + b) == a + Zeros(n) + b && rest + (Zeros(n) + b) == rest + Zeros(n) + b;
    SkipPaddingThrough(rest, n, b);
    ArchiveStep(a + Zeros(n) + b);
    if SkipPadding(rest) != [] { ValidConcat(SkipPadding(rest), n, b); }
  }

  // ---- the single-binary archive ----

  function ModeDir(): u32 { 0x41ED }
  function ModeConsole(): u32 { 0x21B6 }
  function ModeInit(): u32 { 0x81ED }

  const DOT: seq<byte> := [0x2E]
  const DEV: seq<byte> := [0x64, 0x65, 0x76]
  const CONSOLE: seq<byte> := [0x64, 0x65, 0x76, 0x2F, 0x63, 0x6F, 0x6E, 0x73, 0x6F, 0x6C, 0x65]
  const INIT: seq<byte> := [0x69, 0x6E, 0x69, 0x74]

  function ConsoleEntry(ino: u32): Entry { Entry(ino, ModeConsole(), 1, CONSOLE, [], Some((5, 1))) }
  function InitEntry(ino: u32, binary: seq<byte>): Entry { Entry(ino, ModeInit(), 1, INIT, binary, None) }

  function WrapEntries(binary: seq<byte>): seq<Entry> {
    [Entry(1, ModeDir(), 3, DOT, [], None), Entry(2, ModeDir(), 2, DEV, [], None), ConsoleEntry(3), InitEntry(4, binary)]
  }

  method WrapAsCpio(binary: seq<byte>) returns (out: seq<byte>)
    requires |binary| < U32_LIMIT
    ensures Members(WrapEntries(binary)) && out == Archive(WrapEntries(binary)) && Valid(out)
  {
    hide EntryAt, Emit, Valid;
    ghost var es := WrapEntries(binary);
    assert Members(es);
    EmitNothing();
    out := CpioEntry([], Entry(1, ModeDir(), 3, DOT, [], None));
    EmitNext([], es[0]);
    out := CpioEntry(out, Entry(2, ModeDir(), 2, DEV, [], None));
    EmitNext(es[..1], es[1]);
    out := CpioEntry(out, ConsoleEntry(3));
    EmitNext(es[..2], es[2]);
    out := CpioEntry(out, InitEntry(4, binary));
    EmitNext(es[..3], es[3]);
    out := CpioEntry(out, TrailerEntry());
    EmitNext(es, TrailerEntry());
    assert es[..1] == [] + [es[0]] && es[..2] == es[..1] + [es[1]] && es[..3] == es[..2] + [es[2]] && es == es[..3] + [es[3]];
    ArchiveIsValid(es);
  }
}
