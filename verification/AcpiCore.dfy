/** Checksummed ACPI tables and bounded writes into their slots. */
module AcpiCore {
  import opened Outcomes
  import opened Words
  import opened Buffers

  type u8 = byte
  type u16 = x: nat | x < U16_LIMIT
  type u32 = x: nat | x < U32_LIMIT
  type u64 = x: nat | x < U64_LIMIT

  /** The generator's tree and accounting errors, not told apart here. */
  datatype DtbError = Dtb

  // ---- checksums ----

  /** Eight-bit wrapping addition. */
  function WrapAdd(a: byte, b: byte): (c: byte)
    ensures c == (a + b) % 0x100
  {
    if a + b < 0x100 then a + b else a + b - 0x100
  }

  /** The sum of all bytes modulo 256. */
  function Sum(s: seq<byte>): (n: byte) {
    if s == [] then 0 else WrapAdd(Sum(s[..|s| - 1]), s[|s| - 1])
  }

  lemma {:induction false} WrapAddAssociates(a: byte, b: byte, c: byte)
    ensures WrapAdd(WrapAdd(a, b), c) == WrapAdd(a, WrapAdd(b, c))
  {}

  lemma {:induction false} SumJoin(a: seq<byte>, b: seq<byte>)
    ensures Sum(a + b) == WrapAdd(Sum(a), Sum(b))
  {
    if b == [] {
      assert a + b == a;
    } else {
      var n := |b| - 1;
      SumJoin(a, b[..n]);
      assert (a + b)[..|a + b| - 1] == a + b[..n];
      WrapAddAssociates(Sum(a), Sum(b[..n]), b[n]);
      hide WrapAdd;
    }
  }

  /** The byte that brings the sum to zero. */
  function Checksum(s: seq<byte>): (c: byte)
    ensures WrapAdd(Sum(s), c) == 0
  {
    if Sum(s) == 0 then 0 else 0x100 - Sum(s)
  }

  /** `t` with byte `at` chosen so that all of it sums to zero. */
  function Balanced(t: seq<byte>, at: nat): (r: seq<byte>)
    requires at < |t|
    ensures |r| == |t|
  {
    t[at := 0][at := Checksum(t[at := 0])]
  }

  lemma {:induction false} SumSplit(t: seq<byte>, at: nat, c: byte)
    requires at < |t|
    ensures Sum(t[at := c]) == WrapAdd(WrapAdd(Sum(t[..at]), c), Sum(t[at + 1..]))
  {
    hide WrapAdd;
    SumOne(c);
    SumJoin(t[..at], [c]);
    SumJoin(t[..at] + [c], t[at + 1..]);
    assert t[at := c] == t[..at] + [c] + t[at + 1..];
    hide Sum;
  }

  lemma {:induction false} SumOne(c: byte)
    ensures Sum([c]) == c
  {
    assert [c][..0] == [];
  }

  lemma {:induction false} BalancedSumsToZero(t: seq<byte>, at: nat)
    requires at < |t|
    ensures Sum(Balanced(t, at)) == 0
    ensures forall i :: 0 <= i < |t| && i != at ==> Balanced(t, at)[i] == t[i]
  {
    var z := t[at := 0];
    var c := Checksum(z);
    SumSplit(t, at, 0);
    SumSplit(t, at, c);
    assert z[at := c] == t[at := c];
    hide Sum, Checksum;
    var a, b := Sum(t[..at]), Sum(t[at + 1..]);
    assert WrapAdd(WrapAdd(a, c), b) == WrapAdd(WrapAdd(WrapAdd(a, 0), b), c);
  }

  // ---- tables ----

  datatype Oem = Oem(id: seq<byte>, tableId: seq<byte>, revision: u32, creatorId: seq<byte>, creatorRevision: u32)

  type OemIdentity = o: Oem | |o.id| == 6 && |o.tableId| == 8 && |o.creatorId| == 4
    witness Oem([0, 0, 0, 0, 0, 0], [0, 0, 0, 0, 0, 0, 0, 0], 0, [0, 0, 0, 0], 0)

  const SDT_HEADER_SIZE: nat := 36
  const CHECKSUM_AT: nat := 9

  function SdtHeader(signature: seq<byte>, length: u32, revision: byte, oem: OemIdentity): (h: seq<byte>)
    requires |signature| == 4
    ensures |h| == SDT_HEADER_SIZE
  {
    signature + Le32(length) + [revision, 0] + oem.id + oem.tableId + Le32(oem.revision) + oem.creatorId + Le32(oem.creatorRevision)
  }

  /** A finished table: header and body under one checksum. */
  function Table(signature: seq<byte>, revision: byte, oem: OemIdentity, body: seq<byte>): (t: seq<byte>)
    requires |signature| == 4 && SDT_HEADER_SIZE + |body| < U32_LIMIT
    ensures |t| == SDT_HEADER_SIZE + |body|
  {
    Balanced(SdtHeader(signature, SDT_HEADER_SIZE + |body|, revision, oem) + body, CHECKSUM_AT)
  }

  /** What an ACPI reader checks before using a table. */
  ghost predicate IsTable(t: seq<byte>, signature: seq<byte>) {
    |t| >= SDT_HEADER_SIZE && Sum(t) == 0 && t[..4] == signature && LeValue(t[4..8]) == |t|
  }

  lemma {:induction false} TableIsTable(signature: seq<byte>, revision: byte, oem: OemIdentity, body: seq<byte>)
    requires |signature| == 4 && SDT_HEADER_SIZE + |body| < U32_LIMIT
    ensures
      var t := Table(signature, revision, oem, body);
      IsTable(t, signature) && t[SDT_HEADER_SIZE..] == body
  {
    var h := SdtHeader(signature, SDT_HEADER_SIZE + |body|, revision, oem);
    assert h[..4] == signature && h[4..8] == Le32(SDT_HEADER_SIZE + |body|);
    hide SdtHeader, Balanced, Le32;
    FixedWidthRoundTrip(SDT_HEADER_SIZE + |body|);
    BalancedSumsToZero(h + body, CHECKSUM_AT);
    var t := Balanced(h + body, CHECKSUM_AT);
    assert t[..4] == h[..4] && t[4..8] == h[4..8];
  }

  // ---- slots ----

  /** A table's place in the output buffer. */
  datatype Slot = Slot(offset: nat, len: nat)

  function Cut(b: seq<byte>, s: Slot): seq<byte>
    requires s.offset + s.len <= |b|
  {
    b[s.offset..s.offset + s.len]
  }

  /** The slot now holds `t`, and nothing else changed. */
  ghost predicate Stored(before: seq<byte>, after: seq<byte>, s: Slot, t: seq<byte>) {
    s.offset + s.len <= |before| && |t| == s.len && after == Put(before, s.offset, t)
  }

  /** One run of adjacent writes into a slot: the buffer before it, where it began and its bytes. */
  datatype Trace = Trace(before: seq<byte>, slot: Slot, start: nat, done: seq<byte>)

  /** The run has reached `pos` and the buffer holds exactly its bytes there. */
  ghost predicate Writing(b: seq<byte>, w: Trace, pos: nat) {
    && w.slot.offset + w.slot.len <= |w.before| && pos == w.start + |w.done| <= w.slot.len
    && b == Put(w.before, w.slot.offset + w.start, w.done)
  }

  function Then(w: Trace, bytes: seq<byte>): (t: Trace)
    ensures t.before == w.before && t.slot == w.slot && t.start == w.start
  {
    w.(done := w.done + bytes)
  }

  function NewTrace(b: seq<byte>, s: Slot, pos: nat): Trace { Trace(b, s, pos, []) }

  lemma {:induction false} StartWriting(b: seq<byte>, s: Slot, pos: nat)
    requires s.offset + s.len <= |b| && pos <= s.len
    ensures Writing(b, NewTrace(b, s, pos), pos)
  {}

  lemma {:induction false} JoinThen(w: Trace, a: seq<byte>, b: seq<byte>)
    ensures Then(Then(w, a), b) == Then(w, a + b)
  {
    assert w.done + a + b == w.done + (a + b);
  }

  lemma {:induction false} ThenNothing(w: Trace)
    ensures Then(w, []) == w
  {}

  lemma {:induction false} WritingBounds(b: seq<byte>, w: Trace, pos: nat)
    requires Writing(b, w, pos)
    ensures |b| == |w.before| && w.slot.offset + w.slot.len <= |b| && pos == w.start + |w.done| <= w.slot.len
  {}

  lemma {:induction false} WriteMore(b: seq<byte>, w: Trace, pos: nat, bytes: seq<byte>)
    requires Writing(b, w, pos) && pos + |bytes| <= w.slot.len
    ensures w.slot.offset + pos + |bytes| <= |b|
    ensures Writing(Put(b, w.slot.offset + pos, bytes), Then(w, bytes), pos + |bytes|)
  {
    PutAdjacent(w.before, w.slot.offset + w.start, w.done, bytes);
  }

  /** Writes at `pos` unless the slot is too short. */
  method WriteBytes(buf: array<byte>, s: Slot, pos: nat, bytes: seq<byte>, ghost w: Trace) returns (r: Result<nat, DtbError>)
    requires Writing(buf[..], w, pos) && w.slot == s
    modifies buf
    ensures r.Success? <==> pos + |bytes| <= s.len
    ensures r.Success? ==> r.value == pos + |bytes| && Writing(buf[..], Then(w, bytes), r.value)
  {
    hide Writing, Put;
    WritingBounds(buf[..], w, pos);
    var end := pos + |bytes|;
    if end > s.len { return Failure(Dtb); }
    WriteMore(buf[..], w, pos, bytes);
    WriteAt(buf, s.offset + pos, bytes);
    return Success(end);
  }

  /** Patches the table checksum of the slot. */
  method SetSdtChecksum(buf: array<byte>, s: Slot) returns (r: Result<(), DtbError>)
    requires s.offset + s.len <= buf.Length
    modifies buf
    ensures r.Success? <==> CHECKSUM_AT < s.len
    ensures r.Success? ==> buf[..] == Put(old(buf[..]), s.offset, Balanced(Cut(old(buf[..]), s), CHECKSUM_AT))
  {
    if s.len <= CHECKSUM_AT { return Failure(Dtb); }
    ghost var b := buf[..];
    buf[s.offset + CHECKSUM_AT] := 0;
    assert buf[s.offset..s.offset + s.len] == Cut(b, s)[CHECKSUM_AT := 0];
    hide Checksum;
    var c := Checksum(buf[s.offset..s.offset + s.len]);
    buf[s.offset + CHECKSUM_AT] := c;
    assert forall i :: 0 <= i < buf.Length ==> buf[i] == Put(b, s.offset, Balanced(Cut(b, s), CHECKSUM_AT))[i];
    return Success(());
  }

  /** A slot filled from its start to its end, then sealed, holds the sealed table. */
  lemma {:induction false} SealFilledSlot(before: seq<byte>, s: Slot, t: seq<byte>, b: seq<byte>)
    requires Writing(b, Then(NewTrace(before, s, 0), t), s.len) && CHECKSUM_AT < s.len
    ensures s.offset + s.len <= |before| && |t| == s.len && |b| == |before|
    ensures Put(b, s.offset, Balanced(Cut(b, s), CHECKSUM_AT)) == Put(before, s.offset, Balanced(t, CHECKSUM_AT))
  {
    hide Balanced;
    assert [] + t == t;
    assert Cut(b, s) == t;
  }

  /** The table of a body, when its length fits the header. */
  function MakeTable(signature: seq<byte>, revision: byte, oem: OemIdentity, body: seq<byte>): (t: Option<seq<byte>>)
    requires |signature| == 4
    ensures t.Some? ==> |t.value| == SDT_HEADER_SIZE + |body| < U32_LIMIT
  {
    if SDT_HEADER_SIZE + |body| < U32_LIMIT then Some(Table(signature, revision, oem, body)) else None
  }

  /** Sealing a slot that holds a whole header and body yields the finished table. */
  lemma {:induction false} FinishTable(before: seq<byte>, s: Slot, signature: seq<byte>, revision: byte, oem: OemIdentity, body: seq<byte>, b: seq<byte>)
    requires |signature| == 4 && s.len == SDT_HEADER_SIZE + |body| && s.len < U32_LIMIT
    requires Writing(b, Then(NewTrace(before, s, 0), SdtHeader(signature, s.len, revision, oem) + body), s.len)
    ensures s.offset + s.len <= |before| && |b| == |before|
    ensures Stored(before, Put(b, s.offset, Balanced(Cut(b, s), CHECKSUM_AT)), s, Table(signature, revision, oem, body))
  {
    hide SdtHeader, Balanced, Put, Cut;
    SealFilledSlot(before, s, SdtHeader(signature, s.len, revision, oem) + body, b);
  }

  /** The checksum pass that ends every table; a table that fills its slot is then complete. */
  method SealTable(buf: array<byte>, s: Slot, ghost before: seq<byte>, ghost signature: seq<byte>, ghost revision: byte,
                   ghost oem: OemIdentity, ghost body: seq<byte>, ghost length: u32)
    returns (r: Result<(), DtbError>)
    requires |signature| == 4
    requires Writing(buf[..], Then(NewTrace(before, s, 0), SdtHeader(signature, length, revision, oem) + body), SDT_HEADER_SIZE + |body|)
    modifies buf
    ensures r.Success?
    ensures length == s.len == SDT_HEADER_SIZE + |body| ==>
      MakeTable(signature, revision, oem, body).Some? && Stored(before, buf[..], s, MakeTable(signature, revision, oem, body).value)
  {
    hide Writing, Then, SdtHeader, Put, Balanced, Table, NewTrace, Cut, Stored;
    TraceSlot(before, s);
    WritingBounds(buf[..], Then(NewTrace(before, s, 0), SdtHeader(signature, length, revision, oem) + body), SDT_HEADER_SIZE + |body|);
    if length == s.len == SDT_HEADER_SIZE + |body| { FinishTable(before, s, signature, revision, oem, body, buf[..]); }
    r := SetSdtChecksum(buf, s);
  }

  /** Writes the common header and the fixed fields that follow it. */
  method WriteTableHeader(buf: array<byte>, s: Slot, signature: seq<byte>, revision: byte, oem: OemIdentity, fixed: seq<byte>)
    returns (r: Result<nat, DtbError>)
    requires s.offset + s.len <= buf.Length && |signature| == 4
    modifies buf
    ensures r.Success? <==> s.len < U32_LIMIT && SDT_HEADER_SIZE + |fixed| <= s.len
    ensures r.Success? ==> r.value == SDT_HEADER_SIZE + |fixed|
    ensures r.Success? ==> Writing(buf[..], Then(NewTrace(old(buf[..]), s, 0), SdtHeader(signature, s.len, revision, oem) + fixed), r.value)
  {
    hide Writing, Then, SdtHeader, NewTrace;
    StartWriting(buf[..], s, 0);
    TraceSlot(buf[..], s);
    if s.len >= U32_LIMIT { return Failure(Dtb); }
    r := WriteBytes(buf, s, 0, SdtHeader(signature, s.len, revision, oem) + fixed, NewTrace(buf[..], s, 0));
  }

  lemma {:induction false} TraceSlot(before: seq<byte>, s: Slot)
    ensures NewTrace(before, s, 0).before == before && NewTrace(before, s, 0).slot == s && NewTrace(before, s, 0).start == 0
  {}
}
