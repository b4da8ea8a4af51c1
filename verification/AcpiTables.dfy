/** The emitters of RSDP, FADT, MADT, MCFG, SPCR, SRAT and XSDT. */
module AcpiTables {
  import opened Outcomes
  import opened Words
  import opened Buffers
  import opened AcpiCore
  import opened DeviceTree
  import opened AcpiEntries
  import opened AcpiWalks

  // ---- RSDP ----

  const RSDP_SIZE: nat := 36
  const RSD_PTR: seq<byte> := [0x52, 0x53, 0x44, 0x20, 0x50, 0x54, 0x52, 0x20]

  function RawRsdp(xsdt: u64, oem: OemIdentity): (r: seq<byte>)
    ensures |r| == RSDP_SIZE
  {
    RSD_PTR + [0] + oem.id + [2] + Le32(0) + Le32(RSDP_SIZE) + Le64(xsdt) + [0, 0, 0, 0]
  }

  /** First the checksum of the first 20 bytes, then the one of all 36. */
  function Rsdp(xsdt: u64, oem: OemIdentity): (r: seq<byte>)
    ensures |r| == RSDP_SIZE
  {
    var raw := RawRsdp(xsdt, oem);
    Balanced(raw[8 := Checksum(raw[..20])], 32)
  }

  method EmitRsdp(buf: array<byte>, s: Slot, xsdt: u64, oem: OemIdentity) returns (r: Result<(), DtbError>)
    requires s.offset + s.len <= buf.Length
    modifies buf
    ensures r.Success? <==> RSDP_SIZE <= s.len
    ensures r.Success? && s.len == RSDP_SIZE ==> Stored(old(buf[..]), buf[..], s, Rsdp(xsdt, oem))
  {
    hide RawRsdp, Checksum;
    var t := RawRsdp(xsdt, oem);
    ghost var raw := t;
    var short := Checksum(t[..20]);
    t := t[8 := short];
    assert t[32] == 0 by { RsdpZeros(xsdt, oem); }
    assert t[32 := 0] == t;
    var extended := Checksum(t);
    t := t[32 := extended];
    assert t == Rsdp(xsdt, oem);
    if s.len < RSDP_SIZE { return Failure(Dtb); }
    WriteAt(buf, s.offset, t);
    return Success(());
  }

  lemma {:induction false} RsdpZeros(xsdt: u64, oem: OemIdentity)
    ensures RawRsdp(xsdt, oem)[8] == 0 && RawRsdp(xsdt, oem)[32] == 0
  {
    hide Le32, Le64;
  }

  /** Both RSDP checksums close, and the pointer field holds the XSDT's address. */
  lemma {:induction false} RsdpIsValid(xsdt: u64, oem: OemIdentity)
    ensures
      var r := Rsdp(xsdt, oem);
      r[..8] == RSD_PTR && Sum(r[..20]) == 0 && Sum(r) == 0 && LeValue(r[24..32]) == xsdt
  {
    hide Sum, Checksum, Balanced, RawRsdp, LeValue;
    var raw := RawRsdp(xsdt, oem);
    RsdpZeros(xsdt, oem);
    RawRsdpParts(xsdt, oem);
    var one := raw[8 := Checksum(raw[..20])];
    var r := Rsdp(xsdt, oem);
    BalancedSumsToZero(one, 32);
    ShortSum(raw[..20]);
    assert r[..20] == raw[..20][8 := Checksum(raw[..20])];
    assert r[..8] == raw[..8] && r[24..32] == raw[24..32];
    FixedWidthRoundTrip(xsdt);
  }

  lemma {:induction false} ShortSum(h: seq<byte>)
    requires |h| == 20 && h[8] == 0
    ensures Sum(h[8 := Checksum(h)]) == 0
  {
    hide Sum, Checksum;
    assert h[8 := 0] == h;
    BalancedSumsToZero(h, 8);
  }

  lemma {:induction false} RawRsdpParts(xsdt: u64, oem: OemIdentity)
    ensures RawRsdp(xsdt, oem)[..8] == RSD_PTR && RawRsdp(xsdt, oem)[24..32] == Le64(xsdt)
  {
    hide Le32, Le64;
  }

  // ---- FADT ----

  /** What the tree says about power-off and reset. */
  datatype FadtPlan = FadtPlan(sleep: u64, reset: Option<u64>, resetValue: byte, sleepValue: byte)

  const FADT_SIZE: nat := 276
  const FACP: seq<byte> := [0x46, 0x41, 0x43, 0x50]

  /** A byte register in system memory. */
  function Register(address: u64): (b: seq<byte>)
    ensures |b| == 12
  {
    [0, 8, 0, 1] + Le64(address)
  }

  function FadtBody(dsdt: u64, plan: FadtPlan): (b: seq<byte>)
    ensures |b| == FADT_SIZE - SDT_HEADER_SIZE
  {
    Le32(0) + Le32(if dsdt < U32_LIMIT then dsdt else 0) + Zeros(65) + [0x24, 0, 0]
    + Le32(if plan.reset.Some? then 0x10_0400 else 0x10_0000)
    + (if plan.reset.Some? then Register(plan.reset.value) else Zeros(12)) + [plan.resetValue, 0, 0, 5]
    + Le64(0) + Le64(dsdt) + Zeros(96) + Register(plan.sleep) + Register(plan.sleep) + Zeros(8)
  }

  method EmitFadt(buf: array<byte>, s: Slot, dsdt: u64, plan: FadtPlan, oem: OemIdentity) returns (r: Result<(), DtbError>)
    requires s.offset + s.len <= buf.Length
    modifies buf
    ensures r.Success? <==> FADT_SIZE <= s.len
    ensures r.Success? && s.len == FADT_SIZE ==>
      MakeTable(FACP, 6, oem, FadtBody(dsdt, plan)).Some? && Stored(old(buf[..]), buf[..], s, MakeTable(FACP, 6, oem, FadtBody(dsdt, plan)).value)
  {
    hide Writing, Then, NewTrace, SdtHeader, FadtBody, MakeTable, Stored;
    ghost var before := buf[..];
    StartWriting(before, s, 0);
    TraceSlot(before, s);
    var p :- WriteBytes(buf, s, 0, SdtHeader(FACP, FADT_SIZE, 6, oem) + FadtBody(dsdt, plan), NewTrace(before, s, 0));
    r := SealTable(buf, s, before, FACP, 6, oem, FadtBody(dsdt, plan), FADT_SIZE);
  }

  /** The DSDT pointer is the 64-bit field, and the 32-bit field when it fits. */
  lemma {:induction false} FadtPointsTo(dsdt: u64, plan: FadtPlan)
    ensures
      var b := FadtBody(dsdt, plan);
      && LeValue(b[140 - SDT_HEADER_SIZE..148 - SDT_HEADER_SIZE]) == dsdt
      && LeValue(b[40 - SDT_HEADER_SIZE..44 - SDT_HEADER_SIZE]) == if dsdt < U32_LIMIT then dsdt else 0
  {
    hide Le32, Le64, LeValue, Register, Zeros;
    FixedWidthRoundTrip(dsdt);
    FixedWidthRoundTrip(0);
    var b := FadtBody(dsdt, plan);
    assert b[104..112] == Le64(dsdt);
    assert b[4..8] == Le32(if dsdt < U32_LIMIT then dsdt else 0);
  }

  /** The sleep and reset registers, the reset value and the reset-supported flag stand where a reader
      looks for them. */
  lemma {:induction false} FadtRegisters(dsdt: u64, plan: FadtPlan)
    ensures
      var b := FadtBody(dsdt, plan);
      && LeValue(b[248 - SDT_HEADER_SIZE..256 - SDT_HEADER_SIZE]) == plan.sleep
      && LeValue(b[260 - SDT_HEADER_SIZE..268 - SDT_HEADER_SIZE]) == plan.sleep
      && (LeValue(b[112 - SDT_HEADER_SIZE..116 - SDT_HEADER_SIZE]) / 0x400 % 2 == 1 <==> plan.reset.Some?)
      && (plan.reset.Some? ==> LeValue(b[120 - SDT_HEADER_SIZE..128 - SDT_HEADER_SIZE]) == plan.reset.value)
      && b[128 - SDT_HEADER_SIZE] == plan.resetValue
  {
    hide Le32, Le64, LeValue, Zeros;
    FixedWidthRoundTrip(plan.sleep);
    if plan.reset.Some? { FixedWidthRoundTrip(plan.reset.value); }
    FixedWidthRoundTrip(0x10_0400);
    FixedWidthRoundTrip(0x10_0000);
    var b := FadtBody(dsdt, plan);
    assert b[212..220] == Le64(plan.sleep) && b[224..232] == Le64(plan.sleep);
    assert b[76..80] == Le32(if plan.reset.Some? then 0x10_0400 else 0x10_0000);
    assert plan.reset.Some? ==> b[84..92] == Le64(plan.reset.value);
  }

  // ---- MADT ----

  const APIC: seq<byte> := [0x41, 0x50, 0x49, 0x43]
  const MADT_REVISION: byte := 5

  /** Both entries of each of the first `n` processors. */
  function CpuEntries(cpus: seq<Cpu>): (b: seq<byte>)
    requires |cpus| <= U32_LIMIT
  {
    if cpus == [] then [] else
      var uid := |cpus| - 1;
      CpuEntries(cpus[..uid]) + LapicEntry(uid, cpus[uid]) + NmiEntry(uid)
  }

  function MadtFixed(lapic: u32): (b: seq<byte>)
    ensures |b| == 8
  {
    Le32(lapic) + Le32(0)
  }

  function MadtBody(lapic: u32, cpus: seq<Cpu>, ioapics: seq<seq<byte>>): (b: seq<byte>)
    requires |cpus| <= U32_LIMIT
  {
    MadtFixed(lapic) + CpuEntries(cpus) + Flat(ioapics)
  }

  method EmitCpuEntries(buf: array<byte>, s: Slot, pos: nat, cpus: seq<Cpu>, ghost w: Trace) returns (r: Result<nat, DtbError>)
    requires Writing(buf[..], w, pos) && w.slot == s && |cpus| <= U32_LIMIT
    modifies buf
    ensures r.Success? <==> pos + |CpuEntries(cpus)| <= s.len
    ensures r.Success? ==> r.value == pos + |CpuEntries(cpus)| && Writing(buf[..], Then(w, CpuEntries(cpus)), r.value)
  {
    hide Writing, Then, LapicEntry, NmiEntry;
    ThenNothing(w);
    WritingBounds(buf[..], w, pos);
    var cursor := pos;
    for i := 0 to |cpus|
      invariant cursor == pos + |CpuEntries(cpus[..i])| <= s.len && Writing(buf[..], Then(w, CpuEntries(cpus[..i])), cursor)
    {
      ghost var acc := CpuEntries(cpus[..i]);
      CpuEntriesGrow(cpus, i + 1);
      assert cpus[..i + 1][..i] == cpus[..i];
      var lapic, nmi := LapicEntry(i, cpus[i]), NmiEntry(i);
      cursor :- WriteBytes(buf, s, cursor, lapic, Then(w, acc));
      JoinThen(w, acc, lapic);
      cursor :- WriteBytes(buf, s, cursor, nmi, Then(w, acc + lapic));
      JoinThen(w, acc + lapic, nmi);
    }
    assert cpus[..|cpus|] == cpus;
    return Success(cursor);
  }

  lemma {:induction false} CpuEntriesGrow(cpus: seq<Cpu>, i: nat)
    requires i <= |cpus| <= U32_LIMIT
    ensures |CpuEntries(cpus[..i])| <= |CpuEntries(cpus)|
    decreases |cpus| - i
  {
    hide LapicEntry, NmiEntry;
    if i < |cpus| {
      CpuEntriesGrow(cpus, i + 1);
      assert cpus[..i + 1][..i] == cpus[..i];
    } else {
      assert cpus[..i] == cpus;
    }
  }

  method EmitMadt(buf: array<byte>, s: Slot, oem: OemIdentity, children: seq<Node>, lapic: u32, cpus: seq<Cpu>) returns (r: Result<(), DtbError>)
    requires s.offset + s.len <= buf.Length && |cpus| <= U32_LIMIT
    modifies buf
    ensures r.Success? <==>
      s.len < U32_LIMIT && Blocks(IoApics, children).Some? && SDT_HEADER_SIZE + |MadtBody(lapic, cpus, Blocks(IoApics, children).value)| <= s.len
    ensures r.Success? && s.len == SDT_HEADER_SIZE + |MadtBody(lapic, cpus, Blocks(IoApics, children).value)| ==>
      var t := MakeTable(APIC, MADT_REVISION, oem, MadtBody(lapic, cpus, Blocks(IoApics, children).value));
      t.Some? && Stored(old(buf[..]), buf[..], s, t.value)
  {
    hide Writing, Then, NewTrace, SdtHeader, MadtFixed, CpuEntries, Blocks, Flat, MakeTable, Stored;
    ghost var before := buf[..];
    TraceSlot(before, s);
    ghost var w := NewTrace(before, s, 0);
    var p :- WriteTableHeader(buf, s, APIC, MADT_REVISION, oem, MadtFixed(lapic));
    ghost var acc := SdtHeader(APIC, s.len, MADT_REVISION, oem) + MadtFixed(lapic);
    p :- EmitCpuEntries(buf, s, p, cpus, Then(w, acc));
    JoinThen(w, acc, CpuEntries(cpus));
    acc := acc + CpuEntries(cpus);
    p :- EmitWalk(IoApics, buf, s, p, children, Then(w, acc));
    ghost var blocks := Blocks(IoApics, children).value;
    JoinThen(w, acc, Flat(blocks));
    assert acc + Flat(blocks) == SdtHeader(APIC, s.len, MADT_REVISION, oem) + MadtBody(lapic, cpus, blocks);
    r := SealTable(buf, s, before, APIC, MADT_REVISION, oem, MadtBody(lapic, cpus, blocks), s.len);
  }

  // ---- MCFG ----

  const MCFG: seq<byte> := [0x4D, 0x43, 0x46, 0x47]

  method EmitMcfg(buf: array<byte>, s: Slot, oem: OemIdentity, children: seq<Node>) returns (r: Result<(), DtbError>)
    requires s.offset + s.len <= buf.Length
    modifies buf
    ensures r.Success? <==>
      s.len < U32_LIMIT && Blocks(EcamRegions, children).Some? && SDT_HEADER_SIZE + |McfgBody(Blocks(EcamRegions, children).value)| <= s.len
    ensures r.Success? && s.len == SDT_HEADER_SIZE + |McfgBody(Blocks(EcamRegions, children).value)| ==>
      var t := MakeTable(MCFG, 1, oem, McfgBody(Blocks(EcamRegions, children).value));
      t.Some? && Stored(old(buf[..]), buf[..], s, t.value)
  {
    hide Writing, Then, NewTrace, SdtHeader, Zeros, Blocks, Flat, MakeTable, Stored;
    ghost var before := buf[..];
    TraceSlot(before, s);
    ghost var w := NewTrace(before, s, 0);
    var p :- WriteTableHeader(buf, s, MCFG, 1, oem, Zeros(8));
    ghost var acc := SdtHeader(MCFG, s.len, 1, oem) + Zeros(8);
    p :- EmitWalk(EcamRegions, buf, s, p, children, Then(w, acc));
    ghost var blocks := Blocks(EcamRegions, children).value;
    JoinThen(w, acc, Flat(blocks));
    assert acc + Flat(blocks) == SdtHeader(MCFG, s.len, 1, oem) + McfgBody(blocks);
    r := SealTable(buf, s, before, MCFG, 1, oem, McfgBody(blocks), s.len);
  }

  function McfgBody(regions: seq<seq<byte>>): seq<byte> { Zeros(8) + Flat(regions) }

  // ---- SRAT ----

  const SRAT: seq<byte> := [0x53, 0x52, 0x41, 0x54]

  predicate AllTagged(cpus: seq<Cpu>) { forall i :: 0 <= i < |cpus| ==> cpus[i].tag.Some? }

  function Affinities(cpus: seq<Cpu>): (b: seq<byte>)
    requires AllTagged(cpus)
  {
    if cpus == [] then [] else Affinities(cpus[..|cpus| - 1]) + CpuAffinity(cpus[|cpus| - 1])
  }

  function SratFixed(): (b: seq<byte>)
    ensures |b| == 12
  {
    Le32(1) + Le64(0)
  }

  function SratBody(cpus: seq<Cpu>, memory: seq<seq<byte>>): seq<byte>
    requires AllTagged(cpus)
  {
    SratFixed() + Affinities(cpus) + Flat(memory)
  }

  method EmitAffinities(buf: array<byte>, s: Slot, pos: nat, cpus: seq<Cpu>, ghost w: Trace) returns (r: Result<nat, DtbError>)
    requires Writing(buf[..], w, pos) && w.slot == s
    modifies buf
    ensures r.Success? <==> AllTagged(cpus) && pos + |Affinities(cpus)| <= s.len
    ensures r.Success? ==> r.value == pos + |Affinities(cpus)| && Writing(buf[..], Then(w, Affinities(cpus)), r.value)
  {
    hide Writing, Then, CpuAffinity;
    ThenNothing(w);
    WritingBounds(buf[..], w, pos);
    var cursor := pos;
    for i := 0 to |cpus|
      invariant AllTagged(cpus[..i])
      invariant cursor == pos + |Affinities(cpus[..i])| <= s.len && Writing(buf[..], Then(w, Affinities(cpus[..i])), cursor)
    {
      ghost var acc := Affinities(cpus[..i]);
      if cpus[i].tag.None? { return Failure(Dtb); }
      assert cpus[..i + 1][..i] == cpus[..i];
      if AllTagged(cpus) { AffinitiesGrow(cpus, i + 1); }
      var e := CpuAffinity(cpus[i]);
      cursor :- WriteBytes(buf, s, cursor, e, Then(w, acc));
      JoinThen(w, acc, e);
    }
    assert cpus[..|cpus|] == cpus;
    return Success(cursor);
  }

  lemma {:induction false} AffinitiesGrow(cpus: seq<Cpu>, i: nat)
    requires i <= |cpus| && AllTagged(cpus)
    ensures |Affinities(cpus[..i])| <= |Affinities(cpus)|
    decreases |cpus| - i
  {
    hide CpuAffinity;
    if i < |cpus| {
      AffinitiesGrow(cpus, i + 1);
      assert cpus[..i + 1][..i] == cpus[..i];
    } else {
      assert cpus[..i] == cpus;
    }
  }

  method EmitSrat(buf: array<byte>, s: Slot, oem: OemIdentity, children: seq<Node>, cpus: seq<Cpu>) returns (r: Result<(), DtbError>)
    requires s.offset + s.len <= buf.Length
    modifies buf
    ensures r.Success? <==>
      && s.len < U32_LIMIT && AllTagged(cpus) && Blocks(MemoryRegions, children).Some?
      && SDT_HEADER_SIZE + |SratBody(cpus, Blocks(MemoryRegions, children).value)| <= s.len
    ensures r.Success? && s.len == SDT_HEADER_SIZE + |SratBody(cpus, Blocks(MemoryRegions, children).value)| ==>
      var t := MakeTable(SRAT, 3, oem, SratBody(cpus, Blocks(MemoryRegions, children).value));
      t.Some? && Stored(old(buf[..]), buf[..], s, t.value)
  {
    hide Writing, Then, NewTrace, SdtHeader, SratFixed, Affinities, Blocks, Flat, MakeTable, Stored;
    ghost var before := buf[..];
    TraceSlot(before, s);
    ghost var w := NewTrace(before, s, 0);
    var p :- WriteTableHeader(buf, s, SRAT, 3, oem, SratFixed());
    ghost var acc := SdtHeader(SRAT, s.len, 3, oem) + SratFixed();
    p :- EmitAffinities(buf, s, p, cpus, Then(w, acc));
    JoinThen(w, acc, Affinities(cpus));
    acc := acc + Affinities(cpus);
    p :- EmitWalk(MemoryRegions, buf, s, p, children, Then(w, acc));
    ghost var blocks := Blocks(MemoryRegions, children).value;
    JoinThen(w, acc, Flat(blocks));
    assert acc + Flat(blocks) == SdtHeader(SRAT, s.len, 3, oem) + SratBody(cpus, blocks);
    r := SealTable(buf, s, before, SRAT, 3, oem, SratBody(cpus, blocks), s.len);
  }

  // ---- SPCR ----

  const SPCR: seq<byte> := [0x53, 0x50, 0x43, 0x52]
  const SPCR_SIZE: nat := 80

  /** The baud code: `stdout-path`'s option first, then the node's property, which must be well-formed
      even when the option decides. */
  function BaudCode(n: Node, option: Option<u32>): (c: Option<byte>) {
    if n.currentSpeed.None? then None
    else
      var rate := if option.Some? then option else n.currentSpeed.value;
      if rate.None? then Some(0)
      else if rate.value == 9600 then Some(3)
      else if rate.value == 19200 then Some(4)
      else if rate.value == 57600 then Some(6)
      else if rate.value == 115200 then Some(7)
      else None
  }

  function SpcrFields(base: u64, access: byte, gsi: u32, baud: byte): (b: seq<byte>)
    ensures |b| == SPCR_SIZE - SDT_HEADER_SIZE
  {
    [0, 0, 0, 0] + [0, 32, 0, access] + Le64(base) + [8, 0] + Le32(gsi) + [baud, 0, 1, 0, 3, 0]
    + Le16(0xFFFF) + Le16(0xFFFF) + [0, 0, 0] + Le32(0) + [0] + Le32(0)
  }

  predicate KnownRate(rate: Option<u32>) { rate.None? || rate.value in {9600, 19200, 57600, 115200} }

  /** What the console table needs of the node and the baud option: a decodable UART, a well-formed
      `current-speed` even if the option overrides it, and a rate with a code. */
  predicate ConsoleFits(n: Node, option: Option<u32>) {
    DecodeSerial(n).Success? && n.currentSpeed.Some? && KnownRate(if option.Some? then option else n.currentSpeed.value)
  }

  lemma {:induction false} ConsoleExists(n: Node, option: Option<u32>)
    ensures SpcrBody(Some(Some((n, option)))).Some? <==> ConsoleFits(n, option)
  {
    hide SpcrFields, DecodeSerial;
  }

  /** Base address, access size, interrupt and baud code of the console. */
  lemma {:induction false} SpcrRegisters(base: u64, access: byte, gsi: u32, baud: byte)
    ensures
      var b := SpcrFields(base, access, gsi, baud);
      && LeValue(b[44 - SDT_HEADER_SIZE..52 - SDT_HEADER_SIZE]) == base && b[43 - SDT_HEADER_SIZE] == access
      && LeValue(b[54 - SDT_HEADER_SIZE..58 - SDT_HEADER_SIZE]) == gsi && b[58 - SDT_HEADER_SIZE] == baud
  {
    hide Le16, Le32, Le64, LeValue;
    FixedWidthRoundTrip(base);
    FixedWidthRoundTrip(gsi);
    var b := SpcrFields(base, access, gsi, baud);
    assert b[8..16] == Le64(base) && b[18..22] == Le32(gsi);
  }

  function SpcrBody(stdout: Option<Option<(Node, Option<u32>)>>): (b: Option<seq<byte>>)
    ensures b.Some? ==> |b.value| == SPCR_SIZE - SDT_HEADER_SIZE
  {
    if stdout.None? || stdout.value.None? then None
    else
      var (n, option) := stdout.value.value;
      if DecodeSerial(n).Failure? || BaudCode(n, option).None? then None
      else Some(SpcrFields(DecodeSerial(n).value.0, DecodeSerial(n).value.1, DecodeSerial(n).value.2, BaudCode(n, option).value))
  }

  method EmitSpcr(buf: array<byte>, s: Slot, oem: OemIdentity, stdout: Option<Option<(Node, Option<u32>)>>) returns (r: Result<(), DtbError>)
    requires s.offset + s.len <= buf.Length
    modifies buf
    ensures r.Success? <==> SpcrBody(stdout).Some? && SPCR_SIZE <= s.len < U32_LIMIT
    ensures r.Success? && s.len == SPCR_SIZE ==>
      MakeTable(SPCR, 2, oem, SpcrBody(stdout).value).Some? && Stored(old(buf[..]), buf[..], s, MakeTable(SPCR, 2, oem, SpcrBody(stdout).value).value)
  {
    hide Writing, Then, NewTrace, SdtHeader, SpcrFields, MakeTable, Stored, DecodeSerial, BaudCode;
    ghost var before := buf[..];
    if stdout.None? || stdout.value.None? { return Failure(Dtb); }
    var (n, option) := stdout.value.value;
    var decoded := DecodeSerial(n);
    if decoded.Failure? { return Failure(Dtb); }
    var baud := BaudCode(n, option);
    if baud.None? { return Failure(Dtb); }
    var body := SpcrFields(decoded.value.0, decoded.value.1, decoded.value.2, baud.value);
    var p :- WriteTableHeader(buf, s, SPCR, 2, oem, body);
    r := SealTable(buf, s, before, SPCR, 2, oem, body, s.len);
  }

  // ---- XSDT ----

  const XSDT: seq<byte> := [0x58, 0x53, 0x44, 0x54]

  /** Where a slot will live. */
  function Gpa(s: Slot, base: u64): (a: Option<u64>) {
    if base + s.offset < U64_LIMIT then Some(base + s.offset) else None
  }

  predicate AllMapped(targets: seq<Slot>, base: u64) {
    forall i :: 0 <= i < |targets| ==> Gpa(targets[i], base).Some?
  }

  function Pointers(targets: seq<Slot>, base: u64): (b: seq<byte>)
    requires AllMapped(targets, base)
    ensures |b| == 8 * |targets|
  {
    if targets == [] then [] else Pointers(targets[..|targets| - 1], base) + Le64(Gpa(targets[|targets| - 1], base).value)
  }

  lemma {:induction false} PointerAt(targets: seq<Slot>, base: u64, i: nat)
    requires AllMapped(targets, base) && i < |targets|
    ensures LeValue(Pointers(targets, base)[8 * i..8 * i + 8]) == base + targets[i].offset
  {
    hide Le64, LeValue;
    var n := |targets| - 1;
    var front := Pointers(targets[..n], base);
    FixedWidthRoundTrip(base + targets[n].offset);
    if i < n {
      PointerAt(targets[..n], base, i);
      assert Pointers(targets, base)[8 * i..8 * i + 8] == front[8 * i..8 * i + 8];
    } else {
      assert Pointers(targets, base)[8 * n..8 * n + 8] == Le64(base + targets[n].offset);
    }
  }

  /** Writes a pointer for every listed table; one that would leave the slot is dropped silently, so only a
      slot of exactly the counted size is sure to hold the finished table. */
  method EmitXsdt(buf: array<byte>, s: Slot, oem: OemIdentity, base: u64, targets: seq<Slot>) returns (r: Result<(), DtbError>)
    requires s.offset + s.len <= buf.Length
    modifies buf
    ensures r.Success? <==> SDT_HEADER_SIZE <= s.len < U32_LIMIT && AllMapped(targets, base)
    ensures r.Success? && s.len == SDT_HEADER_SIZE + 8 * |targets| ==>
      var t := MakeTable(XSDT, 1, oem, Pointers(targets, base));
      t.Some? && Stored(old(buf[..]), buf[..], s, t.value)
  {
    hide Writing, Then, NewTrace, SdtHeader, Stored, Le64, Table, Balanced, Put, Cut;
    ghost var before := buf[..];
    TraceSlot(before, s);
    ghost var w := NewTrace(before, s, 0);
    var pos :- WriteTableHeader(buf, s, XSDT, 1, oem, []);
    ghost var header := SdtHeader(XSDT, s.len, 1, oem);
    assert header + [] == header;
    ghost var room := SDT_HEADER_SIZE + 8 * |targets| <= s.len;
    for i := 0 to |targets|
      invariant AllMapped(targets[..i], base) && pos == SDT_HEADER_SIZE + 8 * i
      invariant room ==> Writing(buf[..], Then(w, header + Pointers(targets[..i], base)), pos)
    {
      var gpa := Gpa(targets[i], base);
      if gpa.None? { return Failure(Dtb); }
      assert targets[..i + 1][..i] == targets[..i];
      var end := pos + 8;
      if end <= s.len {
        if room {
          ghost var acc := header + Pointers(targets[..i], base);
          WriteMore(buf[..], Then(w, acc), pos, Le64(gpa.value));
          JoinThen(w, acc, Le64(gpa.value));
          assert acc + Le64(gpa.value) == header + Pointers(targets[..i + 1], base);
        }
        WriteAt(buf, s.offset + pos, Le64(gpa.value));
      }
      pos := end;
    }
    assert targets[..|targets|] == targets;
    if s.len == SDT_HEADER_SIZE + 8 * |targets| {
      FinishTable(before, s, XSDT, 1, oem, Pointers(targets, base), buf[..]);
    }
    r := SetSdtChecksum(buf, s);
  }
}
