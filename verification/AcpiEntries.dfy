/** The fixed-size entries of MADT, SRAT and MCFG. */
module AcpiEntries {
  import opened Outcomes
  import opened Words
  import opened AcpiCore
  import opened DeviceTree

  const XAPIC_ID_MAX: nat := 254
  const IOAPIC_GSI_STRIDE: nat := 24

  /** One processor as the counting walk caches it; its UID is its position. */
  datatype Cpu = Cpu(apic: u32, tag: Option<u32>, status: Status)

  // ---- MADT ----

  function LapicFlags(s: Status): u32 { if s.Okay? then 1 else if s.Disabled? then 2 else 0 }

  /** The 8-bit form when both identifiers fit it. */
  function LapicEntry(uid: nat, c: Cpu): (b: seq<byte>)
    requires uid < U32_LIMIT
    ensures |b| == LapicSize(c.apic, uid)
  {
    if c.apic <= XAPIC_ID_MAX && uid <= XAPIC_ID_MAX
    then [0, 8, uid, c.apic] + Le32(LapicFlags(c.status))
    else [9, 16, 0, 0] + Le32(c.apic) + Le32(LapicFlags(c.status)) + Le32(uid)
  }

  function LapicSize(apic: nat, uid: nat): nat { if apic <= XAPIC_ID_MAX && uid <= XAPIC_ID_MAX then 8 else 16 }

  function NmiEntry(uid: nat): (b: seq<byte>)
    requires uid < U32_LIMIT
    ensures |b| == NmiSize(uid)
  {
    if uid <= XAPIC_ID_MAX then [4, 6, uid, 5, 0, 1] else [10, 12, 5, 0] + Le32(uid) + [1, 0, 0, 0]
  }

  function NmiSize(uid: nat): nat { if uid <= XAPIC_ID_MAX then 6 else 12 }

  /** The controller's base fits the 32-bit address field. */
  predicate IntcFits(n: Node) { FirstReg(n).Some? && FirstReg(n).value.0 < U32_LIMIT }

  const IOAPIC_BYTES: nat := 12

  function IoApicEntry(n: Node, id: byte): (b: seq<byte>)
    requires IntcFits(n)
    ensures |b| == IOAPIC_BYTES
  {
    [1, 12, id, 0] + Le32(FirstReg(n).value.0) + Le32(IOAPIC_GSI_STRIDE * id)
  }

  // ---- SRAT ----

  function AffinityFlags(s: Status): u32 { if s.Okay? || s.Disabled? then 1 else 0 }

  function AffinitySize(apic: nat): nat { if apic <= XAPIC_ID_MAX then 16 else 24 }

  function CpuAffinity(c: Cpu): (b: seq<byte>)
    requires c.tag.Some?
    ensures |b| == AffinitySize(c.apic)
  {
    var pd := Le32(c.tag.value);
    if c.apic <= XAPIC_ID_MAX
    then [0, 16, pd[0], c.apic] + Le32(AffinityFlags(c.status)) + [0, pd[1], pd[2], pd[3]] + Le32(0)
    else [2, 24, 0, 0] + pd + Le32(c.apic) + Le32(AffinityFlags(c.status)) + Le32(0) + [0, 0, 0, 0]
  }

  /** Enabled for working memory; hot-pluggable unless reserved or failed. */
  function MemoryFlags(s: Status, hotpluggable: bool): u32 {
    (if s.Okay? then 1 else 0) + if hotpluggable && (s.Okay? || s.Disabled?) then 2 else 0
  }

  const MEMORY_BYTES: nat := 40

  function MemoryEntry(pd: u32, base: u64, length: u64, flags: u32): (b: seq<byte>)
    ensures |b| == MEMORY_BYTES
  {
    [1, 40] + Le32(pd) + Le16(0) + Le32(base % U32_LIMIT) + Le32(base / U32_LIMIT)
    + Le32(length % U32_LIMIT) + Le32(length / U32_LIMIT) + Le32(0) + Le32(flags) + Le64(0)
  }

  function MemoryEntries(pd: u32, flags: u32, regions: seq<(u64, u64)>): (b: seq<byte>)
    ensures |b| == MEMORY_BYTES * |regions|
  {
    if regions == [] then []
    else MemoryEntries(pd, flags, regions[..|regions| - 1]) + MemoryEntry(pd, regions[|regions| - 1].0, regions[|regions| - 1].1, flags)
  }

  predicate MemoryFits(n: Node) {
    n.numaNode.Some? && n.numaNode.value.Some? && n.status.Some? && n.reg.Some?
  }

  function MemoryBlock(n: Node): (b: seq<byte>)
    requires MemoryFits(n)
    ensures |b| == MEMORY_BYTES * |n.reg.value|
  {
    MemoryEntries(n.numaNode.value.value, MemoryFlags(n.status.value, n.hotpluggable), n.reg.value)
  }

  /** The four 32-bit halves are the two 64-bit fields. */
  lemma {:induction false} MemoryHalves(pd: u32, base: u64, length: u64, flags: u32)
    ensures
      var b := MemoryEntry(pd, base, length, flags);
      LeValue(b[8..12]) + U32_LIMIT * LeValue(b[12..16]) == base && LeValue(b[16..20]) + U32_LIMIT * LeValue(b[20..24]) == length
  {
    hide Le16, Le32, Le64, LeValue;
    FixedWidthRoundTrip(base % U32_LIMIT);
    FixedWidthRoundTrip(base / U32_LIMIT);
    FixedWidthRoundTrip(length % U32_LIMIT);
    FixedWidthRoundTrip(length / U32_LIMIT);
    var b := MemoryEntry(pd, base, length, flags);
    assert b[8..12] == Le32(base % U32_LIMIT) && b[12..16] == Le32(base / U32_LIMIT);
    assert b[16..20] == Le32(length % U32_LIMIT) && b[20..24] == Le32(length / U32_LIMIT);
  }

  // ---- MCFG ----

  const ECAM_BYTES: nat := 16

  predicate EcamFits(n: Node) { FirstReg(n).Some? && n.busRange.Some? }

  function EcamEntry(n: Node): (b: seq<byte>)
    requires EcamFits(n)
    ensures |b| == ECAM_BYTES
  {
    Le64(FirstReg(n).value.0) + Le16(0) + [n.busRange.value.0, n.busRange.value.1] + Le32(0)
  }
}
