/** Filling the buffer: all tables in layout order, and what the finished image guarantees. */
module AcpiImage {
  import opened Outcomes
  import opened Words
  import opened Buffers
  import opened AcpiCore
  import opened DeviceTree
  import opened AcpiDevices
  import opened AcpiEntries
  import opened AcpiWalks
  import opened AcpiTables
  import opened AcpiCount
  import opened AcpiLayout
  import AmlGrammar
  import Slit

  datatype EmitError = BufferTooSmall(needed: nat, got: nat) | Malformed

  // ---- the tables ----

  function MadtOf(tree: Tree, oem: OemIdentity, lapic: u32): (t: Option<seq<byte>>)
    requires Countable(tree)
  {
    if Blocks(IoApics, tree.children).None? then None
    else MakeTable(APIC, MADT_REVISION, oem, MadtBody(lapic, CpusOf(tree), Blocks(IoApics, tree.children).value))
  }

  function McfgOf(tree: Tree, oem: OemIdentity): (t: Option<seq<byte>>) {
    if Blocks(EcamRegions, tree.children).None? then None else MakeTable(MCFG, 1, oem, McfgBody(Blocks(EcamRegions, tree.children).value))
  }

  function SpcrOf(tree: Tree, oem: OemIdentity): (t: Option<seq<byte>>) {
    if SpcrBody(tree.stdout).None? then None else MakeTable(SPCR, 2, oem, SpcrBody(tree.stdout).value)
  }

  function SratOf(tree: Tree, oem: OemIdentity): (t: Option<seq<byte>>)
    requires Countable(tree)
  {
    if Blocks(MemoryRegions, tree.children).None? || !AllTagged(CpusOf(tree)) then None
    else MakeTable(SRAT, 3, oem, SratBody(CpusOf(tree), Blocks(MemoryRegions, tree.children).value))
  }

  ghost function SlitOf(tree: Tree, oem: OemIdentity): (t: Option<seq<byte>>)
    requires Countable(tree)
  {
    if !Slit.SlitAccepted(IdsOf(tree), tree.distances) then None
    else MakeTable(Slit.SLIT, 1, oem, Slit.SlitBody(IdsOf(tree), Slit.Triples(tree.distances.raw)))
  }

  function FadtTable(base: nat, o: Offsets, plan: FadtPlan, oem: OemIdentity): (t: Option<seq<byte>>) {
    if base + o.dsdt.offset >= U64_LIMIT then None else MakeTable(FACP, 6, oem, FadtBody(base + o.dsdt.offset, plan))
  }

  function XsdtOf(base: u64, o: Offsets, oem: OemIdentity): (t: Option<seq<byte>>) {
    if !AllMapped(Targets(o), base) then None else MakeTable(XSDT, 1, oem, Pointers(Targets(o), base))
  }

  /** The four tables that are always there can be written. */
  ghost predicate HeadEmits(tree: Tree, o: Offsets, plan: FadtPlan, lapic: u32, oem: OemIdentity, base: u64)
    requires Countable(tree)
  {
    && base + o.xsdt.offset < U64_LIMIT && FadtTable(base, o, plan, oem).Some?
    && Dsdt(oem, plan.sleepValue, tree.children).Some? && MadtOf(tree, oem, lapic).Some?
  }

  ghost predicate OptionalEmits(tree: Tree, o: Offsets, oem: OemIdentity)
    requires Countable(tree)
  {
    && (o.mcfg.Some? ==> McfgOf(tree, oem).Some?) && (o.spcr.Some? ==> SpcrOf(tree, oem).Some?)
    && (o.srat.Some? ==> SratOf(tree, oem).Some?) && (o.slit.Some? ==> SlitOf(tree, oem).Some?)
  }

  /** Emission after a successful count: everything encodable, every address in 64 bits. */
  ghost predicate Emits(tree: Tree, o: Offsets, plan: FadtPlan, lapic: u32, oem: OemIdentity, base: u64)
    requires Countable(tree)
  {
    HeadEmits(tree, o, plan, lapic, oem, base) && OptionalEmits(tree, o, oem) && XsdtOf(base, o, oem).Some?
  }

  function When(s: Option<Slot>, t: Option<seq<byte>>): seq<seq<byte>> {
    if s.Some? && t.Some? then [t.value] else []
  }

  ghost function HeadTables(tree: Tree, o: Offsets, plan: FadtPlan, lapic: u32, oem: OemIdentity, base: u64): (ts: seq<seq<byte>>)
    requires Countable(tree) && HeadEmits(tree, o, plan, lapic, oem, base)
  {
    [Rsdp(base + o.xsdt.offset, oem), Dsdt(oem, plan.sleepValue, tree.children).value, FadtTable(base, o, plan, oem).value, MadtOf(tree, oem, lapic).value]
  }

  /** The tables in buffer order. */
  ghost function Tables(tree: Tree, o: Offsets, plan: FadtPlan, lapic: u32, oem: OemIdentity, base: u64): (ts: seq<seq<byte>>)
    requires Countable(tree) && Emits(tree, o, plan, lapic, oem, base)
  {
    HeadTables(tree, o, plan, lapic, oem, base)
    + When(o.mcfg, McfgOf(tree, oem)) + When(o.spcr, SpcrOf(tree, oem)) + When(o.srat, SratOf(tree, oem)) + When(o.slit, SlitOf(tree, oem))
    + [XsdtOf(base, o, oem).value]
  }

  // ---- counted sizes are emitted sizes ----

  /** Whenever a table is emitted, it has exactly the size of its slot. */
  lemma {:induction false} SizesAgree(tree: Tree, o: Offsets, plan: FadtPlan, lapic: u32, oem: OemIdentity)
    requires Countable(tree) && Counted(tree, o, plan, lapic)
    ensures MadtOf(tree, oem, lapic).Some? ==> |MadtOf(tree, oem, lapic).value| == o.madt.len
    ensures Dsdt(oem, plan.sleepValue, tree.children).Some? ==> |Dsdt(oem, plan.sleepValue, tree.children).value| == o.dsdt.len
    ensures o.mcfg.Some? && McfgOf(tree, oem).Some? ==> |McfgOf(tree, oem).value| == o.mcfg.value.len
    ensures o.spcr.Some? && SpcrOf(tree, oem).Some? ==> |SpcrOf(tree, oem).value| == o.spcr.value.len
    ensures o.srat.Some? && SratOf(tree, oem).Some? ==> |SratOf(tree, oem).value| == o.srat.value.len
    ensures o.slit.Some? ==> o.slit.value.len == SDT_HEADER_SIZE + 8 + Slit.Square(|IdsOf(tree)|)
  {
    hide Blocks, CpuEntries, Affinities, AffinityBytes, Flat, CountBytes, Devices, CountDevices, NumaOf, Tiled, RegionCount;
    MadtSizeAgrees(tree, o, plan, lapic, oem);
    if Devices(tree.children).Some? { DsdtCountIsExact(plan.sleepValue, tree.children); }
    if Blocks(EcamRegions, tree.children).Some? { CountMatchesEmission(EcamRegions, tree.children); }
    SratSizeAgrees(tree, o, plan, lapic, oem);
  }

  lemma {:induction false} MadtSizeAgrees(tree: Tree, o: Offsets, plan: FadtPlan, lapic: u32, oem: OemIdentity)
    requires Countable(tree) && Counted(tree, o, plan, lapic)
    ensures MadtOf(tree, oem, lapic).Some? ==> |MadtOf(tree, oem, lapic).value| == o.madt.len
    ensures MadtOf(tree, oem, lapic).Some? <==> Blocks(IoApics, tree.children).Some? && o.madt.len < U32_LIMIT
  {
    hide Blocks, CpuEntries, AffinityBytes, Flat, CountBytes, CountDevices, NumaOf, Tiled, RegionCount, HasSize;
    if Blocks(IoApics, tree.children).Some? { CountMatchesEmission(IoApics, tree.children); }
  }

  lemma {:induction false} SratSizeAgrees(tree: Tree, o: Offsets, plan: FadtPlan, lapic: u32, oem: OemIdentity)
    requires Countable(tree) && Counted(tree, o, plan, lapic)
    ensures o.srat.Some? && SratOf(tree, oem).Some? ==> |SratOf(tree, oem).value| == o.srat.value.len
    ensures o.srat.Some? ==> (SratOf(tree, oem).Some? <==> o.srat.value.len < U32_LIMIT)
  {
    hide Blocks, CpuEntries, Affinities, AffinityBytes, Flat, CountBytes, CountDevices, Tiled, RegionCount, MemoryTags, DomainsOf, TagsOf, MemoryNodes, CpuList;
    if o.srat.Some? {
      TaggedMemoryIsEncodable(tree.children);
      CountMatchesEmission(MemoryRegions, tree.children);
      RegionsAreCounted(tree.children);
      AffinityBytesAreExact(CpusOf(tree));
    }
  }

  /** Fully tagged, well-formed memory nodes always encode. */
  lemma {:induction false} TaggedMemoryIsEncodable(children: seq<Node>)
    requires MemoryTags(children).Some?
    ensures MemoryNodes(children, true) <= MemoryNodes(children, false)
    ensures MemoryNodes(children, true) == MemoryNodes(children, false) ==> Blocks(MemoryRegions, children).Some?
  {
    hide MemoryBlock;
    if children != [] { TaggedMemoryIsEncodable(children[..|children| - 1]); }
  }

  /** Counted configuration regions always encode. */
  lemma {:induction false} CountedEcamIsEncodable(children: seq<Node>)
    requires CountBytes(EcamRegions, children).Some?
    ensures Blocks(EcamRegions, children).Some?
  {
    hide EcamEntry;
    if children != [] { CountedEcamIsEncodable(children[..|children| - 1]); }
  }

  // ---- filling in order ----

  /** The first slots hold their tables; the rest of the buffer is as before. */
  ghost predicate Filled(b: seq<byte>, before: seq<byte>, tables: seq<seq<byte>>, slots: seq<Slot>) {
    && |tables| == |slots| && (forall i :: 0 <= i < |slots| ==> |tables[i]| == slots[i].len)
    && |Flat(tables)| <= |before| && b == Flat(tables) + before[|Flat(tables)|..]
  }

  lemma {:induction false} FlatTiled(tables: seq<seq<byte>>, slots: seq<Slot>, end: nat)
    requires Tiled(slots, 0, end) && |tables| == |slots| && forall i :: 0 <= i < |slots| ==> |tables[i]| == slots[i].len
    ensures |Flat(tables)| == end
  {
    if slots != [] { FlatTiled(tables[..|tables| - 1], slots[..|slots| - 1], slots[|slots| - 1].offset); }
  }

  /** A prefix of a tiling is a tiling up to the next slot, which lies inside the whole. */
  lemma {:induction false} TiledPrefix(all: seq<Slot>, end: nat, front: seq<Slot>, s: Slot)
    requires Tiled(all, 0, end) && front + [s] <= all
    ensures Tiled(front, 0, s.offset) && s.offset + s.len <= end
    decreases |all|
  {
    var n := |all| - 1;
    if front + [s] == all {
      assert all[..n] == front && all[n] == s;
    } else {
      assert front + [s] <= all[..n];
      TiledPrefix(all[..n], all[n].offset, front, s);
    }
  }

  lemma {:induction false} NextTable(all: seq<Slot>, end: nat, before: seq<byte>, b: seq<byte>, tables: seq<seq<byte>>, front: seq<Slot>, s: Slot, t: seq<byte>, after: seq<byte>)
    requires Tiled(all, 0, end) && end <= |before| && front + [s] <= all
    requires Filled(b, before, tables, front) && Stored(b, after, s, t)
    ensures Filled(after, before, tables + [t], front + [s])
  {
    hide Tiled;
    TiledPrefix(all, end, front, s);
    FlatTiled(tables, front, s.offset);
    FlatAppend(tables, t);
    hide Flat;
    assert after == Flat(tables) + t + before[s.offset + s.len..];
  }

  lemma {:induction false} FlatAppend(l: seq<seq<byte>>, t: seq<byte>)
    ensures Flat(l + [t]) == Flat(l) + t
  {
    assert (l + [t])[..|l|] == l;
  }

  /** Each slot of a filled buffer reads back as its table. */
  lemma {:induction false} SlotHoldsTable(b: seq<byte>, before: seq<byte>, tables: seq<seq<byte>>, slots: seq<Slot>, end: nat, i: nat)
    requires Filled(b, before, tables, slots) && Tiled(slots, 0, end) && i < |slots|
    ensures slots[i].offset + slots[i].len <= |b| && Cut(b, slots[i]) == tables[i]
  {
    hide Tiled, Flat;
    var s := slots[i];
    assert slots[..i] + [s] <= slots;
    TiledPrefix(slots, end, slots[..i], s);
    FlatTiled(tables[..i], slots[..i], s.offset);
    FlatTiled(tables, slots, end);
    assert tables == tables[..i] + [tables[i]] + tables[i + 1..];
    FlatJoin(tables[..i] + [tables[i]], tables[i + 1..]);
    FlatAppend(tables[..i], tables[i]);
    assert b[..end] == Flat(tables);
    assert Cut(b, s) == b[..end][s.offset..s.offset + s.len];
  }

  // ---- the orchestration ----

  function HeadSlots(o: Offsets): seq<Slot> { [o.rsdp, o.dsdt, o.fadt, o.madt] }

  lemma {:induction false} PartsArePrefixes(h: seq<Slot>, m: seq<Slot>, p: seq<Slot>, r: seq<Slot>, l: seq<Slot>, x: seq<Slot>)
    ensures
      var all := h + m + p + r + l + x;
      h <= all && h + m <= all && h + m + p <= all && h + m + p + r <= all && h + m + p + r + l <= all
  {
    var all := h + m + p + r + l + x;
    PrefixJoin(h + m + p + r + l, x, all);
    PrefixJoin(h + m + p + r, l, all);
    PrefixJoin(h + m + p, r, all);
    PrefixJoin(h + m, p, all);
    PrefixJoin(h, m, all);
  }

  lemma {:induction false} PrefixJoin(a: seq<Slot>, b: seq<Slot>, all: seq<Slot>)
    requires a + b <= all
    ensures a <= all
  {
    assert a + b == all[..|a + b|];
    assert all[..|a + b|][..|a|] == a;
  }

  lemma {:induction false} SlotPrefixes(o: Offsets)
    ensures
      var (all, head) := (SlotsOf(o), HeadSlots(o));
      var (m, p, r, l) := (Just(o.mcfg), Just(o.spcr), Just(o.srat), Just(o.slit));
      && all == head + m + p + r + l + [o.xsdt] && head <= all
      && head + m <= all && head + m + p <= all && head + m + p + r <= all && head + m + p + r + l <= all
  {
    hide Just;
    SlotOrder(o);
    var m, p, r, l := Just(o.mcfg), Just(o.spcr), Just(o.srat), Just(o.slit);
    assert HeadSlots(o) == [] + [o.rsdp] + [o.dsdt] + [o.fadt] + [o.madt];
    PartsArePrefixes(HeadSlots(o), m, p, r, l, [o.xsdt]);
  }

  lemma {:induction false} FrontAndXsdt(o: Offsets)
    ensures SlotsOf(o) == [o.rsdp] + [o.dsdt] + Targets(o) + [o.xsdt]
  {}

  /** No slot starts after the last one. */
  lemma {:induction false} XsdtIsLast(o: Offsets, base: nat)
    requires Tiled(SlotsOf(o), 0, o.total)
    ensures o.dsdt.offset <= o.xsdt.offset && forall i :: 0 <= i < |Targets(o)| ==> Targets(o)[i].offset <= o.xsdt.offset
  {
    hide Tiled, SlotsOf, Targets;
    var front := [o.rsdp] + [o.dsdt] + Targets(o);
    FrontAndXsdt(o);
    TiledPrefix(SlotsOf(o), o.total, front, o.xsdt);
    forall s | s in front ensures s.offset <= o.xsdt.offset {
      var k :| 0 <= k < |front| && front[k] == s;
      assert front[..k] + [s] <= front;
      TiledPrefix(front, o.xsdt.offset, front[..k], s);
    }
    assert o.dsdt == front[1];
    forall i | 0 <= i < |Targets(o)| ensures Targets(o)[i].offset <= o.xsdt.offset { assert front[2 + i] == Targets(o)[i]; }
  }

  lemma {:induction false} SmallSquare(n: nat)
    requires n <= DOMAIN_LIMIT
    ensures Slit.Square(n) <= 0xFE01
  {
    MulKeepsOrder(n, n, DOMAIN_LIMIT);
  }

  /** After a successful count, exactly these can still fail: an address beyond 64 bits; a bridge, virtio
      transport or serial node that does not fit, or more than 255 bridges, transports or IOAPICs; the
      console's settings; the distances; and tables of 4 GiB. */
  lemma {:induction false} EmitsExactly(tree: Tree, o: Offsets, plan: FadtPlan, lapic: u32, oem: OemIdentity, base: u64)
    requires Countable(tree) && Counted(tree, o, plan, lapic)
    ensures FindSerial(tree.children).Success?
    ensures Emits(tree, o, plan, lapic, oem, base) <==>
      && base + o.xsdt.offset < U64_LIMIT
      && (forall n :: n in Chosen(HostBridge, tree.children) ==> BridgeFits(n)) && |Chosen(HostBridge, tree.children)| <= 255
      && (forall n :: n in Chosen(Virtio, tree.children) ==> RegFits(n) && n.interrupts.Some?) && |Chosen(Virtio, tree.children)| <= 255
      && (FindSerial(tree.children).value.Some? ==> SerialFits(FindSerial(tree.children).value.value))
      && |Chosen(IoApics, tree.children)| <= 255
      && (tree.stdout.value.Some? ==> ConsoleFits(tree.stdout.value.value.0, tree.stdout.value.value.1))
      && (o.slit.Some? ==> Slit.SlitAccepted(IdsOf(tree), tree.distances))
      && o.madt.len < U32_LIMIT && (o.mcfg.Some? ==> o.mcfg.value.len < U32_LIMIT) && (o.srat.Some? ==> o.srat.value.len < U32_LIMIT)
  {
    hide Emits, Blocks, CountBytes, Devices, Chosen, FindSerial, SerialFits, BridgeFits, RegFits, ConsoleFits, SpcrBody, Counted,
      CpuEntries, AffinityBytes, NumaOf, AllDomains, CpuList, CpusCount, LapicOf, FadtOf, Slit.SlitAccepted;
    EmitsWhenDefined(tree, o, plan, lapic, oem, base);
    CountedSerial(tree.children);
    DevicesExist(tree.children);
    IoApicsExist(tree.children);
    ConsoleSlot(tree, o, plan, lapic);
    if tree.stdout.value.Some? { ConsoleExists(tree.stdout.value.value.0, tree.stdout.value.value.1); }
  }

  lemma {:induction false} CountedSerial(children: seq<Node>)
    requires CountDevices(children).Some?
    ensures FindSerial(children).Success?
  {
    hide CountBytes, FindSerial;
  }

  lemma {:induction false} ConsoleSlot(tree: Tree, o: Offsets, plan: FadtPlan, lapic: u32)
    requires Countable(tree) && Counted(tree, o, plan, lapic)
    ensures o.spcr.Some? <==> tree.stdout.value.Some?
  {
    hide Tiled, SlotsOf, CpuEntries, AffinityBytes, CountBytes, CountDevices, NumaOf, CpuList, CpusCount, LapicOf, FadtOf;
  }

  /** Emission succeeds when all the pieces exist and the tables fit their length fields. */
  lemma {:induction false} EmitsWhenDefined(tree: Tree, o: Offsets, plan: FadtPlan, lapic: u32, oem: OemIdentity, base: u64)
    requires Countable(tree) && Counted(tree, o, plan, lapic)
    ensures Emits(tree, o, plan, lapic, oem, base) <==>
      && base + o.xsdt.offset < U64_LIMIT && Devices(tree.children).Some? && Blocks(IoApics, tree.children).Some?
      && (o.spcr.Some? ==> SpcrBody(tree.stdout).Some?) && (o.slit.Some? ==> Slit.SlitAccepted(IdsOf(tree), tree.distances))
      && o.madt.len < U32_LIMIT && (o.mcfg.Some? ==> o.mcfg.value.len < U32_LIMIT) && (o.srat.Some? ==> o.srat.value.len < U32_LIMIT)
  {
    hide Blocks, CpuEntries, Affinities, AffinityBytes, Flat, CountBytes, Devices, CountDevices, NumaOf, Tiled, SlotsOf, RegionCount, FadtBody, Table,
      Slit.Square, Slit.SlitAccepted, Slit.Triples, Slit.Matrix, SpcrBody, SratOf, DsdtBody, AllDomains, CpuList, CpusCount, LapicOf, FadtOf, AllTagged;
    CountedTiles(tree, o, plan, lapic);
    XsdtIsLast(o, base);
    MadtSizeAgrees(tree, o, plan, lapic, oem);
    SratSizeAgrees(tree, o, plan, lapic, oem);
    if Devices(tree.children).Some? { DsdtIsSmall(plan.sleepValue, tree.children); }
    CountedEcamIsEncodable(tree.children);
    CountMatchesEmission(EcamRegions, tree.children);
    SmallSquare(|IdsOf(tree)|);
  }

  lemma {:induction false} NothingFilled(before: seq<byte>)
    ensures Filled(before, before, [], [])
  {}

  lemma {:induction false} CountedTiles(tree: Tree, o: Offsets, plan: FadtPlan, lapic: u32)
    requires Countable(tree) && Counted(tree, o, plan, lapic)
    ensures Tiled(SlotsOf(o), 0, o.total) && o.rsdp.len == RSDP_SIZE && o.fadt.len == FADT_SIZE && o.xsdt.len == SDT_HEADER_SIZE + 8 * |Targets(o)|
    ensures o.spcr.Some? ==> o.spcr.value.len == SPCR_SIZE
  {
    hide Tiled, SlotsOf, Targets, CountsOf, IdsOf;
  }

  /** Every slot lies inside the layout. */
  lemma {:induction false} SlotInside(o: Offsets, front: seq<Slot>, s: Slot)
    requires Tiled(SlotsOf(o), 0, o.total) && front + [s] <= SlotsOf(o)
    ensures s.offset + s.len <= o.total
  {
    hide Tiled, SlotsOf;
    TiledPrefix(SlotsOf(o), o.total, front, s);
  }

  lemma {:induction false} HeadPrefixes(o: Offsets)
    ensures
      var all := SlotsOf(o);
      [] + [o.rsdp] <= all && [o.rsdp] + [o.dsdt] <= all && [o.rsdp, o.dsdt] + [o.fadt] <= all && [o.rsdp, o.dsdt, o.fadt] + [o.madt] <= all
  {
    SlotPrefixes(o);
    hide SlotsOf;
    var h := HeadSlots(o);
    assert h == [o.rsdp, o.dsdt, o.fadt] + [o.madt];
    PrefixJoin([o.rsdp, o.dsdt] + [o.fadt], [o.madt], SlotsOf(o));
    PrefixJoin([o.rsdp] + [o.dsdt], [o.fadt], SlotsOf(o));
    PrefixJoin([o.rsdp], [o.dsdt], SlotsOf(o));
  }

  method EmitHead(buf: array<byte>, tree: Tree, oem: OemIdentity, base: u64, o: Offsets, plan: FadtPlan, lapic: u32, cpus: seq<Cpu>)
    returns (r: Result<(), DtbError>)
    requires Countable(tree) && Counted(tree, o, plan, lapic) && cpus == CpusOf(tree) && o.total <= buf.Length
    modifies buf
    ensures r.Success? <==> HeadEmits(tree, o, plan, lapic, oem, base)
    ensures r.Success? ==> Filled(buf[..], old(buf[..]), HeadTables(tree, o, plan, lapic, oem, base), HeadSlots(o))
  {
    hide Countable, Counted, CpusOf, Filled, Stored, Tiled, Dsdt, Rsdp, SlotsOf, MadtBody, Blocks, Table, FadtBody;
    ghost var all, before := SlotsOf(o), buf[..];
    CountedTiles(tree, o, plan, lapic);
    SizesAgree(tree, o, plan, lapic, oem);
    HeadPrefixes(o);
    NothingFilled(before);
    SlotInside(o, [], o.rsdp);
    SlotInside(o, [o.rsdp], o.dsdt);
    SlotInside(o, [o.rsdp, o.dsdt], o.fadt);
    SlotInside(o, [o.rsdp, o.dsdt, o.fadt], o.madt);
    var xsdtGpa := Gpa(o.xsdt, base);
    if xsdtGpa.None? { return Failure(Dtb); }
    var rsdp := EmitRsdp(buf, o.rsdp, xsdtGpa.value, oem);
    ghost var t := Rsdp(xsdtGpa.value, oem);
    NextTable(all, o.total, before, before, [], [], o.rsdp, t, buf[..]);
    assert [] + [o.rsdp] == [o.rsdp] && [] + [t] == [t];
    ghost var ts, b := [t], buf[..];
    var dsdt :- WriteDsdt(buf, o.dsdt, oem, plan.sleepValue, tree.children);
    t := Dsdt(oem, plan.sleepValue, tree.children).value;
    NextTable(all, o.total, before, b, ts, [o.rsdp], o.dsdt, t, buf[..]);
    assert [o.rsdp] + [o.dsdt] == [o.rsdp, o.dsdt];
    ts, b := ts + [t], buf[..];
    var dsdtGpa := Gpa(o.dsdt, base);
    if dsdtGpa.None? { return Failure(Dtb); }
    var fadt := EmitFadt(buf, o.fadt, dsdtGpa.value, plan, oem);
    t := FadtTable(base, o, plan, oem).value;
    NextTable(all, o.total, before, b, ts, [o.rsdp, o.dsdt], o.fadt, t, buf[..]);
    assert [o.rsdp, o.dsdt] + [o.fadt] == [o.rsdp, o.dsdt, o.fadt];
    ts, b := ts + [t], buf[..];
    var madt :- EmitMadt(buf, o.madt, oem, tree.children, lapic, cpus);
    t := MadtOf(tree, oem, lapic).value;
    NextTable(all, o.total, before, b, ts, [o.rsdp, o.dsdt, o.fadt], o.madt, t, buf[..]);
    assert [o.rsdp, o.dsdt, o.fadt] + [o.madt] == HeadSlots(o);
    assert ts + [t] == HeadTables(tree, o, plan, lapic, oem, base);
    return Success(());
  }

  /** The buffer so far, within a counted layout. */
  ghost predicate Progress(o: Offsets, b: seq<byte>, before: seq<byte>, tables: seq<seq<byte>>, front: seq<Slot>, next: seq<Slot>) {
    Tiled(SlotsOf(o), 0, o.total) && o.total <= |before| && front + next <= SlotsOf(o) && Filled(b, before, tables, front) && |b| == |before|
  }

  /** Filling one optional slot, or leaving it out. */
  lemma {:induction false} Advance(o: Offsets, before: seq<byte>, b: seq<byte>, tables: seq<seq<byte>>, front: seq<Slot>, s: Option<Slot>, t: Option<seq<byte>>, after: seq<byte>)
    requires Progress(o, b, before, tables, front, Just(s))
    requires if s.Some? then t.Some? && Stored(b, after, s.value, t.value) else after == b
    ensures Filled(after, before, tables + When(s, t), front + Just(s)) && |after| == |before|
  {
    hide Tiled, Filled, SlotsOf;
    if s.Some? {
      NextTable(SlotsOf(o), o.total, before, b, tables, front, s.value, t.value, after);
    } else {
      assert tables + [] == tables && front + [] == front;
    }
  }

  lemma {:induction false} OptionalInside(o: Offsets, before: seq<byte>, b: seq<byte>, tables: seq<seq<byte>>, front: seq<Slot>, s: Option<Slot>)
    requires Progress(o, b, before, tables, front, Just(s)) && s.Some?
    ensures s.value.offset + s.value.len <= |b|
  {
    hide Tiled, SlotsOf, Filled;
    SlotInside(o, front, s.value);
  }

  method EmitMaybeMcfg(buf: array<byte>, tree: Tree, oem: OemIdentity, o: Offsets, ghost before: seq<byte>, ghost ts: seq<seq<byte>>, ghost front: seq<Slot>)
    returns (r: Result<(), DtbError>)
    requires Progress(o, buf[..], before, ts, front, Just(o.mcfg))
    requires o.mcfg.Some? && McfgOf(tree, oem).Some? ==> |McfgOf(tree, oem).value| == o.mcfg.value.len
    modifies buf
    ensures r.Success? <==> (o.mcfg.Some? ==> McfgOf(tree, oem).Some?)
    ensures r.Success? ==> Filled(buf[..], before, ts + When(o.mcfg, McfgOf(tree, oem)), front + Just(o.mcfg)) && buf.Length == |before|
  {
    hide Progress, Filled, Stored, Blocks, Just, When, Table, Flat;
    ghost var b := buf[..];
    if o.mcfg.Some? {
      OptionalInside(o, before, b, ts, front, o.mcfg);
      var emitted :- EmitMcfg(buf, o.mcfg.value, oem, tree.children);
    }
    Advance(o, before, b, ts, front, o.mcfg, McfgOf(tree, oem), buf[..]);
    return Success(());
  }

  method EmitMaybeSpcr(buf: array<byte>, tree: Tree, oem: OemIdentity, o: Offsets, ghost before: seq<byte>, ghost ts: seq<seq<byte>>, ghost front: seq<Slot>)
    returns (r: Result<(), DtbError>)
    requires Progress(o, buf[..], before, ts, front, Just(o.spcr)) && (o.spcr.Some? ==> o.spcr.value.len == SPCR_SIZE)
    modifies buf
    ensures r.Success? <==> (o.spcr.Some? ==> SpcrOf(tree, oem).Some?)
    ensures r.Success? ==> Filled(buf[..], before, ts + When(o.spcr, SpcrOf(tree, oem)), front + Just(o.spcr)) && buf.Length == |before|
  {
    hide Progress, Filled, Stored, SpcrBody, Just, When, Table;
    ghost var b := buf[..];
    if o.spcr.Some? {
      OptionalInside(o, before, b, ts, front, o.spcr);
      var emitted :- EmitSpcr(buf, o.spcr.value, oem, tree.stdout);
    }
    Advance(o, before, b, ts, front, o.spcr, SpcrOf(tree, oem), buf[..]);
    return Success(());
  }

  method EmitMaybeSrat(buf: array<byte>, tree: Tree, oem: OemIdentity, o: Offsets, cpus: seq<Cpu>, ghost before: seq<byte>, ghost ts: seq<seq<byte>>, ghost front: seq<Slot>)
    returns (r: Result<(), DtbError>)
    requires Countable(tree) && cpus == CpusOf(tree) && Progress(o, buf[..], before, ts, front, Just(o.srat))
    requires o.srat.Some? && SratOf(tree, oem).Some? ==> |SratOf(tree, oem).value| == o.srat.value.len
    modifies buf
    ensures r.Success? <==> (o.srat.Some? ==> SratOf(tree, oem).Some?)
    ensures r.Success? ==> Filled(buf[..], before, ts + When(o.srat, SratOf(tree, oem)), front + Just(o.srat)) && buf.Length == |before|
  {
    hide Progress, Filled, Stored, Blocks, Just, When, Table, Flat, Countable, CpusOf, AllTagged, Affinities;
    ghost var b := buf[..];
    if o.srat.Some? {
      OptionalInside(o, before, b, ts, front, o.srat);
      var emitted :- EmitSrat(buf, o.srat.value, oem, tree.children, cpus);
    }
    Advance(o, before, b, ts, front, o.srat, SratOf(tree, oem), buf[..]);
    return Success(());
  }

  method EmitMaybeSlit(buf: array<byte>, tree: Tree, oem: OemIdentity, o: Offsets, ids: seq<u32>, ghost before: seq<byte>, ghost ts: seq<seq<byte>>, ghost front: seq<Slot>)
    returns (r: Result<(), DtbError>)
    requires Countable(tree) && ids == IdsOf(tree) && Progress(o, buf[..], before, ts, front, Just(o.slit))
    requires o.slit.Some? ==> o.slit.value.len == SDT_HEADER_SIZE + 8 + Slit.Square(|ids|)
    modifies buf
    ensures r.Success? <==> (o.slit.Some? ==> SlitOf(tree, oem).Some?)
    ensures r.Success? ==> Filled(buf[..], before, ts + When(o.slit, SlitOf(tree, oem)), front + Just(o.slit)) && buf.Length == |before|
  {
    hide Progress, Filled, Stored, Just, When, Table, Countable, IdsOf, Slit.SlitAccepted, Slit.Matrix, Slit.Triples, Slit.Square;
    ghost var b := buf[..];
    SlitNeedsMatrix(ids, tree.distances);
    if o.slit.Some? {
      OptionalInside(o, before, b, ts, front, o.slit);
      var emitted :- Slit.EmitSlit(buf, o.slit.value, oem, ids, tree.distances);
    }
    Advance(o, before, b, ts, front, o.slit, SlitOf(tree, oem), buf[..]);
    return Success(());
  }

  lemma {:induction false} SlitNeedsMatrix(ids: seq<u32>, d: Distances)
    ensures Slit.SlitAccepted(ids, d) ==> d.Matrix?
  {}

  /** The four tables that depend on the tree. */
  method EmitOptional(buf: array<byte>, tree: Tree, oem: OemIdentity, o: Offsets, ghost plan: FadtPlan, ghost lapic: u32, cpus: seq<Cpu>, ids: seq<u32>,
                      ghost before: seq<byte>, ghost ts: seq<seq<byte>>)
    returns (r: Result<(), DtbError>)
    requires Countable(tree) && Counted(tree, o, plan, lapic) && cpus == CpusOf(tree) && ids == IdsOf(tree) && o.total <= buf.Length
    requires Filled(buf[..], before, ts, HeadSlots(o)) && |before| == buf.Length
    modifies buf
    ensures r.Success? <==> OptionalEmits(tree, o, oem)
    ensures r.Success? ==> Filled(buf[..], before,
      ts + When(o.mcfg, McfgOf(tree, oem)) + When(o.spcr, SpcrOf(tree, oem)) + When(o.srat, SratOf(tree, oem)) + When(o.slit, SlitOf(tree, oem)),
      HeadSlots(o) + Just(o.mcfg) + Just(o.spcr) + Just(o.srat) + Just(o.slit))
  {
    hide Countable, Counted, CpusOf, IdsOf, Filled, SlotsOf, HeadSlots, Tiled, Just, When, McfgOf, SpcrOf, SratOf, SlitOf, Slit.Square, Targets;
    CountedTiles(tree, o, plan, lapic);
    SizesAgree(tree, o, plan, lapic, oem);
    SlotPrefixes(o);
    ghost var all, front := ts, HeadSlots(o);
    var mcfg :- EmitMaybeMcfg(buf, tree, oem, o, before, all, front);
    all, front := all + When(o.mcfg, McfgOf(tree, oem)), front + Just(o.mcfg);
    var spcr :- EmitMaybeSpcr(buf, tree, oem, o, before, all, front);
    all, front := all + When(o.spcr, SpcrOf(tree, oem)), front + Just(o.spcr);
    var srat :- EmitMaybeSrat(buf, tree, oem, o, cpus, before, all, front);
    all, front := all + When(o.srat, SratOf(tree, oem)), front + Just(o.srat);
    var slit :- EmitMaybeSlit(buf, tree, oem, o, ids, before, all, front);
    return Success(());
  }

  method EmitLast(buf: array<byte>, tree: Tree, oem: OemIdentity, base: u64, o: Offsets, ghost plan: FadtPlan, ghost lapic: u32,
                  ghost before: seq<byte>, ghost ts: seq<seq<byte>>, ghost front: seq<Slot>)
    returns (r: Result<(), DtbError>)
    requires Countable(tree) && Counted(tree, o, plan, lapic) && o.total <= buf.Length
    requires front + [o.xsdt] == SlotsOf(o) && Filled(buf[..], before, ts, front) && |before| == buf.Length
    modifies buf
    ensures r.Success? <==> XsdtOf(base, o, oem).Some?
    ensures r.Success? ==> Filled(buf[..], before, ts + [XsdtOf(base, o, oem).value], SlotsOf(o))
  {
    hide Countable, Counted, Filled, SlotsOf, Tiled, Stored, Table, Targets;
    CountedTiles(tree, o, plan, lapic);
    SlotInside(o, front, o.xsdt);
    ghost var b := buf[..];
    var xsdt :- EmitXsdt(buf, o.xsdt, oem, base, Targets(o));
    NextTable(SlotsOf(o), o.total, before, b, ts, front, o.xsdt, XsdtOf(base, o, oem).value, buf[..]);
    return Success(());
  }

  /** A buffer for the ACPI image. */
  class AcpiBuffer {
    const bytes: array<byte>

    constructor (size: nat)
      ensures bytes.Length == size && fresh(bytes) && forall i :: 0 <= i < size ==> bytes[i] == 0
    {
      bytes := new byte[size](_ => 0);
    }

    /** Counts, then writes every table. Success fills the counted prefix with the tables in layout
        order and leaves the rest of the buffer alone. */
    method Populate(tree: Tree, oem: OemIdentity, base: u64)
      returns (r: Result<nat, EmitError>, ghost o: Offsets, ghost plan: FadtPlan, ghost lapic: u32)
      modifies bytes
      ensures !Countable(tree) ==> r == Failure(Malformed)
      ensures Countable(tree) ==> Counted(tree, o, plan, lapic)
      ensures Countable(tree) && o.total > bytes.Length ==> r == Failure(BufferTooSmall(o.total, bytes.Length))
      ensures Countable(tree) && o.total <= bytes.Length ==> (r.Success? <==> Emits(tree, o, plan, lapic, oem, base))
      ensures r.Success? ==> r.value == o.total && Filled(bytes[..], old(bytes[..]), Tables(tree, o, plan, lapic, oem, base), SlotsOf(o))
      ensures !Countable(tree) || o.total > bytes.Length ==> bytes[..] == old(bytes[..])
    {
      hide Countable, Counted, Filled, SlotsOf, HeadSlots, HeadEmits, OptionalEmits, XsdtOf, HeadTables, When, Just, McfgOf, SpcrOf, SratOf, SlitOf, CpusOf, IdsOf;
      var cache := new CpuCache();
      var domains := new Domains();
      o, plan, lapic := Offsets(Slot(0, 0), Slot(0, 0), Slot(0, 0), Slot(0, 0), None, None, None, None, Slot(0, 0), 0), FadtPlan(0, None, 0, 0), 0;
      ghost var before := bytes[..];
      var counted := Run(tree, cache, domains);
      if counted.Failure? { return Failure(Malformed), o, plan, lapic; }
      var (offsets, fadtPlan, lapicBase) := counted.value;
      o, plan, lapic := offsets, fadtPlan, lapicBase;
      if bytes.Length < offsets.total { return Failure(BufferTooSmall(offsets.total, bytes.Length)), o, plan, lapic; }
      SlotPrefixes(o);
      var head := EmitHead(bytes, tree, oem, base, offsets, fadtPlan, lapicBase, cache.Entries());
      if head.Failure? { return Failure(Malformed), o, plan, lapic; }
      ghost var ts := HeadTables(tree, o, plan, lapic, oem, base);
      var optional := EmitOptional(bytes, tree, oem, offsets, plan, lapic, cache.Entries(), domains.Contents(), before, ts);
      if optional.Failure? { return Failure(Malformed), o, plan, lapic; }
      ts := ts + When(o.mcfg, McfgOf(tree, oem)) + When(o.spcr, SpcrOf(tree, oem)) + When(o.srat, SratOf(tree, oem)) + When(o.slit, SlitOf(tree, oem));
      var last := EmitLast(bytes, tree, oem, base, offsets, plan, lapic, before, ts,
                           HeadSlots(o) + Just(o.mcfg) + Just(o.spcr) + Just(o.srat) + Just(o.slit));
      if last.Failure? { return Failure(Malformed), o, plan, lapic; }
      return Success(offsets.total), o, plan, lapic;
    }
  }

  // ---- what the image guarantees ----

  /** Table signatures in buffer order, after the RSDP. */
  function Signatures(o: Offsets): seq<seq<byte>> {
    [DSDT, FACP, APIC] + (if o.mcfg.Some? then [MCFG] else []) + (if o.spcr.Some? then [SPCR] else [])
    + (if o.srat.Some? then [SRAT] else []) + (if o.slit.Some? then [Slit.SLIT] else []) + [XSDT]
  }

  lemma {:induction false} MadeIsTable(signature: seq<byte>, revision: byte, oem: OemIdentity, body: seq<byte>)
    requires |signature| == 4 && MakeTable(signature, revision, oem, body).Some?
    ensures
      var t := MakeTable(signature, revision, oem, body).value;
      IsTable(t, signature) && t[SDT_HEADER_SIZE..] == body
  {
    hide IsTable, Table;
    TableIsTable(signature, revision, oem, body);
  }

  lemma {:induction false} OptionalAreTables(tree: Tree, oem: OemIdentity)
    requires Countable(tree)
    ensures McfgOf(tree, oem).Some? ==> IsTable(McfgOf(tree, oem).value, MCFG)
    ensures SpcrOf(tree, oem).Some? ==> IsTable(SpcrOf(tree, oem).value, SPCR)
    ensures SratOf(tree, oem).Some? ==> IsTable(SratOf(tree, oem).value, SRAT)
    ensures SlitOf(tree, oem).Some? ==> IsTable(SlitOf(tree, oem).value, Slit.SLIT)
  {
    hide Countable, IsTable, MakeTable, Blocks, SpcrBody, SratBody, McfgBody, Slit.SlitBody, Slit.SlitAccepted, Slit.Triples, AllTagged, CpusOf, IdsOf;
    if McfgOf(tree, oem).Some? { MadeIsTable(MCFG, 1, oem, McfgBody(Blocks(EcamRegions, tree.children).value)); }
    if SpcrOf(tree, oem).Some? { MadeIsTable(SPCR, 2, oem, SpcrBody(tree.stdout).value); }
    if SratOf(tree, oem).Some? { MadeIsTable(SRAT, 3, oem, SratBody(CpusOf(tree), Blocks(MemoryRegions, tree.children).value)); }
    SlitNeedsMatrix(IdsOf(tree), tree.distances);
    if SlitOf(tree, oem).Some? { MadeIsTable(Slit.SLIT, 1, oem, Slit.SlitBody(IdsOf(tree), Slit.Triples(tree.distances.raw))); }
  }

  lemma {:induction false} AlwaysAreTables(tree: Tree, o: Offsets, plan: FadtPlan, lapic: u32, oem: OemIdentity, base: u64)
    requires Countable(tree) && Emits(tree, o, plan, lapic, oem, base)
    ensures IsTable(Dsdt(oem, plan.sleepValue, tree.children).value, DSDT) && IsTable(FadtTable(base, o, plan, oem).value, FACP)
    ensures IsTable(MadtOf(tree, oem, lapic).value, APIC) && IsTable(XsdtOf(base, o, oem).value, XSDT)
  {
    hide Countable, IsTable, MakeTable, Blocks, Devices, DsdtBody, FadtBody, MadtBody, CpusOf, OptionalEmits, Targets, Pointers;
    MadeIsTable(DSDT, DSDT_REVISION, oem, DsdtBody(plan.sleepValue, tree.children));
    MadeIsTable(FACP, 6, oem, FadtBody(base + o.dsdt.offset, plan));
    MadeIsTable(APIC, MADT_REVISION, oem, MadtBody(lapic, CpusOf(tree), Blocks(IoApics, tree.children).value));
    MadeIsTable(XSDT, 1, oem, Pointers(Targets(o), base));
  }

  /** The tables behind the RSDP. */
  ghost function Described(tree: Tree, o: Offsets, plan: FadtPlan, lapic: u32, oem: OemIdentity, base: u64): (ts: seq<seq<byte>>)
    requires Countable(tree) && Emits(tree, o, plan, lapic, oem, base)
  {
    Tables(tree, o, plan, lapic, oem, base)[1..]
  }

  ghost predicate Paired(ts: seq<seq<byte>>, sigs: seq<seq<byte>>) {
    |ts| == |sigs| && forall i :: 0 <= i < |ts| ==> IsTable(ts[i], sigs[i])
  }

  lemma {:induction false} PairJoin(a: seq<seq<byte>>, b: seq<seq<byte>>, x: seq<seq<byte>>, y: seq<seq<byte>>)
    requires Paired(a, x) && Paired(b, y)
    ensures Paired(a + b, x + y)
  {
    hide IsTable;
  }

  lemma {:induction false} PairMaybe(s: Option<Slot>, t: Option<seq<byte>>, signature: seq<byte>)
    requires (s.Some? ==> t.Some?) && (t.Some? ==> IsTable(t.value, signature))
    ensures Paired(When(s, t), if s.Some? then [signature] else [])
  {
    hide IsTable;
  }

  /** Every table behind the RSDP has its signature, its length and a closing checksum. */
  lemma {:induction false} EveryTableIsValid(tree: Tree, o: Offsets, plan: FadtPlan, lapic: u32, oem: OemIdentity, base: u64)
    requires Countable(tree) && Emits(tree, o, plan, lapic, oem, base)
    ensures Paired(Described(tree, o, plan, lapic, oem, base), Signatures(o))
  {
    hide Countable, IsTable, Dsdt, FadtTable, MadtOf, XsdtOf, McfgOf, SpcrOf, SratOf, SlitOf, When, Rsdp, Paired;
    AlwaysAreTables(tree, o, plan, lapic, oem, base);
    OptionalAreTables(tree, oem);
    var (m, p, r, l) := (When(o.mcfg, McfgOf(tree, oem)), When(o.spcr, SpcrOf(tree, oem)), When(o.srat, SratOf(tree, oem)), When(o.slit, SlitOf(tree, oem)));
    PairMaybe(o.mcfg, McfgOf(tree, oem), MCFG);
    PairMaybe(o.spcr, SpcrOf(tree, oem), SPCR);
    PairMaybe(o.srat, SratOf(tree, oem), SRAT);
    PairMaybe(o.slit, SlitOf(tree, oem), Slit.SLIT);
    var head := [Dsdt(oem, plan.sleepValue, tree.children).value, FadtTable(base, o, plan, oem).value, MadtOf(tree, oem, lapic).value];
    PairThree(head[0], head[1], head[2], XsdtOf(base, o, oem).value);
    PairJoin(head, m, [DSDT, FACP, APIC], if o.mcfg.Some? then [MCFG] else []);
    PairJoin(head + m, p, [DSDT, FACP, APIC] + (if o.mcfg.Some? then [MCFG] else []), if o.spcr.Some? then [SPCR] else []);
    var sigs := [DSDT, FACP, APIC] + (if o.mcfg.Some? then [MCFG] else []) + (if o.spcr.Some? then [SPCR] else []);
    PairJoin(head + m + p, r, sigs, if o.srat.Some? then [SRAT] else []);
    PairJoin(head + m + p + r, l, sigs + (if o.srat.Some? then [SRAT] else []), if o.slit.Some? then [Slit.SLIT] else []);
    PairJoin(head + m + p + r + l, [XsdtOf(base, o, oem).value],
             sigs + (if o.srat.Some? then [SRAT] else []) + (if o.slit.Some? then [Slit.SLIT] else []), [XSDT]);
    var rsdp := Rsdp(base + o.xsdt.offset, oem);
    TailOf(rsdp, head, m, p, r, l, [XsdtOf(base, o, oem).value]);
  }

  lemma {:induction false} PairThree(a: seq<byte>, b: seq<byte>, c: seq<byte>, d: seq<byte>)
    requires IsTable(a, DSDT) && IsTable(b, FACP) && IsTable(c, APIC) && IsTable(d, XSDT)
    ensures Paired([a, b, c], [DSDT, FACP, APIC]) && Paired([d], [XSDT])
  {
    hide IsTable;
  }

  lemma {:induction false} TailOf(rsdp: seq<byte>, head: seq<seq<byte>>, m: seq<seq<byte>>, p: seq<seq<byte>>, r: seq<seq<byte>>, l: seq<seq<byte>>, x: seq<seq<byte>>)
    requires |head| == 3
    ensures ([rsdp, head[0], head[1], head[2]] + m + p + r + l + x)[1..] == head + m + p + r + l + x
  {
    var all := [rsdp] + (head + m + p + r + l + x);
    assert [rsdp, head[0], head[1], head[2]] == [rsdp] + head;
    assert [rsdp, head[0], head[1], head[2]] + m + p + r + l + x == all;
  }

  /** The pointers land: RSDP to XSDT, FADT to DSDT, XSDT to exactly the other tables present. */
  lemma {:induction false} PointersLand(tree: Tree, o: Offsets, plan: FadtPlan, lapic: u32, oem: OemIdentity, base: u64)
    requires Countable(tree) && Emits(tree, o, plan, lapic, oem, base)
    ensures
      var rsdp := Rsdp(base + o.xsdt.offset, oem);
      rsdp[..8] == RSD_PTR && Sum(rsdp[..20]) == 0 && Sum(rsdp) == 0 && LeValue(rsdp[24..32]) == base + o.xsdt.offset
    ensures LeValue(FadtTable(base, o, plan, oem).value[140..148]) == base + o.dsdt.offset
    ensures
      var xsdt := XsdtOf(base, o, oem).value;
      |xsdt| == SDT_HEADER_SIZE + 8 * |Targets(o)|
      && forall i :: 0 <= i < |Targets(o)| ==>
        LeValue(xsdt[SDT_HEADER_SIZE + 8 * i..SDT_HEADER_SIZE + 8 * i + 8]) == base + Targets(o)[i].offset
  {
    hide Countable, IsTable, MakeTable, Blocks, Dsdt, FadtBody, MadtOf, OptionalEmits, Targets, Pointers, Rsdp, LeValue, Sum;
    RsdpIsValid(base + o.xsdt.offset, oem);
    FadtPointsTo(base + o.dsdt.offset, plan);
    MadeIsTable(FACP, 6, oem, FadtBody(base + o.dsdt.offset, plan));
    var fadt := FadtTable(base, o, plan, oem).value;
    TableSlice(fadt, FadtBody(base + o.dsdt.offset, plan), 104);
    MadeIsTable(XSDT, 1, oem, Pointers(Targets(o), base));
    var xsdt := XsdtOf(base, o, oem).value;
    forall i | 0 <= i < |Targets(o)|
      ensures LeValue(xsdt[SDT_HEADER_SIZE + 8 * i..SDT_HEADER_SIZE + 8 * i + 8]) == base + Targets(o)[i].offset
    {
      PointerAt(Targets(o), base, i);
      TableSlice(xsdt, Pointers(Targets(o), base), 8 * i);
    }
  }

  lemma {:induction false} TableSlice(t: seq<byte>, body: seq<byte>, at: nat)
    requires |t| == SDT_HEADER_SIZE + |body| && t[SDT_HEADER_SIZE..] == body && at + 8 <= |body|
    ensures t[SDT_HEADER_SIZE + at..SDT_HEADER_SIZE + at + 8] == body[at..at + 8]
  {}

  /** The DSDT in the image parses as the soft-off object and one device a node. */
  lemma {:induction false} DsdtInImageParses(tree: Tree, o: Offsets, plan: FadtPlan, lapic: u32, oem: OemIdentity, base: u64)
    requires Countable(tree) && Emits(tree, o, plan, lapic, oem, base)
    ensures Devices(tree.children).Some?
    ensures AmlGrammar.Terms(Dsdt(oem, plan.sleepValue, tree.children).value[SDT_HEADER_SIZE..]) == Some([S5(plan.sleepValue)] + Devices(tree.children).value)
  {
    hide Countable, IsTable, MakeTable, Devices, DsdtBody, FadtTable, MadtOf, OptionalEmits, XsdtOf;
    MadeIsTable(DSDT, DSDT_REVISION, oem, DsdtBody(plan.sleepValue, tree.children));
    AmlGrammar.DsdtParses(plan.sleepValue, tree.children);
  }

  /** In the filled buffer, each slot holds its table: the RSDP first, then tables with their signatures
      and closing checksums. */
  lemma {:induction false} ImageIsValid(tree: Tree, o: Offsets, plan: FadtPlan, lapic: u32, oem: OemIdentity, base: u64, b: seq<byte>, before: seq<byte>, i: nat)
    requires Countable(tree) && Counted(tree, o, plan, lapic) && Emits(tree, o, plan, lapic, oem, base)
    requires Filled(b, before, Tables(tree, o, plan, lapic, oem, base), SlotsOf(o)) && i < |SlotsOf(o)|
    ensures o.total <= |b| == |before| && b[o.total..] == before[o.total..]
    ensures SlotsOf(o)[i].offset + SlotsOf(o)[i].len <= o.total
    ensures i == 0 ==> Cut(b, SlotsOf(o)[i]) == Rsdp(base + o.xsdt.offset, oem)
    ensures i > 0 ==> i - 1 < |Signatures(o)| && IsTable(Cut(b, SlotsOf(o)[i]), Signatures(o)[i - 1])
  {
    hide Countable, Counted, Emits, IsTable, Signatures, Tiled, SlotsOf, Rsdp, Flat, Dsdt, FadtTable, MadtOf, XsdtOf, McfgOf, SpcrOf, SratOf, SlitOf, When, Cut;
    CountedTiles(tree, o, plan, lapic);
    var ts := Tables(tree, o, plan, lapic, oem, base);
    FlatTiled(ts, SlotsOf(o), o.total);
    assert SlotsOf(o)[..i] + [SlotsOf(o)[i]] <= SlotsOf(o);
    SlotInside(o, SlotsOf(o)[..i], SlotsOf(o)[i]);
    SlotHoldsTable(b, before, ts, SlotsOf(o), o.total, i);
    EveryTableIsValid(tree, o, plan, lapic, oem, base);
    FirstIsRsdp(tree, o, plan, lapic, oem, base);
    hide Tables, Filled;
    assert i > 0 ==> Described(tree, o, plan, lapic, oem, base)[i - 1] == ts[i];
  }

  lemma {:induction false} FirstIsRsdp(tree: Tree, o: Offsets, plan: FadtPlan, lapic: u32, oem: OemIdentity, base: u64)
    requires Countable(tree) && Emits(tree, o, plan, lapic, oem, base)
    ensures var ts := Tables(tree, o, plan, lapic, oem, base); |ts| > 0 && ts[0] == Rsdp(base + o.xsdt.offset, oem)
  {
    hide Countable, Rsdp, Dsdt, FadtTable, MadtOf, XsdtOf, McfgOf, SpcrOf, SratOf, SlitOf, When;
  }

  // ---- the reader's view ----

  /** The table at a guest address, as an operating system takes it from memory that starts at `base`: the
      length from its header, and only with a closing checksum. */
  function TableAt(b: seq<byte>, base: nat, address: nat): (t: Option<seq<byte>>) {
    if address < base || address - base + SDT_HEADER_SIZE > |b| then None
    else
      var at := address - base;
      var len := LeValue(b[at + 4..at + 8]);
      if len < SDT_HEADER_SIZE || at + len > |b| || Sum(b[at..at + len]) != 0 then None else Some(b[at..at + len])
  }

  lemma {:induction false} SlotIsTable(b: seq<byte>, base: nat, s: Slot, t: seq<byte>, signature: seq<byte>)
    requires s.offset + s.len <= |b| && Cut(b, s) == t && IsTable(t, signature)
    ensures TableAt(b, base, base + s.offset) == Some(t)
  {
    hide Sum, LeValue;
    assert b[s.offset + 4..s.offset + 8] == t[4..8];
  }

  /** The table the RSDP at the start of the memory points to. */
  function XsdtAt(b: seq<byte>, base: nat): (t: Option<seq<byte>>) {
    if |b| < RSDP_SIZE then None else TableAt(b, base, LeValue(b[24..32]))
  }

  /** The 64-bit field of a table. */
  function Field64(t: seq<byte>, at: nat): nat { if at + 8 <= |t| then LeValue(t[at..at + 8]) else 0 }

  /** The `i`-th table the XSDT lists. */
  function ListedAt(b: seq<byte>, base: nat, i: nat): (t: Option<seq<byte>>) {
    if XsdtAt(b, base).None? || |XsdtAt(b, base).value| < SDT_HEADER_SIZE + 8 * i + 8 then None
    else TableAt(b, base, Field64(XsdtAt(b, base).value, SDT_HEADER_SIZE + 8 * i))
  }

  /** The DSDT: what the first listed table, the FADT, points to. */
  function DsdtAt(b: seq<byte>, base: nat): (t: Option<seq<byte>>) {
    if ListedAt(b, base, 0).None? then None else TableAt(b, base, Field64(ListedAt(b, base, 0).value, 140))
  }

  /** The RSDP at the start of the filled buffer is valid and leads to the XSDT. */
  lemma {:induction false} ReaderFindsXsdt(tree: Tree, o: Offsets, plan: FadtPlan, lapic: u32, oem: OemIdentity, base: u64, b: seq<byte>, before: seq<byte>)
    requires Countable(tree) && Counted(tree, o, plan, lapic) && Emits(tree, o, plan, lapic, oem, base)
    requires Filled(b, before, Tables(tree, o, plan, lapic, oem, base), SlotsOf(o))
    ensures |b| >= RSDP_SIZE && b[..8] == RSD_PTR && Sum(b[..20]) == 0 && Sum(b[..RSDP_SIZE]) == 0
    ensures XsdtOf(base, o, oem).Some? && XsdtAt(b, base) == XsdtOf(base, o, oem)
  {
    hide Countable, Counted, Emits, IsTable, Signatures, Tiled, SlotsOf, Rsdp, Dsdt, FadtTable, MadtOf, XsdtOf, Targets, TableAt, Sum, LeValue, Cut, Filled, Tables;
    XsdtExists(tree, o, plan, lapic, oem, base);
    PointersLand(tree, o, plan, lapic, oem, base);
    TablesInOrder(tree, o, plan, lapic, oem, base, b, before);
    SlotsInOrder(o);
    ReadSlot(tree, o, plan, lapic, oem, base, b, before, 0);
    ReadSlot(tree, o, plan, lapic, oem, base, b, before, |SlotsOf(o)| - 1);
    FirstCut(b, o, Rsdp(base + o.xsdt.offset, oem));
  }

  lemma {:induction false} XsdtExists(tree: Tree, o: Offsets, plan: FadtPlan, lapic: u32, oem: OemIdentity, base: u64)
    requires Countable(tree) && Emits(tree, o, plan, lapic, oem, base)
    ensures XsdtOf(base, o, oem).Some? && base + o.xsdt.offset < U64_LIMIT
    ensures FadtTable(base, o, plan, oem).Some? && Dsdt(oem, plan.sleepValue, tree.children).Some?
  {
    hide Countable, OptionalEmits, XsdtOf, MadtOf, FadtTable, Dsdt;
  }

  /** Each XSDT entry leads to the listed table of that position, with its signature. */
  lemma {:induction false} ReaderFindsListed(tree: Tree, o: Offsets, plan: FadtPlan, lapic: u32, oem: OemIdentity, base: u64, b: seq<byte>, before: seq<byte>, i: nat)
    requires Countable(tree) && Counted(tree, o, plan, lapic) && Emits(tree, o, plan, lapic, oem, base)
    requires Filled(b, before, Tables(tree, o, plan, lapic, oem, base), SlotsOf(o)) && i < |Targets(o)|
    ensures 2 + i < |Tables(tree, o, plan, lapic, oem, base)| && 1 + i < |Signatures(o)|
    ensures ListedAt(b, base, i) == Some(Tables(tree, o, plan, lapic, oem, base)[2 + i])
    ensures IsTable(Tables(tree, o, plan, lapic, oem, base)[2 + i], Signatures(o)[1 + i])
  {
    hide Countable, Counted, Emits, IsTable, Signatures, Tiled, SlotsOf, Rsdp, Dsdt, FadtTable, MadtOf, XsdtOf, Targets, TableAt, Sum, LeValue, Cut, Filled, Tables, XsdtAt;
    XsdtExists(tree, o, plan, lapic, oem, base);
    ReaderFindsXsdt(tree, o, plan, lapic, oem, base, b, before);
    PointersLand(tree, o, plan, lapic, oem, base);
    SlotsInOrder(o);
    ReadSlot(tree, o, plan, lapic, oem, base, b, before, 2 + i);
    var (xsdt, s) := (XsdtOf(base, o, oem).value, Targets(o)[i]);
    assert SlotsOf(o)[2 + i] == s;
    assert Field64(xsdt, SDT_HEADER_SIZE + 8 * i) == LeValue(xsdt[SDT_HEADER_SIZE + 8 * i..SDT_HEADER_SIZE + 8 * i + 8]) == base + s.offset;
  }

  /** The FADT's pointer leads to the DSDT, which parses as the soft-off object and one device a node. */
  lemma {:induction false} ReaderFindsDsdt(tree: Tree, o: Offsets, plan: FadtPlan, lapic: u32, oem: OemIdentity, base: u64, b: seq<byte>, before: seq<byte>)
    requires Countable(tree) && Counted(tree, o, plan, lapic) && Emits(tree, o, plan, lapic, oem, base)
    requires Filled(b, before, Tables(tree, o, plan, lapic, oem, base), SlotsOf(o))
    ensures Devices(tree.children).Some? && DsdtAt(b, base).Some? && |DsdtAt(b, base).value| >= SDT_HEADER_SIZE
    ensures AmlGrammar.Terms(DsdtAt(b, base).value[SDT_HEADER_SIZE..]) == Some([S5(plan.sleepValue)] + Devices(tree.children).value)
  {
    hide Countable, Counted, Emits, IsTable, Signatures, Tiled, SlotsOf, Rsdp, MadtOf, XsdtOf, TableAt, Sum, LeValue, Cut, Filled, Tables, ListedAt, Devices, DsdtBody, Table, FadtBody;
    XsdtExists(tree, o, plan, lapic, oem, base);
    TablesInOrder(tree, o, plan, lapic, oem, base, b, before);
    ReaderFindsListed(tree, o, plan, lapic, oem, base, b, before, 0);
    PointersLand(tree, o, plan, lapic, oem, base);
    DsdtInImageParses(tree, o, plan, lapic, oem, base);
    SlotsInOrder(o);
    ReadSlot(tree, o, plan, lapic, oem, base, b, before, 1);
  }

  lemma {:induction false} FirstCut(b: seq<byte>, o: Offsets, t: seq<byte>)
    requires o.rsdp.offset + o.rsdp.len <= |b| && Cut(b, o.rsdp) == t && |t| == RSDP_SIZE && Tiled(SlotsOf(o), 0, o.total)
    ensures |b| >= RSDP_SIZE && b[..RSDP_SIZE] == t && b[..8] == t[..8] && b[..20] == t[..20] && b[24..32] == t[24..32]
  {
    hide Tiled, SlotsOf;
    HeadPrefixes(o);
    TiledPrefix(SlotsOf(o), o.total, [], o.rsdp);
    NothingTiled(o.rsdp.offset);
    assert b[..RSDP_SIZE] == t;
    assert t[..8] == b[..RSDP_SIZE][..8] && t[..20] == b[..RSDP_SIZE][..20] && t[24..32] == b[..RSDP_SIZE][24..32];
  }

  lemma {:induction false} NothingTiled(end: nat)
    requires Tiled([], 0, end)
    ensures end == 0
  {}

  lemma {:induction false} SlotsInOrder(o: Offsets)
    ensures
      var all := SlotsOf(o);
      && |all| == |Targets(o)| + 3 && all[0] == o.rsdp && all[1] == o.dsdt && all[|all| - 1] == o.xsdt
      && forall i :: 0 <= i < |Targets(o)| ==> all[2 + i] == Targets(o)[i]
  {
    hide Targets;
  }

  /** Which tables stand first, second, third and last, and the tiling they lie in. */
  lemma {:induction false} TablesInOrder(tree: Tree, o: Offsets, plan: FadtPlan, lapic: u32, oem: OemIdentity, base: u64, b: seq<byte>, before: seq<byte>)
    requires Countable(tree) && Counted(tree, o, plan, lapic) && Emits(tree, o, plan, lapic, oem, base)
    requires Filled(b, before, Tables(tree, o, plan, lapic, oem, base), SlotsOf(o))
    ensures Tiled(SlotsOf(o), 0, o.total)
    ensures
      var ts := Tables(tree, o, plan, lapic, oem, base);
      && |ts| == |SlotsOf(o)| > 3 && ts[0] == Rsdp(base + o.xsdt.offset, oem) && ts[1] == Dsdt(oem, plan.sleepValue, tree.children).value
      && ts[2] == FadtTable(base, o, plan, oem).value && |ts[2]| == FADT_SIZE && ts[|ts| - 1] == XsdtOf(base, o, oem).value
  {
    hide Countable, Counted, Tiled, SlotsOf, Rsdp, Dsdt, MadtOf, XsdtOf, McfgOf, SpcrOf, SratOf, SlitOf, When, Flat, FadtBody, Table;
    CountedTiles(tree, o, plan, lapic);
    SlotsInOrder(o);
  }

  lemma {:induction false} ReadSlot(tree: Tree, o: Offsets, plan: FadtPlan, lapic: u32, oem: OemIdentity, base: u64, b: seq<byte>, before: seq<byte>, i: nat)
    requires Countable(tree) && Counted(tree, o, plan, lapic) && Emits(tree, o, plan, lapic, oem, base)
    requires Filled(b, before, Tables(tree, o, plan, lapic, oem, base), SlotsOf(o)) && i < |SlotsOf(o)|
    ensures
      var (ts, s) := (Tables(tree, o, plan, lapic, oem, base), SlotsOf(o)[i]);
      && i < |ts| && s.offset + s.len <= |b| && Cut(b, s) == ts[i]
      && (i > 0 ==> i - 1 < |Signatures(o)| && IsTable(ts[i], Signatures(o)[i - 1]) && TableAt(b, base, base + s.offset) == Some(ts[i]))
  {
    hide Countable, Counted, Emits, IsTable, Signatures, Tiled, SlotsOf, Tables, TableAt, Cut;
    CountedTiles(tree, o, plan, lapic);
    ImageIsValid(tree, o, plan, lapic, oem, base, b, before, i);
    SlotHoldsTable(b, before, Tables(tree, o, plan, lapic, oem, base), SlotsOf(o), o.total, i);
    if i > 0 { SlotIsTable(b, base, SlotsOf(o)[i], Tables(tree, o, plan, lapic, oem, base)[i], Signatures(o)[i - 1]); }
  }
}
