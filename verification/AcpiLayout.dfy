/** The layout the counting pass computes: every table's slot, one after another. */
module AcpiLayout {
  import opened Outcomes
  import opened Words
  import opened AcpiCore
  import opened DeviceTree
  import opened AcpiDevices
  import opened AcpiEntries
  import opened AcpiWalks
  import opened AcpiTables
  import opened AcpiCount
  import Slit

  /** The sizes that depend on the tree. */
  datatype Counts = Counts(vcpuBytes: nat, cpuBytes: nat, ioapicBytes: nat, ecamBytes: nat, deviceBytes: nat, serial: bool, numa: Numa)

  datatype Offsets = Offsets(rsdp: Slot, dsdt: Slot, fadt: Slot, madt: Slot, mcfg: Option<Slot>, spcr: Option<Slot>,
                             srat: Option<Slot>, slit: Option<Slot>, xsdt: Slot, total: nat)

  function Just(s: Option<Slot>): seq<Slot> { if s.Some? then [s.value] else [] }

  /** The tables the XSDT lists. */
  function Targets(o: Offsets): seq<Slot> {
    [o.fadt] + [o.madt] + Just(o.mcfg) + Just(o.spcr) + Just(o.srat) + Just(o.slit)
  }

  /** All slots in buffer order. */
  function SlotsOf(o: Offsets): seq<Slot> { [o.rsdp] + [o.dsdt] + Targets(o) + [o.xsdt] }

  /** The slots follow each other without gap from `start` to `end`. */
  ghost predicate Tiled(slots: seq<Slot>, start: nat, end: nat) {
    if slots == [] then start == end
    else
      var last := slots[|slots| - 1];
      Tiled(slots[..|slots| - 1], start, last.offset) && last.offset + last.len == end
  }

  function DsdtSize(c: Counts): nat { SDT_HEADER_SIZE + S5_BYTES + c.deviceBytes }
  function MadtSize(c: Counts): nat { 44 + c.vcpuBytes + c.ioapicBytes }
  function McfgSize(c: Counts): nat { 44 + c.ecamBytes }
  function SratSize(c: Counts): nat { 48 + c.cpuBytes + MEMORY_BYTES * c.numa.regions }
  function SlitSize(domains: nat): nat { 44 + Slit.Square(domains) }
  function XsdtSize(o: Offsets): nat { SDT_HEADER_SIZE + 8 * |Targets(o)| }

  ghost predicate HasSize(s: Option<Slot>, wanted: bool, size: nat) { (s.Some? <==> wanted) && (s.Some? ==> s.value.len == size) }

  /** Exactly the tables the tree calls for, each with its size, tiling the buffer. */
  ghost predicate IsLayout(o: Offsets, c: Counts, domains: nat) {
    && o.rsdp.len == RSDP_SIZE && o.dsdt.len == DsdtSize(c) && o.fadt.len == FADT_SIZE && o.madt.len == MadtSize(c)
    && HasSize(o.mcfg, c.ecamBytes > 0, McfgSize(c)) && HasSize(o.spcr, c.serial, SPCR_SIZE)
    && HasSize(o.srat, c.numa.present, SratSize(c)) && HasSize(o.slit, c.numa.present && c.numa.distances, SlitSize(domains))
    && o.xsdt.len == XsdtSize(o)
    && Tiled(SlotsOf(o), 0, o.total)
  }

  lemma {:induction false} TileOne(slots: seq<Slot>, start: nat, end: nat, len: nat)
    requires Tiled(slots, start, end)
    ensures Tiled(slots + [Slot(end, len)], start, end + len)
  {
    assert (slots + [Slot(end, len)])[..|slots|] == slots;
  }

  /** Takes the next slot. */
  method Carve(ghost slots: seq<Slot>, cur: nat, len: nat) returns (s: Slot, next: nat)
    requires Tiled(slots, 0, cur)
    ensures s.len == len && Tiled(slots + [s], 0, next)
  {
    TileOne(slots, 0, cur, len);
    return Slot(cur, len), cur + len;
  }

  /** Takes the next slot when it is wanted. */
  method CarveIf(ghost slots: seq<Slot>, cur: nat, len: nat, wanted: bool) returns (s: Option<Slot>, next: nat)
    requires Tiled(slots, 0, cur)
    ensures HasSize(s, wanted, len) && Tiled(slots + Just(s), 0, next)
  {
    hide Tiled;
    if !wanted {
      assert slots + [] == slots;
      return None, cur;
    }
    var slot, n := Carve(slots, cur, len);
    return Some(slot), n;
  }

  method LayOutOptional(c: Counts, domains: nat, ghost slots: seq<Slot>, from: nat)
    returns (mcfg: Option<Slot>, spcr: Option<Slot>, srat: Option<Slot>, slit: Option<Slot>, cur: nat)
    requires Tiled(slots, 0, from)
    ensures HasSize(mcfg, c.ecamBytes > 0, McfgSize(c)) && HasSize(spcr, c.serial, SPCR_SIZE)
    ensures HasSize(srat, c.numa.present, SratSize(c)) && HasSize(slit, c.numa.present && c.numa.distances, SlitSize(domains))
    ensures Tiled(slots + Just(mcfg) + Just(spcr) + Just(srat) + Just(slit), 0, cur)
  {
    hide Tiled, McfgSize, SratSize, SlitSize, HasSize, Just;
    ghost var all := slots;
    mcfg, cur := CarveIf(all, from, McfgSize(c), c.ecamBytes > 0);
    all := all + Just(mcfg);
    spcr, cur := CarveIf(all, cur, SPCR_SIZE, c.serial);
    all := all + Just(spcr);
    srat, cur := CarveIf(all, cur, SratSize(c), c.numa.present);
    all := all + Just(srat);
    slit, cur := CarveIf(all, cur, SlitSize(domains), c.numa.present && c.numa.distances);
  }

  method LayOut(c: Counts, domains: nat) returns (o: Offsets)
    ensures IsLayout(o, c, domains)
  {
    hide Tiled, DsdtSize, MadtSize, McfgSize, SratSize, SlitSize, HasSize;
    NoSlots();
    ghost var slots: seq<Slot> := [];
    var rsdp, cur := Carve(slots, 0, RSDP_SIZE);
    slots := slots + [rsdp];
    var dsdt;
    dsdt, cur := Carve(slots, cur, DsdtSize(c));
    slots := slots + [dsdt];
    var fadt;
    fadt, cur := Carve(slots, cur, FADT_SIZE);
    slots := slots + [fadt];
    var madt;
    madt, cur := Carve(slots, cur, MadtSize(c));
    slots := slots + [madt];
    var mcfg, spcr, srat, slit, next := LayOutOptional(c, domains, slots, cur);
    slots := slots + Just(mcfg) + Just(spcr) + Just(srat) + Just(slit);
    var optional := Present(mcfg) + Present(spcr) + Present(srat) + Present(slit);
    var xsdt;
    xsdt, cur := Carve(slots, next, SDT_HEADER_SIZE + 8 * (2 + optional));
    o := Offsets(rsdp, dsdt, fadt, madt, mcfg, spcr, srat, slit, xsdt, cur);
    SlotOrder(o);
  }

  function Present(s: Option<Slot>): nat { |Just(s)| }

  lemma {:induction false} SlotOrder(o: Offsets)
    ensures SlotsOf(o) == [] + [o.rsdp] + [o.dsdt] + [o.fadt] + [o.madt] + (Just(o.mcfg)) + Just(o.spcr) + Just(o.srat) + Just(o.slit) + [o.xsdt]
    ensures |Targets(o)| == 2 + Present(o.mcfg) + Present(o.spcr) + Present(o.srat) + Present(o.slit)
  {
    hide Just;
  }

  lemma {:induction false} NoSlots()
    ensures Tiled([], 0, 0)
  {}

  // ---- the whole counting pass ----

  predicate Countable(tree: Tree) {
    && tree.cpus.Some? && CpusCount(tree.cpus.value)
    && LapicOf(tree.children).Some? && CountBytes(IoApics, tree.children).Some? && FadtOf(tree.children).Some?
    && CountBytes(EcamRegions, tree.children).Some? && CountDevices(tree.children).Some?
    && tree.stdout.Some? && NumaOf(tree, CpuList(tree.cpus.value).value).Some?
  }

  function CpusOf(tree: Tree): (cpus: seq<Cpu>)
    requires Countable(tree)
    ensures |cpus| <= CPU_CACHE_CAP
  {
    CpuList(tree.cpus.value).value
  }

  function IdsOf(tree: Tree): (ids: seq<u32>)
    requires Countable(tree)
    ensures |ids| <= DOMAIN_LIMIT
  {
    AllDomains(tree, CpusOf(tree))
  }

  ghost function CountsOf(tree: Tree): Counts
    requires Countable(tree)
  {
    Counts(|CpuEntries(CpusOf(tree))|, AffinityBytes(CpusOf(tree)), CountBytes(IoApics, tree.children).value,
           CountBytes(EcamRegions, tree.children).value, CountDevices(tree.children).value, tree.stdout.value.Some?,
           NumaOf(tree, CpusOf(tree)).value)
  }

  /** What the counting pass returns. */
  ghost predicate Counted(tree: Tree, o: Offsets, plan: FadtPlan, lapic: u32)
    requires Countable(tree)
  {
    IsLayout(o, CountsOf(tree), |IdsOf(tree)|) && plan == FadtOf(tree.children).value && lapic == LapicOf(tree.children).value
  }

  method CountDsdt(children: seq<Node>) returns (r: Result<nat, DtbError>)
    ensures r.Success? <==> CountDevices(children).Some?
    ensures r.Success? ==> r.value == CountDevices(children).value
  {
    hide CountBytes, FindSerial;
    var mbr :- CountWalk(Motherboard, children);
    var pci :- CountWalk(HostBridge, children);
    var serial := FindSerial(children);
    if serial.Failure? { return Failure(Dtb); }
    var vm :- CountWalk(Virtio, children);
    return Success(mbr + pci + (if serial.value.Some? then SERIAL_BYTES else 0) + vm);
  }

  method Run(tree: Tree, cache: CpuCache, domains: Domains) returns (r: Result<(Offsets, FadtPlan, u32), DtbError>)
    requires domains.Valid() && domains.Contents() == [] && cache.Valid() && cache.Entries() == []
    requires domains.ids != cache.apicIds && domains.ids != cache.numaTags
    modifies domains, domains.ids, cache, cache.apicIds, cache.numaTags, cache.statuses
    ensures domains.Valid() && cache.Valid()
    ensures r.Success? <==> Countable(tree)
    ensures r.Success? ==> Counted(tree, r.value.0, r.value.1, r.value.2)
    ensures r.Success? ==> cache.Entries() == CpusOf(tree) && domains.Contents() == IdsOf(tree)
  {
    hide CpuList, CpusCount, DomainsOf, CountBytes, CountDevices, LapicOf, FadtOf, NumaOf, AllDomains, IsLayout, CpuEntries, AffinityBytes, TagsOf, AllTagged;
    if tree.cpus.None? { return Failure(Dtb); }
    var walk :- WalkCpus(tree.cpus.value, domains, cache);
    ghost var cpus := cache.Entries();
    var lapic :- FindLapic(tree.children);
    var ioapicBytes :- CountWalk(IoApics, tree.children);
    var plan :- ExtractFadt(tree.children);
    var ecamBytes :- CountWalk(EcamRegions, tree.children);
    var deviceBytes :- CountDsdt(tree.children);
    if tree.stdout.None? { return Failure(Dtb); }
    var numa :- CountNuma(tree, walk, domains, cpus);
    var c := Counts(walk.vcpuBytes, walk.cpuBytes, ioapicBytes, ecamBytes, deviceBytes, tree.stdout.value.Some?, numa);
    var offsets := LayOut(c, domains.n);
    return Success((offsets, plan, lapic));
  }
}
