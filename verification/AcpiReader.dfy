/** Reading MADT and SRAT back: every entry carries its own length. */
module AcpiReader {
  import opened Outcomes
  import opened Words
  import opened AcpiCore
  import opened DeviceTree
  import opened AcpiEntries
  import opened AcpiWalks
  import opened AcpiTables

  /** Consecutive entries by the length in their second byte. */
  function Entries(s: seq<byte>): (l: Option<seq<seq<byte>>>) {
    if s == [] then Some([])
    else if |s| < 2 || s[1] < 2 || s[1] > |s| then None
    else
      var rest := Entries(s[s[1]..]);
      if rest.None? then None else Some([s[..s[1]]] + rest.value)
  }

  predicate IsEntry(e: seq<byte>) { |e| >= 2 && e[1] == |e| }

  ghost predicate AllEntries(l: seq<seq<byte>>) { forall i :: 0 <= i < |l| ==> IsEntry(l[i]) }

  lemma {:induction false} EntriesStep(e: seq<byte>, rest: seq<byte>)
    requires IsEntry(e) && Entries(rest).Some?
    ensures Entries(e + rest) == Some([e] + Entries(rest).value)
  {
    assert (e + rest)[..|e|] == e && (e + rest)[|e|..] == rest && (e + rest)[1] == e[1];
  }

  /** Entries written one after another are read back one after another. */
  lemma {:induction false} EntriesOfFlat(l: seq<seq<byte>>, rest: seq<byte>)
    requires AllEntries(l) && Entries(rest).Some?
    ensures Entries(Flat(l) + rest) == Some(l + Entries(rest).value)
    decreases |l|
  {
    hide Entries, IsEntry;
    if l == [] {
      assert Flat(l) + rest == rest && l + Entries(rest).value == Entries(rest).value;
    } else {
      var n := |l| - 1;
      EntriesStep(l[n], rest);
      EntriesOfFlat(l[..n], l[n] + rest);
      assert Flat(l[..n]) + l[n] + rest == Flat(l[..n]) + (l[n] + rest);
      assert l[..n] + ([l[n]] + Entries(rest).value) == l + Entries(rest).value;
    }
  }

  // ---- MADT ----

  /** Both entries of every processor, in order. */
  function CpuEntryList(cpus: seq<Cpu>): (l: seq<seq<byte>>)
    requires |cpus| <= U32_LIMIT
  {
    if cpus == [] then [] else
      var uid := |cpus| - 1;
      CpuEntryList(cpus[..uid]) + [LapicEntry(uid, cpus[uid])] + [NmiEntry(uid)]
  }

  lemma {:induction false} CpuEntriesAreFlat(cpus: seq<Cpu>)
    requires |cpus| <= U32_LIMIT
    ensures Flat(CpuEntryList(cpus)) == CpuEntries(cpus) && AllEntries(CpuEntryList(cpus))
  {
    hide LapicEntry, NmiEntry, IsEntry;
    if cpus != [] {
      var uid := |cpus| - 1;
      CpuEntriesAreFlat(cpus[..uid]);
      CpuEntriesAreEntries(uid, cpus[uid]);
      FlatGrows(CpuEntryList(cpus[..uid]), LapicEntry(uid, cpus[uid]));
      FlatGrows(CpuEntryList(cpus[..uid]) + [LapicEntry(uid, cpus[uid])], NmiEntry(uid));
    }
  }

  lemma {:induction false} CpuEntriesAreEntries(uid: nat, c: Cpu)
    requires uid < U32_LIMIT
    ensures IsEntry(LapicEntry(uid, c)) && IsEntry(NmiEntry(uid))
  {
    hide Le32;
  }

  lemma {:induction false} FlatGrows(l: seq<seq<byte>>, x: seq<byte>)
    ensures Flat(l + [x]) == Flat(l) + x
  {
    assert (l + [x])[..|l|] == l;
  }

  lemma {:induction false} IoApicsAreEntries(children: seq<Node>)
    requires Blocks(IoApics, children).Some?
    ensures AllEntries(Blocks(IoApics, children).value)
  {
    hide Le32, IsEntry, BlockOf, Wants;
    if children != [] {
      var (front, n) := (children[..|children| - 1], children[|children| - 1]);
      IoApicsAreEntries(front);
      if Wants(IoApics, n).value { IoApicIsEntry(n, NextIndex(IoApics, Blocks(IoApics, front).value)); }
    }
  }

  lemma {:induction false} IoApicIsEntry(n: Node, index: byte)
    requires BlockOf(IoApics, n, index).Some?
    ensures IsEntry(BlockOf(IoApics, n, index).value)
  {
    hide Le32;
  }

  /** The MADT reads back as a local-APIC and an NMI entry a processor, then one entry an IOAPIC. */
  lemma {:induction false} MadtParses(lapic: u32, cpus: seq<Cpu>, children: seq<Node>)
    requires |cpus| <= U32_LIMIT && Blocks(IoApics, children).Some?
    ensures
      var ioapics := Blocks(IoApics, children).value;
      Entries(MadtBody(lapic, cpus, ioapics)[8..]) == Some(CpuEntryList(cpus) + ioapics)
  {
    hide Entries, Flat, Blocks, CpuEntries, CpuEntryList, MadtFixed, IsEntry;
    var ioapics := Blocks(IoApics, children).value;
    CpuEntriesAreFlat(cpus);
    IoApicsAreEntries(children);
    var l := CpuEntryList(cpus) + ioapics;
    FlatJoin(CpuEntryList(cpus), ioapics);
    ReadAll(l);
    assert MadtBody(lapic, cpus, ioapics)[8..] == Flat(l);
  }

  lemma {:induction false} ReadAll(l: seq<seq<byte>>)
    requires AllEntries(l)
    ensures Entries(Flat(l)) == Some(l)
  {
    hide IsEntry;
    EntriesOfFlat(l, []);
    assert Flat(l) + [] == Flat(l) && l + [] == l;
  }

  // ---- SRAT ----

  function AffinityList(cpus: seq<Cpu>): (l: seq<seq<byte>>)
    requires AllTagged(cpus)
  {
    if cpus == [] then [] else AffinityList(cpus[..|cpus| - 1]) + [CpuAffinity(cpus[|cpus| - 1])]
  }

  lemma {:induction false} AffinitiesAreFlat(cpus: seq<Cpu>)
    requires AllTagged(cpus)
    ensures Flat(AffinityList(cpus)) == Affinities(cpus) && AllEntries(AffinityList(cpus))
  {
    hide CpuAffinity, IsEntry;
    if cpus != [] {
      var n := |cpus| - 1;
      AffinitiesAreFlat(cpus[..n]);
      AffinityIsEntry(cpus[n]);
      FlatGrows(AffinityList(cpus[..n]), CpuAffinity(cpus[n]));
    }
  }

  lemma {:induction false} AffinityIsEntry(c: Cpu)
    requires c.tag.Some?
    ensures IsEntry(CpuAffinity(c))
  {
    hide Le32;
  }

  /** One entry a region of a memory node. */
  function RegionList(pd: u32, flags: u32, regions: seq<(u64, u64)>): (l: seq<seq<byte>>)
    ensures |l| == |regions|
  {
    if regions == [] then []
    else RegionList(pd, flags, regions[..|regions| - 1]) + [MemoryEntry(pd, regions[|regions| - 1].0, regions[|regions| - 1].1, flags)]
  }

  function NodeRegions(n: Node): seq<seq<byte>>
    requires MemoryFits(n)
  {
    RegionList(n.numaNode.value.value, MemoryFlags(n.status.value, n.hotpluggable), n.reg.value)
  }

  /** The entries of every memory node, in tree order. */
  function MemoryList(children: seq<Node>): (l: seq<seq<byte>>) {
    if children == [] then [] else
      var n := children[|children| - 1];
      MemoryList(children[..|children| - 1]) + if n.base == MemoryName && MemoryFits(n) then NodeRegions(n) else []
  }

  lemma {:induction false} RegionsAreFlat(pd: u32, flags: u32, regions: seq<(u64, u64)>)
    ensures Flat(RegionList(pd, flags, regions)) == MemoryEntries(pd, flags, regions) && AllEntries(RegionList(pd, flags, regions))
  {
    hide MemoryEntry, IsEntry;
    if regions != [] {
      var n := |regions| - 1;
      RegionsAreFlat(pd, flags, regions[..n]);
      RegionIsEntry(pd, regions[n].0, regions[n].1, flags);
      FlatGrows(RegionList(pd, flags, regions[..n]), MemoryEntry(pd, regions[n].0, regions[n].1, flags));
    }
  }

  lemma {:induction false} RegionIsEntry(pd: u32, base: u64, length: u64, flags: u32)
    ensures IsEntry(MemoryEntry(pd, base, length, flags))
  {
    hide Le16, Le32, Le64;
  }

  lemma {:induction false} MemoryIsFlat(children: seq<Node>)
    requires Blocks(MemoryRegions, children).Some?
    ensures Flat(MemoryList(children)) == Flat(Blocks(MemoryRegions, children).value) && AllEntries(MemoryList(children))
  {
    hide RegionList, MemoryEntries, IsEntry;
    if children != [] {
      var (front, n) := (children[..|children| - 1], children[|children| - 1]);
      MemoryIsFlat(front);
      if n.base == MemoryName {
        RegionsAreFlat(n.numaNode.value.value, MemoryFlags(n.status.value, n.hotpluggable), n.reg.value);
        FlatJoin(MemoryList(front), NodeRegions(n));
        FlatGrows(Blocks(MemoryRegions, front).value, MemoryBlock(n));
      } else {
        assert MemoryList(front) + [] == MemoryList(front);
      }
    }
  }

  /** The SRAT reads back as one affinity entry a processor, then one a memory region. */
  lemma {:induction false} SratParses(cpus: seq<Cpu>, children: seq<Node>)
    requires AllTagged(cpus) && Blocks(MemoryRegions, children).Some?
    ensures Entries(SratBody(cpus, Blocks(MemoryRegions, children).value)[12..]) == Some(AffinityList(cpus) + MemoryList(children))
  {
    hide Entries, Flat, Blocks, Affinities, AffinityList, MemoryList, SratFixed, IsEntry, AllTagged;
    AffinitiesAreFlat(cpus);
    MemoryIsFlat(children);
    FlatJoin(AffinityList(cpus), MemoryList(children));
    ReadAll(AffinityList(cpus) + MemoryList(children));
    assert SratBody(cpus, Blocks(MemoryRegions, children).value)[12..] == Flat(AffinityList(cpus) + MemoryList(children));
  }

  // ---- the fields of the processor entries ----

  /** The identifiers and enable bits an operating system reads for a processor. */
  lemma {:induction false} LapicFields(uid: u32, c: Cpu)
    ensures
      var e := LapicEntry(uid, c);
      if |e| == 8 then e[0] == 0 && e[2] == uid && e[3] == c.apic && LeValue(e[4..8]) == LapicFlags(c.status)
      else e[0] == 9 && LeValue(e[4..8]) == c.apic && LeValue(e[8..12]) == LapicFlags(c.status) && LeValue(e[12..16]) == uid
  {
    hide Le32, LeValue;
    FixedWidthRoundTrip(uid);
    FixedWidthRoundTrip(c.apic);
    FixedWidthRoundTrip(LapicFlags(c.status));
    var e := LapicEntry(uid, c);
    if |e| == 8 {
      assert e[4..8] == Le32(LapicFlags(c.status));
    } else {
      assert e[4..8] == Le32(c.apic) && e[8..12] == Le32(LapicFlags(c.status)) && e[12..16] == Le32(uid);
    }
  }

  lemma {:induction false} IoApicFields(n: Node, id: byte)
    requires IntcFits(n)
    ensures
      var e := IoApicEntry(n, id);
      e[0] == 1 && e[2] == id && LeValue(e[4..8]) == FirstReg(n).value.0 && LeValue(e[8..12]) == IOAPIC_GSI_STRIDE * id
  {
    hide Le32, LeValue;
    FixedWidthRoundTrip(FirstReg(n).value.0);
    FixedWidthRoundTrip(IOAPIC_GSI_STRIDE * id);
    var e := IoApicEntry(n, id);
    assert e[4..8] == Le32(FirstReg(n).value.0) && e[8..12] == Le32(IOAPIC_GSI_STRIDE * id);
  }

  /** The domain is split over bytes 2 and 9 to 11 in the short form. */
  lemma {:induction false} AffinityFields(c: Cpu)
    requires c.tag.Some?
    ensures
      var e := CpuAffinity(c);
      if |e| == 16
      then e[0] == 0 && LeValue([e[2]] + e[9..12]) == c.tag.value && e[3] == c.apic && LeValue(e[4..8]) == AffinityFlags(c.status)
      else e[0] == 2 && LeValue(e[4..8]) == c.tag.value && LeValue(e[8..12]) == c.apic && LeValue(e[12..16]) == AffinityFlags(c.status)
  {
    hide Le32, LeValue;
    var pd := Le32(c.tag.value);
    FixedWidthRoundTrip(c.tag.value);
    FixedWidthRoundTrip(c.apic);
    FixedWidthRoundTrip(AffinityFlags(c.status));
    var e := CpuAffinity(c);
    if |e| == 16 {
      assert [e[2]] + e[9..12] == pd && e[4..8] == Le32(AffinityFlags(c.status));
    } else {
      assert e[4..8] == pd && e[8..12] == Le32(c.apic) && e[12..16] == Le32(AffinityFlags(c.status));
    }
  }

  lemma {:induction false} EcamFields(n: Node)
    requires EcamFits(n)
    ensures
      var e := EcamEntry(n);
      LeValue(e[0..8]) == FirstReg(n).value.0 && e[10] == n.busRange.value.0 && e[11] == n.busRange.value.1
  {
    hide Le16, Le32, Le64, LeValue;
    FixedWidthRoundTrip(FirstReg(n).value.0);
    assert EcamEntry(n)[0..8] == Le64(FirstReg(n).value.0);
  }
}
