/** Assembling the image: the planned regions as PE sections, apart in guest memory. */
module Assembly {
  import opened Outcomes
  import opened Words
  import Planner
  import PlannerSafety
  import opened Pe

  /** A section of the firmware ELF, linked at a fixed guest address. */
  datatype TatuSection = TatuSection(name: seq<byte>, vaddr: u64, data: seq<byte>, virtualSize: u64,
                                     nobits: bool, bootinfo: bool, dtb: bool, characteristics: u32)

  datatype DtbMode = Attached | Detached | Optional

  /** The byte payloads of one build. */
  datatype Payloads = Payloads(bootinfo: seq<byte>, kernel: seq<byte>, initrd: Option<seq<byte>>, relocs: seq<byte>,
                               dtb: seq<byte>, manifest: seq<byte>, mode: DtbMode)

  const LINUX: seq<byte> := [0x2E, 0x6C, 0x69, 0x6E, 0x75, 0x78]
  const INITRD: seq<byte> := [0x2E, 0x69, 0x6E, 0x69, 0x74, 0x72, 0x64]
  const BCONF: seq<byte> := [0x2E, 0x62, 0x63, 0x6F, 0x6E, 0x66]
  const RELOCS: seq<byte> := LINUX + [0x2E, 0x72, 0x65, 0x6C, 0x6F, 0x63, 0x73]
  const DTB_FALLBACK: seq<byte> := [0x2E, 0x64, 0x74, 0x62]
  const PMI_VM: seq<byte> := [0x2E, 0x70, 0x6D, 0x69, 0x2E, 0x76, 0x6D]
  const INITIALIZED: u32 := 0x4000_0040
  const UNINITIALIZED: u32 := 0x4000_0080
  const DISCARDABLE: u32 := 0x4200_0040

  function TatuData(s: TatuSection, x: Payloads): seq<byte> {
    if s.bootinfo then x.bootinfo
    else if s.dtb && x.mode.Attached? then x.dtb
    else if s.dtb || s.nobits then []
    else s.data
  }

  function OfTatu(s: TatuSection, x: Payloads): Section {
    Section(s.name, s.vaddr, s.virtualSize, TatuData(s, x), s.characteristics, false)
  }

  function OfTatus(tatu: seq<TatuSection>, x: Payloads): (ss: seq<Section>)
    ensures |ss| == |tatu|
  {
    if tatu == [] then [] else OfTatus(tatu[..|tatu| - 1], x) + [OfTatu(tatu[|tatu| - 1], x)]
  }

  function Placed(name: seq<byte>, r: Planner.Range, data: seq<byte>, flags: u32): Section
    requires r.start <= r.end
  {
    Section(name, r.start, r.end - r.start, data, flags, false)
  }

  function Carried(name: seq<byte>, data: seq<byte>): Section
    requires |data| < U64_LIMIT
  {
    Section(name, 0, |data|, data, DISCARDABLE, true)
  }

  predicate Ordered(l: Planner.Layout) {
    && l.linux.start <= l.linux.end && (l.initrd.Some? ==> l.initrd.value.start <= l.initrd.value.end)
    && (l.bootconfig.Some? ==> l.bootconfig.value.start <= l.bootconfig.value.end)
    && (l.relocs.Some? ==> l.relocs.value.start <= l.relocs.value.end)
  }

  predicate Storable(x: Payloads) { |x.dtb| < U64_LIMIT && |x.manifest| < U64_LIMIT }

  function Add(ss: seq<Section>, s: Option<Section>): seq<Section> {
    if s.Some? then ss + [s.value] else ss
  }

  function Fallback(x: Payloads): Option<Section>
    requires Storable(x)
  {
    if x.mode.Optional? then Some(Carried(DTB_FALLBACK, x.dtb)) else None
  }

  function Linux(l: Planner.Layout, x: Payloads): Section
    requires Ordered(l)
  {
    Placed(LINUX, l.linux, x.kernel, INITIALIZED)
  }

  function Initrd(l: Planner.Layout, x: Payloads): Option<Section>
    requires Ordered(l)
  {
    if x.initrd.Some? && l.initrd.Some? then Some(Placed(INITRD, l.initrd.value, x.initrd.value, INITIALIZED)) else None
  }

  function Bootconfig(l: Planner.Layout): Option<Section>
    requires Ordered(l)
  {
    if l.bootconfig.Some? then Some(Placed(BCONF, l.bootconfig.value, [], UNINITIALIZED)) else None
  }

  function Relocs(l: Planner.Layout, x: Payloads): Option<Section>
    requires Ordered(l)
  {
    if l.relocs.Some? then Some(Placed(RELOCS, l.relocs.value, x.relocs, INITIALIZED)) else None
  }

  /** The sections that a layout and its payloads call for, in file order. */
  function Assembled(tatu: seq<TatuSection>, l: Planner.Layout, x: Payloads): seq<Section>
    requires Ordered(l) && Storable(x)
  {
    Add(Add(Add(Add(OfTatus(tatu, x), Fallback(x)) + [Linux(l, x)], Initrd(l, x)), Bootconfig(l)), Relocs(l, x)) + [Carried(PMI_VM, x.manifest)]
  }

  method AssembleSections(tatu: seq<TatuSection>, l: Planner.Layout, x: Payloads) returns (out: seq<Section>)
    requires Ordered(l) && Storable(x)
    ensures out == Assembled(tatu, l, x)
  {
    out := [];
    hide OfTatu;
    for i := 0 to |tatu|
      invariant out == OfTatus(tatu[..i], x)
    {
      assert tatu[..i + 1][..i] == tatu[..i];
      out := out + [OfTatu(tatu[i], x)];
    }
    assert tatu[..|tatu|] == tatu;
    hide OfTatus, Placed, Carried;
    if x.mode.Optional? { out := out + [Carried(DTB_FALLBACK, x.dtb)]; }
    out := out + [Placed(LINUX, l.linux, x.kernel, INITIALIZED)];
    if x.initrd.Some? && l.initrd.Some? { out := out + [Placed(INITRD, l.initrd.value, x.initrd.value, INITIALIZED)]; }
    if l.bootconfig.Some? { out := out + [Placed(BCONF, l.bootconfig.value, [], UNINITIALIZED)]; }
    if l.relocs.Some? { out := out + [Placed(RELOCS, l.relocs.value, x.relocs, INITIALIZED)]; }
    out := out + [Carried(PMI_VM, x.manifest)];
  }

  // ---- guest memory ----

  function End(s: Section): nat { s.vaddr + HeaderVirtualSize(s) }

  /** Some byte of guest memory belongs to both sections as their headers state them. */
  predicate Overlap(s: Section, t: Section) {
    !s.nonLoaded && !t.nonLoaded && s.vaddr < End(t) && t.vaddr < End(s) && s.vaddr < End(s) && t.vaddr < End(t)
  }

  /** The section starts on a page inside its range and its data fits the range. */
  predicate Housed(s: Section, h: Planner.Range) {
    !s.nonLoaded && s.vaddr == h.start && s.vaddr % 0x1000 == 0 && s.vaddr + s.virtualSize == h.end && |s.data| <= s.virtualSize
  }

  /** Raising VirtualSize to the padded file size stays within the range's 2 MiB units. */
  lemma {:induction false} RaisedStaysInUnits(s: Section, h: Planner.Range)
    requires Housed(s, h)
    ensures AlignDown(h.start, Planner.GRAN) <= s.vaddr && End(s) <= AlignUp(h.end, Planner.GRAN)
  {
    AlignDownIsGreatest(h.start, Planner.GRAN);
    AlignUpIsLeast(h.end, Planner.GRAN);
    if !s.IsZeroShape() {
      AlignUpIsLeast(|s.data|, FILE_ALIGNMENT);
      var up := AlignUp(h.end, Planner.GRAN);
      PageSum(s.vaddr, up);
      assert |s.data| <= up - s.vaddr;
      hide AlignUp, AlignDown;
    }
  }

  lemma {:induction false} PageSum(a: nat, b: nat)
    requires a % 0x1000 == 0 && b % Planner.GRAN == 0 && a <= b
    ensures (b - a) % 0x1000 == 0
  {}

  lemma {:induction false} UnitsApart(s: Section, h: Planner.Range, t: Section, g: Planner.Range)
    requires Housed(s, h) && Housed(t, g) && (!PlannerSafety.ShareUnit(h, g) || !PlannerSafety.ShareUnit(g, h))
    ensures !Overlap(s, t)
  {
    RaisedStaysInUnits(s, h);
    RaisedStaysInUnits(t, g);
    hide AlignUp, AlignDown, HeaderVirtualSize;
  }

  /** Every loaded section has one of the ranges as its home; no section from `n` on overlaps another. */
  ghost predicate Settled(ss: seq<Section>, homes: seq<Planner.Range>, n: nat) {
    && (forall s :: s in ss && !s.nonLoaded ==> exists h :: h in homes && Housed(s, h))
    && (forall i, j :: 0 <= i < j < |ss| && n <= j ==> !Overlap(ss[i], ss[j]))
  }

  lemma {:induction false} SettleOne(ss: seq<Section>, homes: seq<Planner.Range>, n: nat, s: Section, h: Planner.Range)
    requires Settled(ss, homes, n) && Housed(s, h)
    requires forall g :: g in homes ==> !PlannerSafety.ShareUnit(g, h)
    ensures Settled(ss + [s], homes + [h], n)
  {
    hide Housed, PlannerSafety.ShareUnit;
    assert HousedLoaded(s) by { HousedIsLoaded(s, h); }
    assert forall g :: g in homes + [h] <==> g in homes || g == h;
    forall i | 0 <= i < |ss| ensures !Overlap(ss[i], s) {
      assert ss[i] in ss;
      if !ss[i].nonLoaded {
        var g :| g in homes && Housed(ss[i], g);
        UnitsApart(ss[i], g, s, h);
      }
    }
    hide Overlap;
  }

  predicate HousedLoaded(s: Section) { !s.nonLoaded }

  lemma {:induction false} HousedIsLoaded(s: Section, h: Planner.Range)
    requires Housed(s, h)
    ensures HousedLoaded(s)
  {}

  lemma {:induction false} SettleCarried(ss: seq<Section>, homes: seq<Planner.Range>, n: nat, s: Section)
    requires Settled(ss, homes, n) && s.nonLoaded
    ensures Settled(ss + [s], homes, n)
  {}

  lemma {:induction false} SettleMaybe(ss: seq<Section>, homes: seq<Planner.Range>, n: nat, s: Option<Section>, h: Option<Planner.Range>)
    requires Settled(ss, homes, n)
    requires s.Some? ==> h.Some? && Housed(s.value, h.value) && forall g :: g in homes ==> !PlannerSafety.ShareUnit(g, h.value)
    ensures Settled(Add(ss, s), homes + PlannerSafety.Just(h), n)
  {
    if s.Some? {
      SettleOne(ss, homes, n, s.value, h.value);
    } else {
      assert forall g :: g in homes ==> g in homes + PlannerSafety.Just(h);
      hide Housed, Overlap;
    }
  }

  // ---- the planner's side ----

  function TatuRange(s: TatuSection): Planner.Range
    requires s.vaddr + s.virtualSize < U64_LIMIT
  {
    Planner.Range(s.vaddr, s.vaddr + s.virtualSize)
  }

  /** The firmware's sections start on pages, hold their data and are reserved. */
  ghost predicate TatuReserved(tatu: seq<TatuSection>, p: Planner.Plan, x: Payloads) {
    forall s :: s in tatu ==>
      && s.vaddr % 0x1000 == 0 && s.vaddr + s.virtualSize < U64_LIMIT
      && TatuRange(s) in p.reserved && |TatuData(s, x)| <= s.virtualSize
  }

  /** The payloads have the sizes the plan was made for. */
  predicate SizesMatch(p: Planner.Plan, x: Payloads) {
    && Storable(x) && |x.kernel| <= p.kernel.size
    && (x.initrd.Some? ==> p.initrdSize == Some(|x.initrd.value|))
    && (p.relocsSize.Some? ==> |x.relocs| <= p.relocsSize.value)
  }

  /** The planned ranges of kernel, archive, fill and relocations. */
  predicate Shaped(p: Planner.Plan, l: Planner.Layout) {
    && Ordered(l)
    && l.linux.start % Planner.GRAN == 0 && l.linux.end == l.linux.start + p.kernel.size
    && (l.initrd.Some? ==> p.initrdSize.Some? && l.initrd.value.start + p.initrdSize.value <= l.initrd.value.end)
    && (l.initrd.Some? ==> l.initrd.value.start % Planner.GRAN == 0 && l.initrd.value.end % Planner.GRAN == 0)
    && (l.bootconfig.Some? ==> l.initrd.Some? && l.bootconfig.value.start == l.initrd.value.end && l.bootconfig.value.end == l.initrd.value.end + Planner.GRAN)
    && (l.relocs.Some? ==> p.relocsSize.Some? && l.relocs.value.start % Planner.GRAN == 0 && l.relocs.value.end == l.relocs.value.start + p.relocsSize.value)
  }

  lemma {:induction false} PlannedShape(p: Planner.Plan, l: Planner.Layout)
    requires Planner.Accepts(p) && Planner.Planned(p, l)
    ensures Shaped(p, l)
  {
    Planner.KernelAlignIsPower(p);
    hide Planner.Lowest, Planner.WindowPlaced, Planner.BandFits, Planner.KernelAlign;
    PlannerSafety.LowestShape(Planner.Fixed(p, l), p.kernel.minGpa, p.kernel.size, Planner.KernelAlign(p), l.linux);
    MultipleOfMultiple(l.linux.start, Planner.KernelAlign(p), Planner.GRAN);
    if l.initrd.Some? {
      PlannerSafety.InitrdIsAligned(p, l);
      AlignUpIsLeast(p.initrdSize.value, Planner.GRAN);
    }
    if l.relocs.Some? {
      PlannerSafety.LowestShape(Planner.WithInitrd(p, l), 0, p.relocsSize.value, Planner.GRAN, l.relocs.value);
    }
    hide AlignUp;
  }

  /** The separation theorem, by region instead of by position. */
  ghost predicate RegionsClear(p: Planner.Plan, l: Planner.Layout) {
    var whole := Planner.Whole(l.initrd, l.bootconfig);
    && (forall r :: r in p.reserved ==> !PlannerSafety.ShareUnit(r, l.linux))
    && (forall r :: r in p.reserved && whole.Some? ==> !PlannerSafety.ShareUnit(r, whole.value))
    && (forall r :: r in p.reserved && l.relocs.Some? ==> !PlannerSafety.ShareUnit(r, l.relocs.value))
    && (whole.Some? ==> !PlannerSafety.ShareUnit(l.linux, whole.value))
    && (l.relocs.Some? ==> !PlannerSafety.ShareUnit(l.linux, l.relocs.value))
    && (whole.Some? && l.relocs.Some? ==> !PlannerSafety.ShareUnit(whole.value, l.relocs.value))
  }

  lemma {:induction false} RegionsApart(p: Planner.Plan, l: Planner.Layout)
    requires Planner.Accepts(p) && PlannerSafety.Separated(p, l)
    ensures RegionsClear(p, l)
  {
    PlannerSafety.SeparatedByStage(p, l);
    hide PlannerSafety.Separated, PlannerSafety.ShareUnit, PlannerSafety.Band, Planner.Whole, Planner.Accepts;
  }

  /** A part of a range shares units only where the whole does. */
  lemma {:induction false} PartShares(part: Planner.Range, whole: Planner.Range, r: Planner.Range)
    requires whole.start <= part.start && part.end <= whole.end
    ensures PlannerSafety.ShareUnit(r, part) ==> PlannerSafety.ShareUnit(r, whole)
    ensures PlannerSafety.ShareUnit(part, r) ==> PlannerSafety.ShareUnit(whole, r)
  {
    AlignDownIsGreatest(whole.start, Planner.GRAN);
    AlignDownIsGreatest(part.start, Planner.GRAN);
    AlignUpIsLeast(whole.end, Planner.GRAN);
    AlignUpIsLeast(part.end, Planner.GRAN);
    hide AlignDown, AlignUp;
  }

  lemma {:induction false} AdjacentDoNotShare(a: Planner.Range, b: Planner.Range)
    requires a.end % Planner.GRAN == 0 && b.start == a.end
    ensures !PlannerSafety.ShareUnit(a, b)
  {
    AlignUpIsLeast(a.end, Planner.GRAN);
    AlignDownIsGreatest(b.start, Planner.GRAN);
    hide AlignDown, AlignUp;
  }

  /** The homes of archive and fill against everything else. */
  lemma {:induction false} HomesApart(p: Planner.Plan, l: Planner.Layout)
    requires Shaped(p, l) && RegionsClear(p, l)
    ensures forall r :: r in p.reserved ==> !PlannerSafety.ShareUnit(r, l.linux)
    ensures l.initrd.Some? ==> forall r :: r in p.reserved + [l.linux] ==> !PlannerSafety.ShareUnit(r, l.initrd.value)
    ensures l.bootconfig.Some? ==> forall r :: r in p.reserved + [l.linux] + PlannerSafety.Just(l.initrd) ==> !PlannerSafety.ShareUnit(r, l.bootconfig.value)
    ensures l.relocs.Some? ==>
      var homes := p.reserved + [l.linux] + PlannerSafety.Just(l.initrd) + PlannerSafety.Just(l.bootconfig);
      forall r :: r in homes ==> !PlannerSafety.ShareUnit(r, l.relocs.value)
  {
    hide PlannerSafety.ShareUnit;
    if l.initrd.Some? {
      var whole := Planner.Whole(l.initrd, l.bootconfig).value;
      forall r: Planner.Range ensures PlannerSafety.ShareUnit(r, l.initrd.value) ==> PlannerSafety.ShareUnit(r, whole)
        ensures PlannerSafety.ShareUnit(l.initrd.value, r) ==> PlannerSafety.ShareUnit(whole, r)
      {
        PartShares(l.initrd.value, whole, r);
      }
      if l.bootconfig.Some? {
        AdjacentDoNotShare(l.initrd.value, l.bootconfig.value);
        forall r: Planner.Range ensures PlannerSafety.ShareUnit(r, l.bootconfig.value) ==> PlannerSafety.ShareUnit(r, whole)
          ensures PlannerSafety.ShareUnit(l.bootconfig.value, r) ==> PlannerSafety.ShareUnit(whole, r)
        {
          PartShares(l.bootconfig.value, whole, r);
        }
      }
    }
  }

  lemma {:induction false} TatuSettled(tatu: seq<TatuSection>, p: Planner.Plan, x: Payloads)
    requires TatuReserved(tatu, p, x)
    ensures Settled(OfTatus(tatu, x), p.reserved, |tatu|)
  {
    hide Housed, OfTatu, TatuReserved, Settled;
    if tatu == [] {
      NothingSettled(p.reserved);
    } else {
      var k := |tatu| - 1;
      TatuHoused(tatu, p, x);
      TatuSettled(tatu[..k], p, x);
      SettleFirmware(OfTatus(tatu[..k], x), p.reserved, OfTatu(tatu[k], x), TatuRange(tatu[k]));
    }
  }

  lemma {:induction false} NothingSettled(homes: seq<Planner.Range>)
    ensures Settled([], homes, 0)
  {}

  lemma {:induction false} TatuHoused(tatu: seq<TatuSection>, p: Planner.Plan, x: Payloads)
    requires TatuReserved(tatu, p, x) && tatu != []
    ensures TatuReserved(tatu[..|tatu| - 1], p, x)
    ensures var s := tatu[|tatu| - 1];
      s.vaddr + s.virtualSize < U64_LIMIT && TatuRange(s) in p.reserved && Housed(OfTatu(s, x), TatuRange(s))
  {
    assert forall s :: s in tatu[..|tatu| - 1] ==> s in tatu;
    assert tatu[|tatu| - 1] in tatu;
    hide TatuData;
  }

  /** One more firmware section: it need not be apart from the others, only at home. */
  lemma {:induction false} SettleFirmware(ss: seq<Section>, homes: seq<Planner.Range>, s: Section, h: Planner.Range)
    requires Settled(ss, homes, |ss|) && h in homes && Housed(s, h)
    ensures Settled(ss + [s], homes, |ss| + 1)
  {
    hide Housed, Overlap;
  }

  /** After the writer raises VirtualSize to the padded file size, the sections of separated regions
      are pairwise disjoint in guest memory and clear of every firmware section. */
  lemma {:induction false} SeparatedSections(tatu: seq<TatuSection>, p: Planner.Plan, l: Planner.Layout, x: Payloads)
    requires Planner.Accepts(p) && Planner.Planned(p, l) && PlannerSafety.Separated(p, l)
    requires TatuReserved(tatu, p, x) && SizesMatch(p, x)
    ensures Ordered(l)
    ensures
      var ss := Assembled(tatu, l, x);
      forall i, j :: 0 <= i < j < |ss| && |tatu| <= j ==> !Overlap(ss[i], ss[j])
  {
    PlannedShape(p, l);
    RegionsApart(p, l);
    HomesApart(p, l);
    TatuSettled(tatu, p, x);
    SectionsAreHoused(p, l, x);
    hide Planner.Accepts, Planner.Planned, PlannerSafety.Separated, PlannerSafety.ShareUnit, Settled, TatuReserved, OfTatus, Overlap,
      SizesMatch, Linux, Initrd, Bootconfig, Relocs, Add, Housed, Ordered, Carried, Storable;
    var n := |tatu|;
    var ss, homes := OfTatus(tatu, x), p.reserved;
    CarryFallback(ss, homes, n, x);
    ss := Add(ss, Fallback(x));
    SettleOne(ss, homes, n, Linux(l, x), l.linux);
    ss, homes := ss + [Linux(l, x)], homes + [l.linux];
    SettleMaybe(ss, homes, n, Initrd(l, x), l.initrd);
    ss, homes := Add(ss, Initrd(l, x)), homes + PlannerSafety.Just(l.initrd);
    SettleMaybe(ss, homes, n, Bootconfig(l), l.bootconfig);
    ss, homes := Add(ss, Bootconfig(l)), homes + PlannerSafety.Just(l.bootconfig);
    SettleMaybe(ss, homes, n, Relocs(l, x), l.relocs);
    ss, homes := Add(ss, Relocs(l, x)), homes + PlannerSafety.Just(l.relocs);
    SettleManifest(ss, homes, n, x);
  }

  /** For every plan with room, a condition on the inputs, kernel, archive, fill and relocation
      sections are pairwise disjoint in guest memory and clear of every firmware section. */
  lemma {:induction false} SectionsStayApart(tatu: seq<TatuSection>, p: Planner.Plan, l: Planner.Layout, x: Payloads)
    requires Planner.Accepts(p) && Planner.Planned(p, l) && PlannerSafety.Roomy(p)
    requires TatuReserved(tatu, p, x) && SizesMatch(p, x)
    ensures Ordered(l)
    ensures
      var ss := Assembled(tatu, l, x);
      forall i, j :: 0 <= i < j < |ss| && |tatu| <= j ==> !Overlap(ss[i], ss[j])
  {
    hide Planner.Planned, PlannerSafety.Separated, PlannerSafety.WhollySeparated, TatuReserved, Assembled, Overlap, SizesMatch, Ordered;
    PlannerSafety.PlanIsSeparated(p, l);
    SeparatedSections(tatu, p, l, x);
  }

  lemma {:induction false} CarryFallback(ss: seq<Section>, homes: seq<Planner.Range>, n: nat, x: Payloads)
    requires Settled(ss, homes, n) && Storable(x)
    ensures Settled(Add(ss, Fallback(x)), homes, n)
  {
    if x.mode.Optional? { SettleCarried(ss, homes, n, Carried(DTB_FALLBACK, x.dtb)); }
    hide Settled;
  }

  lemma {:induction false} SettleManifest(ss: seq<Section>, homes: seq<Planner.Range>, n: nat, x: Payloads)
    requires Settled(ss, homes, n) && Storable(x)
    ensures
      var all := ss + [Carried(PMI_VM, x.manifest)];
      forall i, j :: 0 <= i < j < |all| && n <= j ==> !Overlap(all[i], all[j])
  {
    SettleCarried(ss, homes, n, Carried(PMI_VM, x.manifest));
  }

  lemma {:induction false} PlacedIsHoused(name: seq<byte>, r: Planner.Range, data: seq<byte>, flags: u32)
    requires r.start <= r.end && r.start % Planner.GRAN == 0 && r.start + |data| <= r.end
    ensures Housed(Placed(name, r, data, flags), r)
  {
    UnitIsPaged(r.start);
  }

  lemma {:induction false} UnitIsPaged(v: nat)
    requires v % Planner.GRAN == 0
    ensures v % 0x1000 == 0
  {}

  lemma {:induction false} SectionsAreHoused(p: Planner.Plan, l: Planner.Layout, x: Payloads)
    requires Shaped(p, l) && SizesMatch(p, x)
    ensures Ordered(l) && Storable(x) && Housed(Linux(l, x), l.linux)
    ensures Initrd(l, x).Some? ==> l.initrd.Some? && Housed(Initrd(l, x).value, l.initrd.value)
    ensures Bootconfig(l).Some? ==> l.bootconfig.Some? && Housed(Bootconfig(l).value, l.bootconfig.value)
    ensures Relocs(l, x).Some? ==> l.relocs.Some? && Housed(Relocs(l, x).value, l.relocs.value)
  {
    hide Housed, Placed;
    PlacedIsHoused(LINUX, l.linux, x.kernel, INITIALIZED);
    if Initrd(l, x).Some? { PlacedIsHoused(INITRD, l.initrd.value, x.initrd.value, INITIALIZED); }
    if Bootconfig(l).Some? { PlacedIsHoused(BCONF, l.bootconfig.value, [], UNINITIALIZED); }
    if Relocs(l, x).Some? { PlacedIsHoused(RELOCS, l.relocs.value, x.relocs, INITIALIZED); }
  }
}
