/** Guest-physical address planning: a first-fit allocator over 2 MiB units. */
module Planner {
  import opened Outcomes
  import opened Words

  type u64 = x: nat | x < U64_LIMIT
  type u32 = x: nat | x < U32_LIMIT

  const GRAN := 0x20_0000
  const SERIAL_SIZE := 0x1000
  const VIRTIO_SIZE := 0x200
  const ECAM_SIZE := 16 * 0x10_0000

  datatype Range = Range(start: u64, end: u64)

  datatype ArgsSpec = ArgsSpec(serial: bool, mmioSlots: u32, pciSlots: u32, windowBits: u32, addrSpaceBits: u32)
  datatype KernelSpec = KernelSpec(size: u64, align: u64, minGpa: u64)
  datatype Plan = Plan(args: ArgsSpec, reserved: seq<Range>, kernel: KernelSpec,
                       initrdSize: Option<u64>, bootconfig: bool, relocsSize: Option<u64>)
  datatype Layout = Layout(serial: Option<Range>, virtio: seq<Range>, ecam: Option<Range>, pciWindow: Option<Range>,
                           linux: Range, initrd: Option<Range>, bootconfig: Option<Range>, relocs: Option<Range>)
  datatype PlanError =
    | DoesNotFit(region: string, size: u64)
    | WindowTooLarge(windowBits: u32, addrSpaceBits: u32)
    | Overflow

  /** The two ranges have an address in common. */
  predicate Share(a: Range, b: Range) {
    a.start < a.end && b.start < b.end && a.start < b.end && b.start < a.end
  }

  // ---- first fit ----

  /** `[g, g + size)` runs into the nonempty range `r`. */
  predicate Conflicts(r: Range, g: nat, size: nat) {
    r.start < r.end && r.start < g + size && g < r.end
  }

  /** An aligned address at or above `start` where `size` bytes miss every occupied range. */
  ghost predicate Candidate(occupied: seq<Range>, start: nat, size: nat, align: nat, g: nat)
    requires align > 0
  {
    && g % align == 0 && start <= g && g + size < U64_LIMIT
    && forall r :: r in occupied ==> !Conflicts(r, g, size)
  }

  /** `r` is the lowest place for `size` bytes. */
  ghost predicate Lowest(occupied: seq<Range>, start: nat, size: nat, align: nat, r: Range)
    requires align > 0
  {
    && r.end == r.start + size
    && Candidate(occupied, start, size, align, r.start)
    && forall g: nat :: Candidate(occupied, start, size, align, g) ==> r.start <= g
  }

  /** No place at all for `size` bytes. */
  ghost predicate Full(occupied: seq<Range>, start: nat, size: nat, align: nat)
    requires align > 0
  {
    forall g: nat :: !Candidate(occupied, start, size, align, g)
  }

  function CheckedAlignUp(v: u64, a: u64): (r: Option<u64>)
    requires a > 0
  {
    if v + (a - 1) >= U64_LIMIT then None else
      assert AlignUp(v, a) <= v + (a - 1);
      Some(AlignUp(v, a))
  }

  /** Without a 64-bit aligned address at or above `v`, the checked addition overflows. */
  lemma {:induction false} AlignUpFails(v: u64, a: nat, m: nat)
    requires PowerOfTwo(a) && v + (a - 1) >= U64_LIMIT && m % a == 0 && v <= m
    ensures m >= U64_LIMIT
  {
    PowerDividesWord(a);
    if m < U64_LIMIT { MultiplesApart(a, m, U64_LIMIT); }
  }

  /** The nonempty ranges, ordered by start. */
  function SortedByStart(s: seq<Range>): (t: seq<Range>)
    ensures forall r :: r in t <==> r in s && r.start < r.end
    ensures forall i, j :: 0 <= i < j < |t| ==> t[i].start <= t[j].start
  {
    if s == [] then [] else
      var t := SortedByStart(s[..|s| - 1]);
      var r := s[|s| - 1];
      assert s == s[..|s| - 1] + [r];
      if r.start < r.end then InsertByStart(t, r) else t
  }

  function InsertByStart(t: seq<Range>, r: Range): (u: seq<Range>)
    requires forall i, j :: 0 <= i < j < |t| ==> t[i].start <= t[j].start
    ensures forall x :: x in u <==> x in t || x == r
    ensures forall i, j :: 0 <= i < j < |u| ==> u[i].start <= u[j].start
  {
    if t == [] || t[|t| - 1].start <= r.start then t + [r] else
      var u := InsertByStart(t[..|t| - 1], r);
      assert t == t[..|t| - 1] + [t[|t| - 1]];
      assert forall x :: x in u ==> x.start <= t[|t| - 1].start;
      u + [t[|t| - 1]]
  }

  method FindConflict(sorted: seq<Range>, g: u64, end: u64) returns (c: Option<Range>)
    requires g <= end && forall r :: r in sorted ==> r.start < r.end
    ensures c.Some? ==> c.value in sorted && Conflicts(c.value, g, end - g)
    ensures c.None? ==> forall r :: r in sorted ==> !Conflicts(r, g, end - g)
  {
    for i := 0 to |sorted|
      invariant forall k :: 0 <= k < i ==> !Conflicts(sorted[k], g, end - g)
    {
      if sorted[i].start < end && g < sorted[i].end { return Some(sorted[i]); }
    }
    return None;
  }

  /** Hopping past a conflict skips no candidate. */
  lemma {:induction false} HopSkipsNothing(occupied: seq<Range>, start: nat, size: nat, align: nat, g: nat, c: Range, m: nat)
    requires align > 0 && c in occupied && Conflicts(c, g, size) && g <= m
    requires Candidate(occupied, start, size, align, m)
    ensures c.end <= m
  {
    assert !Conflicts(c, m, size);
  }

  lemma {:induction false} OnlyByteAlignmentReachesTop(align: nat, g: nat)
    requires PowerOfTwo(align) && g % align == 0 && g == U64_LIMIT - 1
    ensures align == 1
  {
    PowerDividesWord(align);
    MultiplesApart(align, g, U64_LIMIT);
  }

  /** The lowest slot; failure means there is none, save for an empty region that only fits at the
      last byte of the address space. */
  method FirstFit(start: u64, size: u64, align: u64, occupied: seq<Range>, region: string)
    returns (r: Result<Range, PlanError>)
    requires PowerOfTwo(align)
    ensures r.Success? ==> Lowest(occupied, start, size, align, r.value)
    ensures r.Failure? <==> forall g: nat :: Candidate(occupied, start, size, align, g) ==>
      size == 0 && align == 1 && g == U64_LIMIT - 1 && start < U64_LIMIT - 1
    ensures r.Failure? && align > 1 ==> Full(occupied, start, size, align)
    ensures r.Failure? ==> !r.error.WindowTooLarge?
  {
    PowerDividesWord(align);
    hide PowerOfTwo;
    var sorted := SortedByStart(occupied);
    AlignUpIsLeast(start, align);
    var first := CheckedAlignUp(start, align);
    if first.None? {
      forall g: nat | Candidate(occupied, start, size, align, g) ensures false { AlignUpFails(start, align, g); }
      return Failure(Overflow);
    }
    var g := first.value;
    if g == U64_LIMIT - 1 { OnlyByteAlignmentReachesTop(align, g); }
    while true
      invariant g % align == 0 && start <= g
      invariant g == U64_LIMIT - 1 ==> start == U64_LIMIT - 1
      invariant forall m: nat :: Candidate(occupied, start, size, align, m) ==> g <= m
      decreases U64_LIMIT - g
    {
      if g + size >= U64_LIMIT { return Failure(Overflow); }
      var end := g + size;
      var conflict := FindConflict(sorted, g, end);
      if conflict.None? {
        assert Candidate(occupied, start, size, align, g);
        return Success(Range(g, end));
      }
      var c := conflict.value;
      forall m: nat | Candidate(occupied, start, size, align, m) ensures c.end <= m {
        HopSkipsNothing(occupied, start, size, align, g, c, m);
      }
      var next := CheckedAlignUp(c.end, align);
      if next.None? {
        forall m: nat | Candidate(occupied, start, size, align, m) ensures false { AlignUpFails(c.end, align, m); }
        return Failure(Overflow);
      }
      AlignUpIsLeast(c.end, align);
      g := next.value;
      if g == U64_LIMIT - 1 {
        OnlyByteAlignmentReachesTop(align, g);
        return Failure(DoesNotFit(region, size));
      }
    }
  }

  lemma {:induction false} LowestIsUnique(occupied: seq<Range>, start: nat, size: nat, align: nat, a: Range, b: Range)
    requires align > 0
    requires Lowest(occupied, start, size, align, a) && Lowest(occupied, start, size, align, b)
    ensures a == b
  {}

  // ---- the plan ----

  /** Rounds outward to whole 2 MiB units; the addition wraps at 64 bits. */
  function RoundOut(r: Range): (o: Range) {
    Range(AlignDown(r.start, GRAN), AlignDown((r.end + (GRAN - 1)) % U64_LIMIT, GRAN))
  }

  /** Rounding outward without wrap-around. */
  predicate Roundable(r: Range) { r.end + (GRAN - 1) < U64_LIMIT }

  /** What the callers of the planner guarantee: widths in range, and an alignment that is a power of two. */
  ghost predicate Accepts(p: Plan) {
    && PowerOfTwo(KernelAlign(p))
    && 22 <= p.args.addrSpaceBits <= 64
    && p.args.windowBits + 2 < U32_LIMIT
  }

  function BandSize(a: ArgsSpec): (n: nat) {
    var ecam := if a.pciSlots > 0 then ECAM_SIZE else 0;
    var serial := if a.serial then SERIAL_SIZE else 0;
    var size := ecam + serial + a.mmioSlots * VIRTIO_SIZE;
    if size == 0 then 0 else AlignUp(size, GRAN)
  }

  function Midpoint(a: ArgsSpec): (m: u64)
    requires 22 <= a.addrSpaceBits <= 64
    ensures m == Pow2(a.addrSpaceBits - 1) && m % GRAN == 0 && 0 < m <= 0x8000_0000_0000_0000
  {
    MidpointIsAligned(a.addrSpaceBits - 1);
    Pow2(a.addrSpaceBits - 1)
  }

  lemma {:induction false} MidpointIsAligned(k: nat)
    requires 21 <= k <= 63
    ensures Pow2(k) % GRAN == 0 && Pow2(k) <= 0x8000_0000_0000_0000
  {
    Pow2Of64();
    Pow2Split(21, k);
    MultipleHasNoRemainder(GRAN, Pow2(k - 21));
    Pow2Grows(k, 63);
  }

  lemma {:induction false} WindowEnds(a: nat, b: nat)
    requires 22 <= a <= 64 && b + 2 <= a
    ensures Pow2(a - 1) + Pow2(b) <= 0xC000_0000_0000_0000
  {
    Pow2Of64();
    Pow2Grows(a - 1, 63);
    Pow2Grows(b, 62);
    assert Pow2(63) == 2 * Pow2(62);
  }

  function Window(a: ArgsSpec): (w: Range)
    requires 22 <= a.addrSpaceBits <= 64 && a.windowBits + 2 <= a.addrSpaceBits
    ensures w.start == Pow2(a.addrSpaceBits - 1) && w.end == w.start + Pow2(a.windowBits) && Roundable(w)
  {
    WindowEnds(a.addrSpaceBits, a.windowBits);
    Range(Midpoint(a), Midpoint(a) + Pow2(a.windowBits))
  }

  function RoundAll(rs: seq<Range>): (s: seq<Range>)
    ensures |s| == |rs| && forall i :: 0 <= i < |rs| ==> s[i] == RoundOut(rs[i])
  {
    seq(|rs|, i requires 0 <= i < |rs| => RoundOut(rs[i]))
  }

  function Rounded(r: Option<Range>): seq<Range> {
    if r.Some? then [RoundOut(r.value)] else []
  }

  /** The archive padded to 2 MiB and the bootconfig fill, as one range. */
  function Whole(initrd: Option<Range>, bootconfig: Option<Range>): (r: Option<Range>) {
    if initrd.None? then None
    else if bootconfig.None? then initrd
    else Some(Range(initrd.value.start, bootconfig.value.end))
  }

  function RoundedPair(initrd: Option<Range>, bootconfig: Option<Range>): seq<Range> {
    Rounded(Whole(initrd, bootconfig))
  }

  function VirtioAt(base: nat, n: nat): (s: seq<Range>)
    requires base + n * VIRTIO_SIZE < U64_LIMIT
    ensures |s| == n
    ensures forall i :: 0 <= i < n ==> s[i].start == base + i * VIRTIO_SIZE && s[i].end == base + (i + 1) * VIRTIO_SIZE
  {
    seq(n, i requires 0 <= i < n => Range(base + i * VIRTIO_SIZE, base + (i + 1) * VIRTIO_SIZE))
  }

  /** The devices packed from `base`: ECAM, serial, then the virtio transports. */
  ghost predicate Carved(a: ArgsSpec, base: nat, serial: Option<Range>, virtio: seq<Range>, ecam: Option<Range>) {
    var e := base + if a.pciSlots > 0 then ECAM_SIZE else 0;
    var s := e + if a.serial then SERIAL_SIZE else 0;
    && s + a.mmioSlots * VIRTIO_SIZE < U64_LIMIT
    && ecam == (if a.pciSlots > 0 then Some(Range(base, e)) else None)
    && serial == (if a.serial then Some(Range(e, s)) else None)
    && virtio == VirtioAt(s, a.mmioSlots)
  }

  /** What the kernel, the initrd, the relocations and the band must each keep clear of. */
  ghost function Fixed(p: Plan, l: Layout): seq<Range> { RoundAll(p.reserved) + Rounded(l.pciWindow) }
  ghost function WithKernel(p: Plan, l: Layout): seq<Range> { Fixed(p, l) + [RoundOut(l.linux)] }
  ghost function WithInitrd(p: Plan, l: Layout): seq<Range> { WithKernel(p, l) + RoundedPair(l.initrd, l.bootconfig) }
  ghost function WithRelocs(p: Plan, l: Layout): seq<Range> { WithInitrd(p, l) + Rounded(l.relocs) }

  ghost predicate WindowPlaced(p: Plan, l: Layout)
    requires Accepts(p)
  {
    if p.args.pciSlots > 0 then
      p.args.windowBits + 2 <= p.args.addrSpaceBits && l.pciWindow == Some(Window(p.args))
    else l.pciWindow == None
  }

  function KernelAlign(p: Plan): (a: u64)
    ensures a >= GRAN
  {
    if p.kernel.align >= GRAN then p.kernel.align else GRAN
  }

  ghost predicate KernelPlaced(p: Plan, l: Layout) {
    Lowest(Fixed(p, l), p.kernel.minGpa, p.kernel.size, KernelAlign(p), l.linux)
  }

  /** Archive and fill together, in whole 2 MiB units. */
  function InitrdSpan(p: Plan): nat
    requires p.initrdSize.Some?
  {
    AlignUp(p.initrdSize.value, GRAN) + if p.bootconfig then GRAN else 0
  }

  ghost predicate InitrdFits(p: Plan, occupied: seq<Range>, initrd: Option<Range>, bootconfig: Option<Range>) {
    if p.initrdSize.Some? && p.initrdSize.value > 0 then
      && initrd.Some?
      && initrd.value.end == initrd.value.start + AlignUp(p.initrdSize.value, GRAN)
      && (if p.bootconfig
          then bootconfig.Some? && bootconfig.value.start == initrd.value.end
               && bootconfig.value.end == initrd.value.end + GRAN
          else bootconfig.None?)
      && Lowest(occupied, 0, InitrdSpan(p), GRAN, Whole(initrd, bootconfig).value)
    else initrd.None? && bootconfig.None?
  }

  ghost predicate RelocsFit(p: Plan, occupied: seq<Range>, relocs: Option<Range>) {
    if p.relocsSize.Some? && p.relocsSize.value > 0 then
      relocs.Some? && Lowest(occupied, 0, p.relocsSize.value, GRAN, relocs.value)
    else relocs.None?
  }

  ghost predicate BandFits(p: Plan, occupied: seq<Range>, serial: Option<Range>, virtio: seq<Range>, ecam: Option<Range>)
    requires Accepts(p)
  {
    if BandSize(p.args) > 0 then
      && BandSize(p.args) <= Midpoint(p.args)
      && (forall r :: r in occupied ==>
            !(r.start < Midpoint(p.args) && Midpoint(p.args) - BandSize(p.args) < r.end))
      && Carved(p.args, Midpoint(p.args) - BandSize(p.args), serial, virtio, ecam)
    else serial.None? && virtio == [] && ecam.None?
  }

  /** Every region in its place: the window at the midpoint, then the kernel, the initrd and the
      relocations each at the lowest slot left, then the band just below the midpoint. */
  ghost predicate Planned(p: Plan, l: Layout)
    requires Accepts(p)
  {
    && WindowPlaced(p, l) && KernelPlaced(p, l)
    && InitrdFits(p, WithKernel(p, l), l.initrd, l.bootconfig)
    && RelocsFit(p, WithInitrd(p, l), l.relocs)
    && BandFits(p, WithRelocs(p, l), l.serial, l.virtio, l.ecam)
  }

  lemma {:induction false} KernelAlignIsPower(p: Plan)
    requires Accepts(p)
    ensures PowerOfTwo(KernelAlign(p)) && KernelAlign(p) % GRAN == 0 && PowerOfTwo(GRAN)
  {
    Pow2Of64();
    assert PowerOfTwo(GRAN);
    PowersDivide(GRAN, KernelAlign(p));
  }

  method CarveBand(a: ArgsSpec, base: u64) returns (serial: Option<Range>, virtio: seq<Range>, ecam: Option<Range>)
    requires base + ECAM_SIZE + SERIAL_SIZE + a.mmioSlots * VIRTIO_SIZE < U64_LIMIT
    ensures Carved(a, base, serial, virtio, ecam)
  {
    var cur: u64 := base;
    ecam := None;
    if a.pciSlots > 0 {
      ecam := Some(Range(cur, cur + ECAM_SIZE));
      cur := cur + ECAM_SIZE;
    }
    serial := None;
    if a.serial {
      serial := Some(Range(cur, cur + SERIAL_SIZE));
      cur := cur + SERIAL_SIZE;
    }
    virtio := [];
    ghost var first := cur;
    for i := 0 to a.mmioSlots
      invariant cur == first + i * VIRTIO_SIZE
      invariant virtio == VirtioAt(first, i)
    {
      virtio := virtio + [Range(cur, cur + VIRTIO_SIZE)];
      cur := cur + VIRTIO_SIZE;
    }
  }

  method PlaceWindow(p: Plan) returns (r: Result<Option<Range>, PlanError>)
    requires Accepts(p)
    ensures r.Success? ==> forall l: Layout :: WindowPlaced(p, l) <==> l.pciWindow == r.value
    ensures r.Failure? ==> r.error.WindowTooLarge? && forall l :: !WindowPlaced(p, l)
    ensures r.Failure? <==> p.args.pciSlots > 0 && p.args.windowBits + 2 > p.args.addrSpaceBits
  {
    if p.args.pciSlots == 0 { return Success(None); }
    var a, b := p.args.addrSpaceBits, p.args.windowBits;
    if b + 2 > a { return Failure(WindowTooLarge(b, a)); }
    var base := Midpoint(p.args);
    WindowEnds(a, b);
    return Success(Some(Range(base, base + Pow2(b))));
  }

  method AnyTouches(occupied: seq<Range>, start: u64, end: u64) returns (b: bool)
    ensures b <==> exists r :: r in occupied && r.start < end && start < r.end
  {
    for i := 0 to |occupied|
      invariant forall k :: 0 <= k < i ==> !(occupied[k].start < end && start < occupied[k].end)
    {
      if occupied[i].start < end && start < occupied[i].end { return true; }
    }
    return false;
  }

  lemma {:induction false} BandHolds(a: ArgsSpec)
    ensures BandSize(a) > 0 ==> BandSize(a) >= (if a.pciSlots > 0 then ECAM_SIZE else 0) + (if a.serial then SERIAL_SIZE else 0) + a.mmioSlots * VIRTIO_SIZE
    ensures BandSize(a) % GRAN == 0 && BandSize(a) < 0x400_0000_0000
    ensures BandSize(a) == 0 <==> a.pciSlots == 0 && !a.serial && a.mmioSlots == 0
  {
    AlignUpIsLeast((if a.pciSlots > 0 then ECAM_SIZE else 0) + (if a.serial then SERIAL_SIZE else 0) + a.mmioSlots * VIRTIO_SIZE, GRAN);
  }

  // Each stage leaves every possible plan only one way to go on.

  ghost predicate FixedIs(p: Plan, window: Option<Range>, occupied: seq<Range>)
    requires Accepts(p)
  {
    forall l :: Planned(p, l) ==> l.pciWindow == window && Fixed(p, l) == occupied
  }

  ghost predicate KernelIs(p: Plan, linux: Range, occupied: seq<Range>)
    requires Accepts(p)
  {
    forall l :: Planned(p, l) ==> l.linux == linux && WithKernel(p, l) == occupied
  }

  ghost predicate InitrdIs(p: Plan, occupied: seq<Range>)
    requires Accepts(p)
  {
    forall l :: Planned(p, l) ==> WithInitrd(p, l) == occupied
  }

  ghost predicate RelocsAre(p: Plan, occupied: seq<Range>)
    requires Accepts(p)
  {
    forall l :: Planned(p, l) ==> WithRelocs(p, l) == occupied
  }

  ghost predicate NoPlan(p: Plan)
    requires Accepts(p)
  {
    forall l :: !Planned(p, l)
  }

  lemma {:induction false} DecideKernel(p: Plan, window: Option<Range>, occupied: seq<Range>, linux: Range)
    requires Accepts(p) && FixedIs(p, window, occupied)
    requires Lowest(occupied, p.kernel.minGpa, p.kernel.size, KernelAlign(p), linux)
    ensures KernelIs(p, linux, occupied + [RoundOut(linux)])
  {
    forall l | Planned(p, l) ensures l.linux == linux {
      LowestIsUnique(occupied, p.kernel.minGpa, p.kernel.size, KernelAlign(p), linux, l.linux);
    }
  }

  lemma {:induction false} DecideInitrd(p: Plan, linux: Range, occupied: seq<Range>, whole: Range)
    requires Accepts(p) && KernelIs(p, linux, occupied) && p.initrdSize.Some? && p.initrdSize.value > 0
    requires Lowest(occupied, 0, InitrdSpan(p), GRAN, whole)
    ensures InitrdIs(p, occupied + [RoundOut(whole)])
  {
    forall l | Planned(p, l) ensures WithInitrd(p, l) == occupied + [RoundOut(whole)] {
      LowestIsUnique(occupied, 0, InitrdSpan(p), GRAN, whole, Whole(l.initrd, l.bootconfig).value);
    }
  }

  lemma {:induction false} NoWindowNoPlan(p: Plan)
    requires Accepts(p) && p.args.pciSlots > 0 && p.args.windowBits + 2 > p.args.addrSpaceBits
    ensures NoPlan(p)
  {}

  lemma {:induction false} DecideWindow(p: Plan, window: Option<Range>)
    requires Accepts(p) && forall l: Layout :: WindowPlaced(p, l) <==> l.pciWindow == window
    ensures FixedIs(p, window, RoundAll(p.reserved) + Rounded(window))
  {}

  lemma {:induction false} NoKernelNoPlan(p: Plan, window: Option<Range>, occupied: seq<Range>)
    requires Accepts(p) && FixedIs(p, window, occupied)
    requires Full(occupied, p.kernel.minGpa, p.kernel.size, KernelAlign(p))
    ensures NoPlan(p)
  {}

  lemma {:induction false} NoInitrdNoPlan(p: Plan, linux: Range, occupied: seq<Range>)
    requires Accepts(p) && KernelIs(p, linux, occupied) && p.initrdSize.Some? && p.initrdSize.value > 0
    requires Full(occupied, 0, InitrdSpan(p), GRAN)
    ensures NoPlan(p)
  {}

  lemma {:induction false} AllPlaced(p: Plan, l: Layout, occupied: seq<Range>, withKernel: seq<Range>, withInitrd: seq<Range>)
    requires Accepts(p) && WindowPlaced(p, l)
    requires occupied == RoundAll(p.reserved) + Rounded(l.pciWindow)
    requires Lowest(occupied, p.kernel.minGpa, p.kernel.size, KernelAlign(p), l.linux)
    requires withKernel == occupied + [RoundOut(l.linux)] && InitrdFits(p, withKernel, l.initrd, l.bootconfig)
    requires withInitrd == withKernel + RoundedPair(l.initrd, l.bootconfig) && RelocsFit(p, withInitrd, l.relocs)
    requires BandFits(p, withInitrd + Rounded(l.relocs), l.serial, l.virtio, l.ecam)
    ensures Planned(p, l)
  {}

  method PlaceInitrd(p: Plan, linux: Range, occupied: seq<Range>)
    returns (r: Result<(Option<Range>, Option<Range>), PlanError>)
    requires Accepts(p) && KernelIs(p, linux, occupied)
    ensures r.Success? ==> InitrdFits(p, occupied, r.value.0, r.value.1)
    ensures r.Success? ==> InitrdIs(p, occupied + RoundedPair(r.value.0, r.value.1))
    ensures r.Failure? ==> NoPlan(p) && !r.error.WindowTooLarge?
  {
    if p.initrdSize.None? || p.initrdSize.value == 0 { return Success((None, None)); }
    hide PowerOfTwo, KernelIs, InitrdIs, NoPlan, Candidate;
    KernelAlignIsPower(p);
    var size := p.initrdSize.value;
    var padded := CheckedAlignUp(size, GRAN);
    AlignUpIsLeast(size, GRAN);
    if padded.None? {
      AlignUpFails(size, GRAN, AlignUp(size, GRAN));
      SpanTooLarge(p, occupied);
      NoInitrdNoPlan(p, linux, occupied);
      return Failure(Overflow);
    }
    var archiveSize := padded.value;
    var fillSize := if p.bootconfig then GRAN else 0;
    if archiveSize + fillSize >= U64_LIMIT {
      SpanTooLarge(p, occupied);
      NoInitrdNoPlan(p, linux, occupied);
      return Failure(Overflow);
    }
    var fit := FirstFit(0, archiveSize + fillSize, GRAN, occupied, "initrd + bootconfig");
    if fit.Failure? {
      NoInitrdNoPlan(p, linux, occupied);
      return Failure(fit.error);
    }
    var whole := fit.value;
    assert whole.end == whole.start + archiveSize + fillSize;
    var archiveEnd := whole.start + archiveSize;
    DecideInitrd(p, linux, occupied, whole);
    var initrd := Some(Range(whole.start, archiveEnd));
    var bootconfig := if p.bootconfig then Some(Range(archiveEnd, whole.end)) else None;
    assert RoundedPair(initrd, bootconfig) == [RoundOut(whole)];
    return Success((initrd, bootconfig));
  }

  lemma {:induction false} SpanTooLarge(p: Plan, occupied: seq<Range>)
    requires p.initrdSize.Some? && InitrdSpan(p) >= U64_LIMIT
    ensures Full(occupied, 0, InitrdSpan(p), GRAN)
  {}

  lemma {:induction false} DecideRelocs(p: Plan, occupied: seq<Range>, relocs: Range)
    requires Accepts(p) && InitrdIs(p, occupied) && p.relocsSize.Some? && p.relocsSize.value > 0
    requires Lowest(occupied, 0, p.relocsSize.value, GRAN, relocs)
    ensures RelocsAre(p, occupied + [RoundOut(relocs)])
  {
    forall l | Planned(p, l) ensures WithRelocs(p, l) == occupied + [RoundOut(relocs)] {
      LowestIsUnique(occupied, 0, p.relocsSize.value, GRAN, relocs, l.relocs.value);
    }
  }

  method PlaceRelocs(p: Plan, occupied: seq<Range>) returns (r: Result<Option<Range>, PlanError>)
    requires Accepts(p) && InitrdIs(p, occupied)
    ensures r.Success? ==> RelocsAre(p, occupied + Rounded(r.value))
    ensures r.Success? ==> RelocsFit(p, occupied, r.value)
    ensures r.Failure? ==> NoPlan(p) && !r.error.WindowTooLarge?
  {
    if p.relocsSize.None? || p.relocsSize.value == 0 { return Success(None); }
    KernelAlignIsPower(p);
    var fit := FirstFit(0, p.relocsSize.value, GRAN, occupied, "relocs");
    if fit.Failure? { return Failure(fit.error); }
    DecideRelocs(p, occupied, fit.value);
    return Success(Some(fit.value));
  }

  method PlaceBand(p: Plan, occupied: seq<Range>)
    returns (r: Result<(Option<Range>, seq<Range>, Option<Range>), PlanError>)
    requires Accepts(p) && RelocsAre(p, occupied)
    ensures r.Success? ==> BandFits(p, occupied, r.value.0, r.value.1, r.value.2)
    ensures r.Failure? ==> NoPlan(p) && !r.error.WindowTooLarge?
  {
    var size := BandSize(p.args);
    if size == 0 { return Success((None, [], None)); }
    BandHolds(p.args);
    var highFloor := Midpoint(p.args);
    if highFloor < size { return Failure(Overflow); }
    var touches := AnyTouches(occupied, highFloor - size, highFloor);
    if touches { return Failure(DoesNotFit("device band", size)); }
    var serial, virtio, ecam := CarveBand(p.args, highFloor - size);
    return Success((serial, virtio, ecam));
  }

  /** A plan succeeds exactly when every region has a place, and puts each in its place. */
  method MakePlan(p: Plan) returns (r: Result<Layout, PlanError>)
    requires Accepts(p)
    ensures r.Success? ==> Planned(p, r.value)
    ensures r.Failure? ==> NoPlan(p)
    ensures r.Failure? && r.error.WindowTooLarge? <==> p.args.pciSlots > 0 && p.args.windowBits + 2 > p.args.addrSpaceBits
  {
    KernelAlignIsPower(p);
    hide *;
    var window := PlaceWindow(p);
    if window.Failure? {
      NoWindowNoPlan(p);
      return Failure(window.error);
    }
    var pciWindow := window.value;
    var occupied := RoundAll(p.reserved) + Rounded(pciWindow);
    DecideWindow(p, pciWindow);

    var kernel := FirstFit(p.kernel.minGpa, p.kernel.size, KernelAlign(p), occupied, "kernel");
    if kernel.Failure? {
      NoKernelNoPlan(p, pciWindow, occupied);
      return Failure(kernel.error);
    }
    var linux := kernel.value;
    DecideKernel(p, pciWindow, occupied, linux);
    var withKernel := occupied + [RoundOut(linux)];

    var pair := PlaceInitrd(p, linux, withKernel);
    if pair.Failure? { return Failure(pair.error); }
    var (initrd, bootconfig) := pair.value;
    var withInitrd := withKernel + RoundedPair(initrd, bootconfig);

    var placed := PlaceRelocs(p, withInitrd);
    if placed.Failure? { return Failure(placed.error); }
    var relocs := placed.value;

    var band := PlaceBand(p, withInitrd + Rounded(relocs));
    if band.Failure? { return Failure(band.error); }
    var (serial, virtio, ecam) := band.value;
    var layout := Layout(serial, virtio, ecam, pciWindow, linux, initrd, bootconfig, relocs);
    AllPlaced(p, layout, occupied, withKernel, withInitrd);
    return Success(layout);
  }
}
