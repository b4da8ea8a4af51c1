/** What a plan guarantees: nothing it places shares a 2 MiB unit with anything else. */
module PlannerSafety {
  import opened Outcomes
  import opened Words
  import opened Planner

  ghost predicate Aligned(r: Range) { r.start % GRAN == 0 && r.end % GRAN == 0 }

  lemma {:induction false} RoundOutAligns(r: Range)
    ensures Aligned(RoundOut(r)) && RoundOut(r).start <= r.start && RoundOut(r).start == AlignDown(r.start, GRAN)
    ensures Roundable(r) ==> RoundOut(r).end == AlignUp(r.end, GRAN)
    ensures Roundable(r) ==> r.end <= RoundOut(r).end
    ensures Roundable(r) ==> forall m: nat :: m % GRAN == 0 && r.end <= m ==> RoundOut(r).end <= m
    ensures r.start % GRAN == 0 ==> RoundOut(r).start == r.start
  {
    AlignDownIsGreatest(r.start, GRAN);
    AlignDownIsGreatest((r.end + (GRAN - 1)) % U64_LIMIT, GRAN);
    if Roundable(r) {
      AlignUpIsLeast(r.end, GRAN);
      assert RoundOut(r).end == AlignUp(r.end, GRAN);
    }
  }

  // ---- sharing 2 MiB units ----

  /** Some whole 2 MiB unit belongs to both ranges, each rounded outward without wrap-around. */
  predicate ShareUnit(a: Range, b: Range) {
    var (aLo, aHi, bLo, bHi) := (AlignDown(a.start, GRAN), AlignUp(a.end, GRAN), AlignDown(b.start, GRAN), AlignUp(b.end, GRAN));
    aLo < aHi && bLo < bHi && aLo < bHi && bLo < aHi
  }

  ghost predicate Misses(rs: seq<Range>, x: Range) {
    forall r :: r in rs ==> !ShareUnit(r, x)
  }

  /** No range from position `n` on shares a unit with an earlier one. */
  ghost predicate ApartFrom(rs: seq<Range>, n: nat) {
    forall i, j :: 0 <= i < j < |rs| && n <= j ==> !ShareUnit(rs[i], rs[j])
  }

  lemma {:induction false} ApartExtends(rs: seq<Range>, x: Option<Range>, n: nat)
    requires n <= |rs|
    ensures ApartFrom(rs + Just(x), n) <==> ApartFrom(rs, n) && (x.Some? ==> Misses(rs, x.value))
  {
    hide ShareUnit;
    if x.None? {
      assert rs + [] == rs;
    } else {
      var t := rs + [x.value];
      if ApartFrom(rs, n) && Misses(rs, x.value) {
        forall i, j | 0 <= i < j < |t| && n <= j ensures !ShareUnit(t[i], t[j]) { assert i < |rs| && rs[i] in rs; }
      }
      if ApartFrom(t, n) {
        forall i, j | 0 <= i < j < |rs| && n <= j ensures !ShareUnit(rs[i], rs[j]) { assert t[i] == rs[i] && t[j] == rs[j]; }
        forall r | r in rs ensures !ShareUnit(r, x.value) {
          var i :| 0 <= i < |rs| && rs[i] == r;
          assert t[i] == r && t[|rs|] == x.value;
        }
      }
    }
  }

  /** Clear of a range that rounds without wrapping is apart from it. */
  lemma {:induction false} ClearIsApart(o: Range, x: Range)
    requires Roundable(o) && x.start % GRAN == 0 && x.start <= x.end
    requires !Conflicts(RoundOut(o), x.start, x.end - x.start)
    ensures !ShareUnit(o, x)
  {
    RoundOutAligns(o);
    AlignDownIsGreatest(x.start, GRAN);
    AlignUpIsLeast(x.end, GRAN);
    hide RoundOut, AlignDown, AlignUp;
  }

  /** A range that wraps when rounded owns every unit from its start to the top of the address space. */
  lemma {:induction false} WrappedShares(o: Range, x: Range)
    requires !Roundable(o) && x.start % GRAN == 0 && x.start <= x.end
    ensures ShareUnit(o, x) <==> x.start < x.end && AlignDown(o.start, GRAN) < x.end
  {
    AlignDownIsGreatest(o.start, GRAN);
    AlignDownIsGreatest(x.start, GRAN);
    AlignUpIsLeast(x.end, GRAN);
    WrappedEnd(o.end);
    hide AlignDown, AlignUp;
  }

  lemma {:induction false} WrappedEnd(e: nat)
    requires U64_LIMIT - GRAN < e < U64_LIMIT
    ensures AlignUp(e, GRAN) == U64_LIMIT
  {
    AlignUpIsLeast(e, GRAN);
    assert U64_LIMIT % GRAN == 0;
    var up := AlignUp(e, GRAN);
    hide AlignUp;
    if up < U64_LIMIT { MultiplesApart(GRAN, up, U64_LIMIT); }
  }

  /** The lowest unit of a range that wraps when rounded; 2^64 when there is none. */
  function Floor(rs: seq<Range>): (m: nat) {
    if rs == [] then U64_LIMIT else
      var m := Floor(rs[..|rs| - 1]);
      var r := rs[|rs| - 1];
      if !Roundable(r) && AlignDown(r.start, GRAN) < m then AlignDown(r.start, GRAN) else m
  }

  lemma {:induction false} FloorIsLeast(rs: seq<Range>, e: nat)
    ensures e <= Floor(rs) <==> e <= U64_LIMIT && forall r :: r in rs && !Roundable(r) ==> e <= AlignDown(r.start, GRAN)
  {
    hide AlignDown, Roundable;
    if rs != [] {
      FloorIsLeast(rs[..|rs| - 1], e);
      assert rs == rs[..|rs| - 1] + [rs[|rs| - 1]];
    }
  }

  /** `x` keeps apart from ranges whose rounded forms it is clear of exactly when it stays below those that wrap. */
  lemma {:induction false} ClearMisses(rs: seq<Range>, x: Range)
    requires x.start % GRAN == 0 && x.start <= x.end
    requires forall r :: r in rs ==> !Conflicts(RoundOut(r), x.start, x.end - x.start)
    ensures Misses(rs, x) <==> x.start == x.end || x.end <= Floor(rs)
  {
    FloorIsLeast(rs, x.end);
    forall r | r in rs ensures ShareUnit(r, x) <==> !Roundable(r) && x.start < x.end && AlignDown(r.start, GRAN) < x.end {
      if Roundable(r) { ClearIsApart(r, x); } else { WrappedShares(r, x); }
    }
    hide ShareUnit, Roundable, AlignDown, RoundOut, Floor, Conflicts;
  }

  // ---- the regions of a plan ----

  ghost function Band(p: Plan): (b: Option<Range>)
    requires Accepts(p)
  {
    if 0 < BandSize(p.args) <= Midpoint(p.args)
    then Some(Range(Midpoint(p.args) - BandSize(p.args), Midpoint(p.args))) else None
  }

  function Just(r: Option<Range>): seq<Range> {
    if r.Some? then [r.value] else []
  }

  // What stands before the kernel, the initrd, the relocations and the band.

  ghost function BeforeKernel(p: Plan, l: Layout): seq<Range> { p.reserved + Just(l.pciWindow) }
  ghost function BeforeInitrd(p: Plan, l: Layout): seq<Range> { BeforeKernel(p, l) + [l.linux] }
  ghost function BeforeRelocs(p: Plan, l: Layout): seq<Range> { BeforeInitrd(p, l) + Just(Whole(l.initrd, l.bootconfig)) }
  ghost function BeforeBand(p: Plan, l: Layout): seq<Range> { BeforeRelocs(p, l) + Just(l.relocs) }

  /** Reserved ranges, window, kernel, initrd with fill, relocations, device band. */
  ghost function Regions(p: Plan, l: Layout): seq<Range>
    requires Accepts(p)
  {
    BeforeBand(p, l) + Just(Band(p))
  }

  /** Everything the planner searches a place for, and the band, is apart from every other region. */
  ghost predicate Separated(p: Plan, l: Layout)
    requires Accepts(p)
  {
    ApartFrom(Regions(p, l), |BeforeKernel(p, l)|)
  }

  /** No two regions share a unit, the window and the reserved ranges included. The reserved ranges
      are the caller's: how they lie to each other is not the planner's matter. */
  ghost predicate WhollySeparated(p: Plan, l: Layout)
    requires Accepts(p)
  {
    ApartFrom(Regions(p, l), |p.reserved|)
  }

  /** Separation, one placement at a time. */
  lemma {:induction false} SeparatedByStage(p: Plan, l: Layout)
    requires Accepts(p)
    ensures
      var whole := Whole(l.initrd, l.bootconfig);
      Separated(p, l) <==>
        && Misses(BeforeKernel(p, l), l.linux)
        && (whole.Some? ==> Misses(BeforeInitrd(p, l), whole.value))
        && (l.relocs.Some? ==> Misses(BeforeRelocs(p, l), l.relocs.value))
        && (Band(p).Some? ==> Misses(BeforeBand(p, l), Band(p).value))
  {
    ApartByStage(p, l, |BeforeKernel(p, l)|);
    hide Misses, ShareUnit, BandSize, Accepts;
  }

  lemma {:induction false} ApartByStage(p: Plan, l: Layout, n: nat)
    requires Accepts(p) && n <= |BeforeKernel(p, l)|
    ensures
      var whole := Whole(l.initrd, l.bootconfig);
      ApartFrom(Regions(p, l), n) <==>
        && ApartFrom(BeforeKernel(p, l), n)
        && Misses(BeforeKernel(p, l), l.linux)
        && (whole.Some? ==> Misses(BeforeInitrd(p, l), whole.value))
        && (l.relocs.Some? ==> Misses(BeforeRelocs(p, l), l.relocs.value))
        && (Band(p).Some? ==> Misses(BeforeBand(p, l), Band(p).value))
  {
    hide Misses, ApartFrom, BandSize, Accepts;
    ApartExtends(BeforeKernel(p, l), Some(l.linux), n);
    ApartExtends(BeforeInitrd(p, l), Whole(l.initrd, l.bootconfig), n);
    ApartExtends(BeforeRelocs(p, l), l.relocs, n);
    ApartExtends(BeforeBand(p, l), Band(p), n);
  }

  /** The planner compares the window with no reserved range; with that pair apart, all pairs are. */
  lemma {:induction false} WindowIsTheOnlyGap(p: Plan, l: Layout)
    requires Accepts(p) && Planned(p, l)
    ensures WhollySeparated(p, l) <==>
      Separated(p, l) && (p.args.pciSlots > 0 ==> Misses(p.reserved, Window(p.args)))
  {
    ApartByStage(p, l, |BeforeKernel(p, l)|);
    ApartByStage(p, l, |p.reserved|);
    ApartExtends(p.reserved, l.pciWindow, |p.reserved|);
    hide Misses, ShareUnit, BandSize, Lowest, InitrdFits, RelocsFit, BandFits, Window, Regions, BeforeInitrd, BeforeRelocs, BeforeBand;
  }

  // ---- when rounding may wrap ----

  /** There is a place for `size` bytes that ends at or before `m`. */
  ghost predicate RoomBelow(occupied: seq<Range>, start: nat, size: nat, align: nat, m: nat)
    requires align > 0
  {
    size == 0 || exists g: nat :: Candidate(occupied, start, size, align, g) && g + size <= m
  }

  ghost predicate RoundedInto(rs: seq<Range>, occupied: seq<Range>) {
    forall r :: r in rs ==> RoundOut(r) in occupied
  }

  /** A searched region is apart from the regions before it exactly when there is room for it below
      those that wrap. */
  lemma {:induction false} FitMisses(rs: seq<Range>, occupied: seq<Range>, start: nat, size: nat, align: nat, x: Range)
    requires align > 0 && align % GRAN == 0 && RoundedInto(rs, occupied)
    requires Lowest(occupied, start, size, align, x)
    ensures Misses(rs, x) <==> RoomBelow(occupied, start, size, align, Floor(rs))
  {
    hide RoundOut, Misses, Floor;
    MultipleOfMultiple(x.start, align, GRAN);
    forall r | r in rs ensures !Conflicts(RoundOut(r), x.start, x.end - x.start) { assert RoundOut(r) in occupied; }
    ClearMisses(rs, x);
    assert Candidate(occupied, start, size, align, x.start);
    hide Conflicts;
  }

  lemma {:induction false} OccupiedIsRounded(p: Plan, l: Layout)
    ensures RoundedInto(BeforeKernel(p, l), Fixed(p, l)) && RoundedInto(BeforeInitrd(p, l), WithKernel(p, l))
    ensures RoundedInto(BeforeRelocs(p, l), WithInitrd(p, l)) && RoundedInto(BeforeBand(p, l), WithRelocs(p, l))
  {
    hide RoundOut;
    forall r | r in p.reserved ensures RoundOut(r) in RoundAll(p.reserved) {
      var i :| 0 <= i < |p.reserved| && p.reserved[i] == r;
      assert RoundAll(p.reserved)[i] == RoundOut(r);
    }
  }

  /** Before each search, some place below every range that wraps was still free; the band stands
      below them too. */
  ghost predicate Harmless(p: Plan, l: Layout)
    requires Accepts(p)
  {
    && RoomBelow(Fixed(p, l), p.kernel.minGpa, p.kernel.size, KernelAlign(p), Floor(BeforeKernel(p, l)))
    && (l.initrd.Some? && p.initrdSize.Some? ==> RoomBelow(WithKernel(p, l), 0, InitrdSpan(p), GRAN, Floor(BeforeInitrd(p, l))))
    && (l.relocs.Some? && p.relocsSize.Some? ==> RoomBelow(WithInitrd(p, l), 0, p.relocsSize.value, GRAN, Floor(BeforeRelocs(p, l))))
    && (Band(p).Some? ==> Midpoint(p.args) <= Floor(BeforeBand(p, l)))
  }

  lemma {:induction false} BandMisses(p: Plan, l: Layout)
    requires Accepts(p) && Planned(p, l) && Band(p).Some?
    ensures Misses(BeforeBand(p, l), Band(p).value) <==> Midpoint(p.args) <= Floor(BeforeBand(p, l))
  {
    hide RoundOut, Misses, Floor, Lowest, InitrdFits, RelocsFit, WindowPlaced, WithRelocs, BeforeBand;
    var x := Band(p).value;
    BandHolds(p.args);
    BandStart(Midpoint(p.args), BandSize(p.args));
    OccupiedIsRounded(p, l);
    forall r | r in BeforeBand(p, l) ensures !Conflicts(RoundOut(r), x.start, x.end - x.start) {
      assert RoundOut(r) in WithRelocs(p, l);
    }
    ClearMisses(BeforeBand(p, l), x);
  }

  lemma {:induction false} BandStart(m: nat, n: nat)
    requires m % GRAN == 0 && n % GRAN == 0 && n <= m
    ensures (m - n) % GRAN == 0
  {}

  /** The planner's promise, exactly: whether or not rounding wraps, the regions of a plan are apart
      if and only if each search had room below the ranges that wrap. */
  lemma {:induction false} SeparatedExactly(p: Plan, l: Layout)
    requires Accepts(p) && Planned(p, l)
    ensures Separated(p, l) <==> Harmless(p, l)
  {
    hide Misses, RoomBelow, Floor, Separated, RoundedInto, Lowest, BandFits, WindowPlaced, PowerOfTwo, BandSize;
    hide BeforeKernel, BeforeInitrd, BeforeRelocs, BeforeBand, Fixed, WithKernel, WithInitrd, WithRelocs, AlignUp;
    KernelAlignIsPower(p);
    SeparatedByStage(p, l);
    OccupiedIsRounded(p, l);
    FitMisses(BeforeKernel(p, l), Fixed(p, l), p.kernel.minGpa, p.kernel.size, KernelAlign(p), l.linux);
    if l.initrd.Some? {
      FitMisses(BeforeInitrd(p, l), WithKernel(p, l), 0, InitrdSpan(p), GRAN, Whole(l.initrd, l.bootconfig).value);
    }
    if l.relocs.Some? {
      FitMisses(BeforeRelocs(p, l), WithInitrd(p, l), 0, p.relocsSize.value, GRAN, l.relocs.value);
    }
    if Band(p).Some? { BandMisses(p, l); }
  }

  lemma {:induction false} LowestShape(occupied: seq<Range>, start: nat, size: nat, align: nat, x: Range)
    requires align > 0 && Lowest(occupied, start, size, align, x)
    ensures x.end == x.start + size && x.start % align == 0
  {}

  lemma {:induction false} AlignedEndIsRoundable(x: Range)
    requires x.end % GRAN == 0
    ensures Roundable(x)
  {
    MultiplesApart(GRAN, x.end, U64_LIMIT);
  }

  lemma {:induction false} InitrdIsAligned(p: Plan, l: Layout)
    requires Accepts(p) && Planned(p, l) && l.initrd.Some?
    ensures Roundable(Whole(l.initrd, l.bootconfig).value)
    ensures l.initrd.value.start % GRAN == 0 && l.initrd.value.end % GRAN == 0
  {
    hide Lowest, WindowPlaced, BandFits, Roundable, KernelPlaced, RelocsFit, WithKernel, WithInitrd, WithRelocs, AlignUp, Accepts;
    var x := Whole(l.initrd, l.bootconfig).value;
    LowestShape(WithKernel(p, l), 0, InitrdSpan(p), GRAN, x);
    InitrdEnds(l.initrd.value.start, p.initrdSize.value);
    AlignedEndIsRoundable(x);
  }

  lemma {:induction false} InitrdEnds(start: nat, size: nat)
    requires start % GRAN == 0
    ensures (start + AlignUp(size, GRAN)) % GRAN == 0 && (start + AlignUp(size, GRAN) + GRAN) % GRAN == 0
  {
    AlignUpIsLeast(size, GRAN);
    var a, b := start / GRAN, AlignUp(size, GRAN) / GRAN;
    hide AlignUp;
    assert start == GRAN * a && AlignUp(size, GRAN) == GRAN * b;
    MultipleHasNoRemainder(GRAN, a + b);
    MultipleHasNoRemainder(GRAN, a + b + 1);
    assert GRAN * (a + b) == start + AlignUp(size, GRAN) && GRAN * (a + b + 1) == start + AlignUp(size, GRAN) + GRAN;
  }

  // ---- a bound on the inputs ----

  /** The end of the last unit that a range reaches. */
  function LastUnit(rs: seq<Range>): nat {
    if rs == [] then 0 else
      var m := LastUnit(rs[..|rs| - 1]);
      var e := AlignUp(rs[|rs| - 1].end, GRAN);
      if e > m then e else m
  }

  lemma {:induction false} LastUnitBounds(rs: seq<Range>)
    ensures forall r :: r in rs ==> AlignUp(r.end, GRAN) <= LastUnit(rs)
  {
    hide AlignUp;
    if rs != [] {
      LastUnitBounds(rs[..|rs| - 1]);
      assert rs == rs[..|rs| - 1] + [rs[|rs| - 1]];
    }
  }

  /** Above everything that is fixed, and not below the kernel's floor. */
  function Top(p: Plan): (m: nat)
    requires 22 <= p.args.addrSpaceBits <= 64
    ensures p.kernel.minGpa <= m && LastUnit(p.reserved) <= m
  {
    var window := if p.args.pciSlots > 0 && p.args.windowBits + 2 <= p.args.addrSpaceBits then [Window(p.args)] else [];
    var m := LastUnit(p.reserved + window);
    LastUnitGrows(p.reserved, window);
    if p.kernel.minGpa > m then p.kernel.minGpa else m
  }

  lemma {:induction false} LastUnitGrows(a: seq<Range>, b: seq<Range>)
    requires |b| <= 1
    ensures LastUnit(a) <= LastUnit(a + b)
  {
    if b == [] { assert a + b == a; } else { assert (a + b)[..|a + b| - 1] == a; }
  }

  function KernelBound(p: Plan): nat
    requires 22 <= p.args.addrSpaceBits <= 64
  {
    AlignUp(AlignUp(Top(p), KernelAlign(p)) + p.kernel.size, GRAN)
  }

  function InitrdBound(p: Plan): nat
    requires 22 <= p.args.addrSpaceBits <= 64
  {
    KernelBound(p) + if p.initrdSize.Some? then InitrdSpan(p) else 0
  }

  function RelocsBound(p: Plan): nat
    requires 22 <= p.args.addrSpaceBits <= 64
  {
    InitrdBound(p) + if p.relocsSize.Some? then p.relocsSize.value else 0
  }

  /** Stacked above everything that is fixed, kernel, initrd and relocations stay below the last unit. */
  predicate Roomy(p: Plan)
    requires 22 <= p.args.addrSpaceBits <= 64
  {
    && (forall r :: r in p.reserved ==> Roundable(r))
    && RelocsBound(p) + (GRAN - 1) < U64_LIMIT
  }

  ghost predicate Below(occupied: seq<Range>, m: nat) { forall r :: r in occupied ==> r.end <= m }

  /** The first fit is no higher than just above everything. */
  lemma {:induction false} LowestEnds(occupied: seq<Range>, start: nat, size: nat, align: nat, x: Range, top: nat)
    requires align > 0 && Lowest(occupied, start, size, align, x)
    requires Below(occupied, top) && start <= top && AlignUp(top, align) + size < U64_LIMIT
    ensures x.end <= AlignUp(top, align) + size
  {
    AlignUpIsLeast(top, align);
    assert Candidate(occupied, start, size, align, AlignUp(top, align));
  }

  lemma {:induction false} AlignUpOfMultiple(v: nat, a: nat)
    requires a > 0 && v % a == 0
    ensures AlignUp(v, a) == v
  {
    AlignUpIsLeast(v, a);
  }

  lemma {:induction false} BoundsGrow(p: Plan)
    requires Accepts(p)
    ensures Top(p) <= AlignUp(Top(p), KernelAlign(p)) <= AlignUp(Top(p), KernelAlign(p)) + p.kernel.size <= KernelBound(p)
    ensures KernelBound(p) <= InitrdBound(p) <= RelocsBound(p)
    ensures KernelBound(p) % GRAN == 0 && InitrdBound(p) % GRAN == 0
  {
    hide Top;
    KernelAlignIsPower(p);
    AlignUpIsLeast(Top(p), KernelAlign(p));
    AlignUpIsLeast(AlignUp(Top(p), KernelAlign(p)) + p.kernel.size, GRAN);
    if p.initrdSize.Some? {
      AlignUpIsLeast(p.initrdSize.value, GRAN);
      InitrdEnds(KernelBound(p), p.initrdSize.value);
    }
    hide AlignUp;
  }

  lemma {:induction false} RoundedBelow(r: Range, m: nat)
    requires Roundable(r) && r.end <= m && m % GRAN == 0
    ensures RoundOut(r).end <= m
  {
    RoundOutAligns(r);
  }

  lemma {:induction false} FixedBelow(p: Plan, l: Layout)
    requires Accepts(p) && WindowPlaced(p, l) && Roomy(p)
    ensures Below(Fixed(p, l), Top(p))
  {
    var window := Just(l.pciWindow);
    LastUnitBounds(p.reserved + window);
    forall r | r in Fixed(p, l) ensures r.end <= Top(p) {
      FixedIsRounded(p, l, r);
      var o :| o in p.reserved + window && r == RoundOut(o);
      assert Roundable(o);
      RoundOutAligns(o);
    }
  }

  lemma {:induction false} FixedIsRounded(p: Plan, l: Layout, r: Range)
    requires r in Fixed(p, l)
    ensures exists o :: o in p.reserved + Just(l.pciWindow) && r == RoundOut(o)
  {
    hide RoundOut;
    var i :| 0 <= i < |Fixed(p, l)| && Fixed(p, l)[i] == r;
    var os := p.reserved + Just(l.pciWindow);
    assert os[i] in os && r == RoundOut(os[i]);
  }

  lemma {:induction false} BelowExtends(occupied: seq<Range>, m: nat, n: nat, x: Option<Range>)
    requires Below(occupied, m) && m <= n && n % GRAN == 0
    requires x.Some? ==> Roundable(x.value) && x.value.end <= n
    ensures Below(occupied + Rounded(x), n)
  {
    hide RoundOut;
    if x.Some? { RoundedBelow(x.value, n); }
  }

  /** The kernel ends below its bound. */
  lemma {:induction false} KernelEnds(p: Plan, l: Layout)
    requires Accepts(p) && Planned(p, l) && Roomy(p)
    ensures l.linux.end <= KernelBound(p) && Roundable(l.linux) && Below(WithKernel(p, l), KernelBound(p))
  {
    hide Lowest, InitrdFits, RelocsFit, BandFits, Top, KernelBound, InitrdBound, AlignUp, Below, Fixed, RoundOut;
    FixedBelow(p, l);
    BoundsGrow(p);
    LowestEnds(Fixed(p, l), p.kernel.minGpa, p.kernel.size, KernelAlign(p), l.linux, Top(p));
    BelowExtends(Fixed(p, l), Top(p), KernelBound(p), Some(l.linux));
  }

  lemma {:induction false} InitrdEndsBelow(p: Plan, l: Layout)
    requires Accepts(p) && Planned(p, l) && Roomy(p)
    ensures Below(WithInitrd(p, l), InitrdBound(p))
  {
    hide Lowest, WindowPlaced, RelocsFit, BandFits, Top, KernelBound, AlignUp, Below, WithKernel, RoundOut, KernelPlaced;
    KernelEnds(p, l);
    BoundsGrow(p);
    var whole := Whole(l.initrd, l.bootconfig);
    if l.initrd.Some? {
      AlignUpOfMultiple(KernelBound(p), GRAN);
      LowestEnds(WithKernel(p, l), 0, InitrdSpan(p), GRAN, whole.value, KernelBound(p));
      InitrdIsAligned(p, l);
    }
    BelowExtends(WithKernel(p, l), KernelBound(p), InitrdBound(p), whole);
  }

  lemma {:induction false} RelocsEnd(p: Plan, l: Layout)
    requires Accepts(p) && Planned(p, l) && Roomy(p) && l.relocs.Some?
    ensures Roundable(l.relocs.value) && l.relocs.value.end <= RelocsBound(p)
  {
    hide Lowest, WindowPlaced, InitrdFits, BandFits, Top, InitrdBound, AlignUp, Below, WithInitrd, KernelPlaced;
    InitrdEndsBelow(p, l);
    BoundsGrow(p);
    AlignUpOfMultiple(InitrdBound(p), GRAN);
    LowestEnds(WithInitrd(p, l), 0, p.relocsSize.value, GRAN, l.relocs.value, InitrdBound(p));
  }

  /** No rounding wraps around 2^64. */
  predicate NoWrap(p: Plan, l: Layout) {
    && (forall r :: r in p.reserved ==> Roundable(r))
    && Roundable(l.linux)
    && (l.relocs.Some? ==> Roundable(l.relocs.value))
  }

  lemma {:induction false} NothingWraps(p: Plan, l: Layout)
    requires Accepts(p) && Planned(p, l) && NoWrap(p, l)
    ensures Separated(p, l)
  {
    SeparatedExactly(p, l);
    hide Roundable, BandSize, Separated, Lowest, BandFits, WindowPlaced;
    NoFloor(p, l);
    hide Floor, BeforeKernel, BeforeInitrd, BeforeRelocs, BeforeBand, Fixed, WithKernel, WithInitrd, WithRelocs, AlignUp;
    LowestHasRoom(Fixed(p, l), p.kernel.minGpa, p.kernel.size, KernelAlign(p), l.linux);
    if l.initrd.Some? { LowestHasRoom(WithKernel(p, l), 0, InitrdSpan(p), GRAN, Whole(l.initrd, l.bootconfig).value); }
    if l.relocs.Some? { LowestHasRoom(WithInitrd(p, l), 0, p.relocsSize.value, GRAN, l.relocs.value); }
    hide RoomBelow;
  }

  lemma {:induction false} LowestHasRoom(occupied: seq<Range>, start: nat, size: nat, align: nat, x: Range)
    requires align > 0 && Lowest(occupied, start, size, align, x)
    ensures RoomBelow(occupied, start, size, align, U64_LIMIT)
  {
    assert Candidate(occupied, start, size, align, x.start);
    hide Conflicts;
  }

  lemma {:induction false} NoFloor(p: Plan, l: Layout)
    requires Accepts(p) && Planned(p, l) && NoWrap(p, l)
    ensures Floor(BeforeKernel(p, l)) == U64_LIMIT && Floor(BeforeInitrd(p, l)) == U64_LIMIT
    ensures Floor(BeforeRelocs(p, l)) == U64_LIMIT && Floor(BeforeBand(p, l)) == U64_LIMIT
  {
    assert forall r :: r in Just(l.pciWindow) ==> Roundable(r);
    if l.initrd.Some? { InitrdIsAligned(p, l); }
    hide Roundable, Lowest, BandFits, WindowPlaced, AlignUp, Floor, Planned;
    NoWrapNoFloor(BeforeKernel(p, l));
    NoWrapNoFloor(BeforeInitrd(p, l));
    NoWrapNoFloor(BeforeRelocs(p, l));
    NoWrapNoFloor(BeforeBand(p, l));
  }

  lemma {:induction false} NoWrapNoFloor(rs: seq<Range>)
    requires forall r :: r in rs ==> Roundable(r)
    ensures Floor(rs) == U64_LIMIT
  {
    hide Roundable;
    if rs != [] { NoWrapNoFloor(rs[..|rs| - 1]); }
  }

  /** On a plan with room, a condition on the inputs alone, no two searched regions share a 2 MiB
      unit with each other, with the window, the band or any reserved range; and with the window
      clear of the reserved ranges no two regions do. */
  lemma {:induction false} PlanIsSeparated(p: Plan, l: Layout)
    requires Accepts(p) && Planned(p, l) && Roomy(p)
    ensures NoWrap(p, l) && Separated(p, l)
    ensures WhollySeparated(p, l) <==> (p.args.pciSlots > 0 ==> Misses(p.reserved, Window(p.args)))
  {
    hide Planned, Misses, WhollySeparated, Separated, Window, RelocsBound, InitrdBound, KernelBound, Accepts;
    KernelEnds(p, l);
    if l.relocs.Some? { RelocsEnd(p, l); }
    NothingWraps(p, l);
    WindowIsTheOnlyGap(p, l);
  }

  ghost function Devices(l: Layout): seq<Range> {
    (if l.ecam.Some? then [l.ecam.value] else []) + (if l.serial.Some? then [l.serial.value] else []) + l.virtio
  }

  /** Every device range lies in the band, after the ones before it, with its own size. */
  lemma {:induction false} DevicesInBand(p: Plan, l: Layout)
    requires Accepts(p) && Planned(p, l) && Devices(l) != []
    ensures Band(p).Some?
    ensures forall i :: 0 <= i < |Devices(l)| ==>
      Band(p).value.start <= Devices(l)[i].start < Devices(l)[i].end <= Band(p).value.end
    ensures forall i, j :: 0 <= i < j < |Devices(l)| ==> Devices(l)[i].end <= Devices(l)[j].start
    ensures |l.virtio| == p.args.mmioSlots && (l.serial.Some? <==> p.args.serial) && (l.ecam.Some? <==> p.args.pciSlots > 0)
  {
    hide Lowest, WindowPlaced, InitrdFits, RelocsFit, KernelPlaced, WithRelocs, BandSize, PowerOfTwo;
    BandHolds(p.args);
  }

  /** The bootconfig fill is exactly the 2 MiB after the padded archive. */
  lemma {:induction false} BootconfigFollowsInitrd(p: Plan, l: Layout)
    requires Accepts(p) && Planned(p, l) && l.bootconfig.Some?
    ensures l.initrd.Some? && l.bootconfig.value == Range(l.initrd.value.end, l.initrd.value.end + GRAN)
    ensures l.initrd.value.start % GRAN == 0 && l.initrd.value.end % GRAN == 0
    ensures p.initrdSize.value <= l.initrd.value.end - l.initrd.value.start < p.initrdSize.value + GRAN
  {
    InitrdIsAligned(p, l);
    AlignUpIsLeast(p.initrdSize.value, GRAN);
  }

  const TOP: u64 := U64_LIMIT - 2 * GRAN

  /** All memory but the last 4 MiB reserved, and a kernel of 2 MiB and one byte. */
  function TopPlan(): Plan {
    Plan(ArgsSpec(false, 0, 0, 0, 39), [Range(0, TOP)], KernelSpec(GRAN + 1, GRAN, 0), Some(1), false, None)
  }

  function TopLayout(): Layout {
    Layout(None, [], None, None, Range(TOP, TOP + GRAN + 1), Some(Range(TOP, TOP + GRAN)), None, None)
  }

  lemma {:induction false} TopRounds()
    ensures RoundOut(Range(0, TOP)) == Range(0, TOP)
    ensures RoundOut(Range(TOP, TOP + GRAN + 1)) == Range(TOP, 0)
  {
    assert (TOP + GRAN + 1 + (GRAN - 1)) % U64_LIMIT == 0;
  }

  lemma {:induction false} TopOccupied()
    ensures Fixed(TopPlan(), TopLayout()) == [Range(0, TOP)]
    ensures WithKernel(TopPlan(), TopLayout()) == [Range(0, TOP), Range(TOP, 0)]
  {
    TopRounds();
    hide RoundOut;
    assert RoundAll(TopPlan().reserved) == [Range(0, TOP)];
  }

  lemma {:induction false} TopIsAccepted()
    ensures Accepts(TopPlan())
  {
    Pow2Of64();
    assert PowerOfTwo(GRAN);
  }

  lemma {:induction false} TopKernelPlaced()
    ensures KernelPlaced(TopPlan(), TopLayout())
  {
    TopOccupied();
    hide Lowest, Fixed, RoundOut, Accepts, WithKernel;
    TopIsLowest([Range(0, TOP)], GRAN + 1);
  }

  lemma {:induction false} OneUnit()
    ensures AlignUp(1, GRAN) == GRAN
  {}

  lemma {:induction false} OneByteInitrdFits(p: Plan, occupied: seq<Range>, initrd: Range)
    requires p.initrdSize == Some(1) && !p.bootconfig && initrd.end == initrd.start + GRAN
    requires Lowest(occupied, 0, GRAN, GRAN, initrd)
    ensures InitrdFits(p, occupied, Some(initrd), None)
  {
    OneUnit();
    hide Lowest, AlignUp;
  }

  lemma {:induction false} TopInitrdFits()
    ensures InitrdFits(TopPlan(), WithKernel(TopPlan(), TopLayout()), TopLayout().initrd, TopLayout().bootconfig)
  {
    TopOccupied();
    TopIsLowest([Range(0, TOP), Range(TOP, 0)], GRAN);
    hide *;
    OneByteInitrdFits(TopPlan(), [Range(0, TOP), Range(TOP, 0)], Range(TOP, TOP + GRAN));
  }

  /** Without room the promise fails: that kernel rounds to an inverted range, and the initrd is
      placed on top of it. */
  lemma {:induction false} WrappedKernelIsOverlaid()
    ensures Accepts(TopPlan()) && Planned(TopPlan(), TopLayout())
    ensures !NoWrap(TopPlan(), TopLayout()) && !Separated(TopPlan(), TopLayout()) && !Harmless(TopPlan(), TopLayout())
    ensures Share(TopLayout().linux, TopLayout().initrd.value)
  {
    TopIsAccepted();
    TopKernelPlaced();
    TopInitrdFits();
    ShareTop();
    hide KernelPlaced, InitrdFits, WithKernel, AlignDown, AlignUp, ShareUnit, PowerOfTwo;
    assert BandSize(TopPlan().args) == 0;
    assert Regions(TopPlan(), TopLayout()) == [Range(0, TOP), TopLayout().linux, TopLayout().initrd.value];
    assert ShareUnit(Regions(TopPlan(), TopLayout())[1], Regions(TopPlan(), TopLayout())[2]);
    SeparatedExactly(TopPlan(), TopLayout());
  }

  lemma {:induction false} ShareTop()
    ensures ShareUnit(Range(U64_LIMIT - 2 * GRAN, U64_LIMIT - GRAN + 1), Range(U64_LIMIT - 2 * GRAN, U64_LIMIT - GRAN))
  {}

  /** With everything below the last 4 MiB taken, that is where a region goes. */
  lemma {:induction false} TopIsLowest(occupied: seq<Range>, size: nat)
    requires occupied == [Range(0, TOP)] || occupied == [Range(0, TOP), Range(TOP, 0)]
    requires 0 < size < 2 * GRAN
    ensures Lowest(occupied, 0, size, GRAN, Range(TOP, TOP + size))
  {
    assert occupied[0] in occupied;
    forall g: nat | Candidate(occupied, 0, size, GRAN, g) ensures TOP <= g {
      assert !Conflicts(occupied[0], g, size);
    }
  }
}
