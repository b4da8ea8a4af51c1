/** Lowering an ELF kernel to the flat image that is placed in guest memory. */
module KernelImage {
  import opened Outcomes
  import opened Words

  type u64 = x: nat | x < U64_LIMIT

  /** A program header; `load` says that its type is PT_LOAD. */
  datatype Segment = Segment(load: bool, offset: u64, paddr: u64, vaddr: u64, filesz: u64, memsz: u64)

  datatype Span = Span(minPaddr: nat, maxFileEnd: nat, maxMemEnd: nat)

  datatype KernelError = ElfMalformed

  // ---- the span ----

  predicate Occupies(p: Segment) { p.load && p.memsz != 0 }

  predicate Overflows(p: Segment) {
    Occupies(p) && (p.paddr + p.filesz >= U64_LIMIT || p.paddr + p.memsz >= U64_LIMIT)
  }

  /** The extrema of the occupying segments are bounds, and each is attained. */
  ghost predicate IsSpan(segs: seq<Segment>, s: Span) {
    && (forall p :: p in segs && Occupies(p) ==> s.minPaddr <= p.paddr && p.paddr + p.filesz <= s.maxFileEnd && p.paddr + p.memsz <= s.maxMemEnd)
    && (exists p :: p in segs && Occupies(p) && p.paddr == s.minPaddr)
    && (exists p :: p in segs && Occupies(p) && p.paddr + p.filesz == s.maxFileEnd)
    && (exists p :: p in segs && Occupies(p) && p.paddr + p.memsz == s.maxMemEnd)
  }

  ghost predicate HasSpan(segs: seq<Segment>) {
    (exists p :: p in segs && Occupies(p)) && forall p :: p in segs ==> !Overflows(p)
  }

  /** The running extrema over the segments seen so far. */
  ghost predicate SpanSoFar(segs: seq<Segment>, any: bool, s: Span) {
    && (forall p :: p in segs ==> !Overflows(p))
    && if any then IsSpan(segs, s) else s == Span(U64_LIMIT - 1, 0, 0) && forall p :: p in segs ==> !Occupies(p)
  }

  method ElfSpan(segs: seq<Segment>) returns (r: Result<Span, KernelError>)
    ensures r.Success? <==> HasSpan(segs)
    ensures r.Success? ==> IsSpan(segs, r.value)
  {
    var minPaddr: nat, maxFileEnd: nat, maxMemEnd: nat := U64_LIMIT - 1, 0, 0;
    var any := false;
    hide IsSpan, Occupies, Overflows, SpanSoFar, HasSpan;
    SpanStarts();
    for i := 0 to |segs|
      invariant SpanSoFar(segs[..i], any, Span(minPaddr, maxFileEnd, maxMemEnd))
    {
      var p := segs[i];
      ghost var s := Span(minPaddr, maxFileEnd, maxMemEnd);
      SpanStep(segs, i, any, s);
      if Occupies(p) {
        if p.paddr + p.filesz >= U64_LIMIT { return Failure(ElfMalformed); }
        if p.paddr + p.memsz >= U64_LIMIT { return Failure(ElfMalformed); }
        any := true;
        minPaddr := if p.paddr < minPaddr then p.paddr else minPaddr;
        maxFileEnd := if p.paddr + p.filesz > maxFileEnd then p.paddr + p.filesz else maxFileEnd;
        maxMemEnd := if p.paddr + p.memsz > maxMemEnd then p.paddr + p.memsz else maxMemEnd;
        assert Span(minPaddr, maxFileEnd, maxMemEnd) == Widen(p, s);
      }
    }
    SpanEnds(segs, any, Span(minPaddr, maxFileEnd, maxMemEnd));
    if !any { return Failure(ElfMalformed); }
    return Success(Span(minPaddr, maxFileEnd, maxMemEnd));
  }

  function Widen(p: Segment, s: Span): Span {
    Span(if p.paddr < s.minPaddr then p.paddr else s.minPaddr,
         if p.paddr + p.filesz > s.maxFileEnd then p.paddr + p.filesz else s.maxFileEnd,
         if p.paddr + p.memsz > s.maxMemEnd then p.paddr + p.memsz else s.maxMemEnd)
  }

  lemma {:induction false} SpanStarts()
    ensures forall segs: seq<Segment> :: SpanSoFar(segs[..0], false, Span(U64_LIMIT - 1, 0, 0))
  {}

  lemma {:induction false} SpanEnds(segs: seq<Segment>, any: bool, s: Span)
    requires SpanSoFar(segs[..|segs|], any, s)
    ensures any <==> HasSpan(segs)
    ensures any ==> IsSpan(segs, s)
  {
    assert segs[..|segs|] == segs;
    hide Occupies, Overflows;
  }

  lemma {:induction false} SpanStep(segs: seq<Segment>, i: nat, any: bool, s: Span)
    requires i < |segs| && SpanSoFar(segs[..i], any, s)
    ensures Occupies(segs[i]) && (segs[i].paddr + segs[i].filesz >= U64_LIMIT || segs[i].paddr + segs[i].memsz >= U64_LIMIT) ==> !HasSpan(segs)
    ensures Occupies(segs[i]) && segs[i].paddr + segs[i].filesz < U64_LIMIT && segs[i].paddr + segs[i].memsz < U64_LIMIT ==>
      SpanSoFar(segs[..i + 1], true, Widen(segs[i], s))
    ensures !Occupies(segs[i]) ==> SpanSoFar(segs[..i + 1], any, s)
  {
    var p := segs[i];
    assert Occupies(p) ==> (Overflows(p) <==> p.paddr + p.filesz >= U64_LIMIT || p.paddr + p.memsz >= U64_LIMIT);
    assert !Occupies(p) ==> !Overflows(p);
    hide Occupies, Overflows;
    assert p in segs;
    assert segs[..i + 1] == segs[..i] + [p];
    assert forall q :: q in segs[..i + 1] <==> q in segs[..i] || q == p;
    if Occupies(p) { WidenSpan(segs[..i], p, any, s); } else if any { SameSpan(segs[..i], p, s); }
    hide IsSpan;
  }

  lemma {:induction false} WidenSpan(segs: seq<Segment>, p: Segment, any: bool, s: Span)
    requires Occupies(p)
    requires if any then IsSpan(segs, s) else s == Span(U64_LIMIT - 1, 0, 0) && forall q :: q in segs ==> !Occupies(q)
    ensures IsSpan(segs + [p], Widen(p, s))
  {
    assert p in segs + [p];
    assert forall q :: q in segs + [p] <==> q in segs || q == p;
    hide Occupies;
  }

  lemma {:induction false} SameSpan(segs: seq<Segment>, p: Segment, s: Span)
    requires !Occupies(p) && IsSpan(segs, s)
    ensures IsSpan(segs + [p], s)
  {
    assert forall q :: q in segs + [p] <==> q in segs || q == p;
    hide Occupies;
  }

  // ---- what a loader builds in memory ----

  function FileByte(file: seq<byte>, p: Segment, a: nat): byte
    requires p.paddr <= a
  {
    if p.offset + (a - p.paddr) < |file| then file[p.offset + (a - p.paddr)] else 0
  }

  /** Memory after an ELF loader has placed the first `n` segments in order: each sets its memory
      range to its file bytes followed by zeros; untouched memory is zero. */
  function Memory(segs: seq<Segment>, n: nat, file: seq<byte>, a: nat): byte
    requires n <= |segs|
  {
    if n == 0 then 0 else
      var p := segs[n - 1];
      if Occupies(p) && p.paddr <= a < p.paddr + p.memsz then
        if a < p.paddr + p.filesz then FileByte(file, p, a) else 0
      else Memory(segs, n - 1, file, a)
  }

  // ---- the copy ----

  predicate HasData(p: Segment) { p.load && p.filesz != 0 }

  /** What the copy loop does with one segment. A build that traps overflow stops at the subtraction of
      the load base, before the file range is looked at; any other wraps and stops at the slice. */
  datatype Step = Skip | Copy | BadSource | BadTarget

  function StepOf(p: Segment, s: Span, fileLen: nat, trapping: bool): Step {
    if !HasData(p) then Skip
    else if trapping && p.paddr < s.minPaddr then BadTarget
    else if p.offset + p.filesz > fileLen then BadSource
    else if p.paddr < s.minPaddr || p.paddr + p.filesz > s.maxFileEnd then BadTarget
    else Copy
  }

  predicate Fine(st: Step) { st.Skip? || st.Copy? }

  /** The address `a` of the image after the first `n` copies into zeroed memory. */
  function Cell(segs: seq<Segment>, n: nat, file: seq<byte>, a: nat): byte
    requires n <= |segs|
  {
    if n == 0 then 0 else
      var p := segs[n - 1];
      if HasData(p) && p.paddr <= a < p.paddr + p.filesz then FileByte(file, p, a) else Cell(segs, n - 1, file, a)
  }

  function FlatImage(segs: seq<Segment>, file: seq<byte>, s: Span): (b: seq<byte>)
    requires s.minPaddr <= s.maxFileEnd
    ensures |b| == s.maxFileEnd - s.minPaddr
  {
    seq<byte>(s.maxFileEnd - s.minPaddr, o requires 0 <= o => Cell(segs, |segs|, file, s.minPaddr + o))
  }

  /** One past the last nonzero byte. */
  function ContentEnd(b: seq<byte>): (n: nat)
    ensures n <= |b|
    ensures n > 0 ==> b[n - 1] != 0
    ensures forall i :: n <= i < |b| ==> b[i] == 0
  {
    if b == [] then 0 else if b[|b| - 1] != 0 then |b| else ContentEnd(b[..|b| - 1])
  }

  function RoundToPage(n: nat): nat { (n + 0xFFF) / 0x1000 * 0x1000 }

  function KeptLength(b: seq<byte>): (n: nat)
    ensures ContentEnd(b) <= n <= |b|
    ensures n < ContentEnd(b) + 0x1000
  {
    if RoundToPage(ContentEnd(b)) < |b| then RoundToPage(ContentEnd(b)) else |b|
  }

  function Trimmed(b: seq<byte>): seq<byte> { b[..KeptLength(b)] }

  /** `OutOfBounds` is a run-time stop: a segment without memory lies outside the image. */
  datatype Loading = Loaded(image: seq<byte>) | Malformed | OutOfBounds

  /** Every segment before `n` was handled. */
  ghost predicate FineUntil(segs: seq<Segment>, n: nat, s: Span, fileLen: nat, trapping: bool) {
    forall i :: 0 <= i < n && i < |segs| ==> Fine(StepOf(segs[i], s, fileLen, trapping))
  }

  /** Segment `n` is the first that fails, in the given way. */
  ghost predicate FailsAt(segs: seq<Segment>, n: nat, s: Span, fileLen: nat, trapping: bool, how: Step) {
    n < |segs| && FineUntil(segs, n, s, fileLen, trapping) && !Fine(how) && StepOf(segs[n], s, fileLen, trapping) == how
  }

  method CopySegments(segs: seq<Segment>, file: seq<byte>, s: Span, image: array<byte>, trapping: bool) returns (outcome: Loading)
    requires IsSpan(segs, s) && s.maxFileEnd < U64_LIMIT && image.Length == s.maxFileEnd - s.minPaddr
    requires forall o :: 0 <= o < image.Length ==> image[o] == 0
    modifies image
    ensures outcome.Loaded? <==> FineUntil(segs, |segs|, s, |file|, trapping)
    ensures outcome.Malformed? <==> exists n: nat :: FailsAt(segs, n, s, |file|, trapping, BadSource)
    ensures outcome.OutOfBounds? <==> exists n: nat :: FailsAt(segs, n, s, |file|, trapping, BadTarget)
    ensures outcome.Loaded? ==> image[..] == FlatImage(segs, file, s)
  {
    hide IsSpan, Overflows, Occupies;
    for i := 0 to |segs|
      invariant FineUntil(segs, i, s, |file|, trapping)
      invariant forall o :: 0 <= o < image.Length ==> image[o] == Cell(segs, i, file, s.minPaddr + o)
    {
      var p := segs[i];
      if HasData(p) {
        if trapping && p.paddr < s.minPaddr {
          assert FailsAt(segs, i, s, |file|, trapping, BadTarget);
          return OutOfBounds;
        }
        var dst := if p.paddr < s.minPaddr then p.paddr + U64_LIMIT - s.minPaddr else p.paddr - s.minPaddr;
        if p.offset + p.filesz > |file| {
          assert FailsAt(segs, i, s, |file|, trapping, BadSource);
          return Malformed;
        }
        if dst + p.filesz > image.Length {
          assert FailsAt(segs, i, s, |file|, trapping, BadTarget);
          return OutOfBounds;
        }
        forall k | 0 <= k < p.filesz { image[dst + k] := file[p.offset + k]; }
      }
    }
    return Loaded(image[..]);
  }

  method ElfLoadImage(file: seq<byte>, segs: seq<Segment>, trapping: bool) returns (r: Loading, ghost s: Span)
    ensures !HasSpan(segs) ==> r.Malformed?
    ensures HasSpan(segs) ==>
      && IsSpan(segs, s)
      && (r.Malformed? <==> exists n: nat :: FailsAt(segs, n, s, |file|, trapping, BadSource))
      && (r.OutOfBounds? <==> exists n: nat :: FailsAt(segs, n, s, |file|, trapping, BadTarget))
      && (r.Loaded? <==> FineUntil(segs, |segs|, s, |file|, trapping))
      && (r.Loaded? ==> r.image == Trimmed(FlatImage(segs, file, s)))
  {
    hide HasSpan, IsSpan, FailsAt, FineUntil;
    s := Span(0, 0, 0);
    var span := ElfSpan(segs);
    if span.Failure? { return Malformed, s; }
    s := span.value;
    SpanIsOrdered(segs, s);
    SpanFits(segs, s);
    var image := new byte[span.value.maxFileEnd - span.value.minPaddr](_ => 0);
    r := CopySegments(segs, file, span.value, image, trapping);
    if !r.Loaded? { return; }
    var contentEnd := LastNonzero(image);
    var keep := if RoundToPage(contentEnd) < image.Length then RoundToPage(contentEnd) else image.Length;
    r := Loaded(image[..keep]);
    assert image[..keep] == image[..][..keep];
  }

  lemma {:induction false} SpanFits(segs: seq<Segment>, s: Span)
    requires HasSpan(segs) && IsSpan(segs, s)
    ensures s.maxFileEnd < U64_LIMIT
  {}

  lemma {:induction false} SpanIsOrdered(segs: seq<Segment>, s: Span)
    requires IsSpan(segs, s)
    ensures s.minPaddr <= s.maxFileEnd && s.minPaddr <= s.maxMemEnd
  {}

  /** `rposition` of a nonzero byte, plus one. */
  method LastNonzero(image: array<byte>) returns (n: nat)
    ensures n == ContentEnd(image[..]) && n <= image.Length
  {
    n := image.Length;
    ghost var b := image[..];
    while n > 0 && image[n - 1] == 0
      invariant n <= image.Length && ContentEnd(b) == ContentEnd(b[..n])
    {
      assert b[..n][..n - 1] == b[..n - 1];
      n := n - 1;
    }
  }

  // ---- meaning ----

  /** No segment has more file bytes than memory. */
  ghost predicate FileFitsMemory(segs: seq<Segment>) {
    forall p :: p in segs && p.load ==> p.filesz <= p.memsz
  }

  ghost predicate Disjoint(segs: seq<Segment>) {
    forall i, j :: 0 <= i < j < |segs| && Occupies(segs[i]) && Occupies(segs[j]) ==>
      segs[i].paddr + segs[i].memsz <= segs[j].paddr || segs[j].paddr + segs[j].memsz <= segs[i].paddr
  }

  /** What the guest sees: the section's bytes, then zeros. */
  function Extended(image: seq<byte>, o: nat): byte { if o < |image| then image[o] else 0 }

  /** The file bytes of a segment without memory lie inside the image. */
  predicate StrayFits(p: Segment, s: Span) {
    p.load && p.memsz == 0 < p.filesz ==> s.minPaddr <= p.paddr && p.paddr + p.filesz <= s.maxFileEnd
  }

  /** The file range of a segment's data. */
  predicate SourceFits(p: Segment, fileLen: nat) { HasData(p) ==> p.offset + p.filesz <= fileLen }

  /** The lowering succeeds exactly when every file range lies in the file and every segment that has
      file bytes but no memory, which the span ignores and the copy does not, still lies in the image.
      How the build treats overflow makes no difference to that. */
  lemma {:induction false} LoadsExactly(segs: seq<Segment>, s: Span, fileLen: nat, trapping: bool)
    requires IsSpan(segs, s)
    ensures FineUntil(segs, |segs|, s, fileLen, trapping) <==> forall p :: p in segs ==> SourceFits(p, fileLen) && StrayFits(p, s)
    ensures FileFitsMemory(segs) ==> forall p :: p in segs ==> StrayFits(p, s)
  {
    forall i | 0 <= i < |segs|
      ensures Fine(StepOf(segs[i], s, fileLen, trapping)) <==> SourceFits(segs[i], fileLen) && StrayFits(segs[i], s)
    {
      assert segs[i] in segs;
    }
    hide StepOf, SourceFits, StrayFits, IsSpan, FileFitsMemory;
    if forall p :: p in segs ==> SourceFits(p, fileLen) && StrayFits(p, s) {
      forall i | 0 <= i < |segs| ensures Fine(StepOf(segs[i], s, fileLen, trapping)) { assert segs[i] in segs; }
    }
  }

  /** A segment stops the lowering only if it has file bytes, no memory and a place outside the image. */
  lemma {:induction false} OnlyStraySegmentsStop(segs: seq<Segment>, s: Span, fileLen: nat, trapping: bool, i: nat)
    requires IsSpan(segs, s) && i < |segs|
    ensures StepOf(segs[i], s, fileLen, trapping) == BadTarget <==>
      !StrayFits(segs[i], s) && (SourceFits(segs[i], fileLen) || (trapping && segs[i].paddr < s.minPaddr))
  {
    assert segs[i] in segs;
  }

  lemma {:induction false} NothingCopied(segs: seq<Segment>, n: nat, file: seq<byte>, a: nat)
    requires n <= |segs|
    requires forall i :: 0 <= i < n ==> !(HasData(segs[i]) && segs[i].paddr <= a < segs[i].paddr + segs[i].filesz)
    ensures Cell(segs, n, file, a) == 0
  {
    if n > 0 { NothingCopied(segs, n - 1, file, a); }
  }

  lemma {:induction false} CellIsMemory(segs: seq<Segment>, n: nat, file: seq<byte>, a: nat)
    requires n <= |segs| && FileFitsMemory(segs) && Disjoint(segs)
    ensures Cell(segs, n, file, a) == Memory(segs, n, file, a)
  {
    if n > 0 {
      CellIsMemory(segs, n - 1, file, a);
      var p := segs[n - 1];
      assert p in segs;
      if Occupies(p) && p.paddr + p.filesz <= a < p.paddr + p.memsz {
        forall i | 0 <= i < n - 1 ensures !(HasData(segs[i]) && segs[i].paddr <= a < segs[i].paddr + segs[i].filesz) {
          assert segs[i] in segs;
        }
        NothingCopied(segs, n - 1, file, a);
      }
    }
  }

  /** Beyond the file-backed extent the loader leaves zeros. */
  lemma {:induction false} TailIsZero(segs: seq<Segment>, s: Span, n: nat, file: seq<byte>, a: nat)
    requires n <= |segs| && IsSpan(segs, s) && FileFitsMemory(segs) && s.maxFileEnd <= a
    ensures Memory(segs, n, file, a) == 0
  {
    if n > 0 {
      TailIsZero(segs, s, n - 1, file, a);
      assert segs[n - 1] in segs;
    }
  }

  /** The trimmed image, extended with zeros, is the memory a loader builds; nothing is loaded outside the span. */
  lemma {:induction false} LoweringPreservesMemory(segs: seq<Segment>, s: Span, file: seq<byte>, a: nat)
    requires IsSpan(segs, s) && FileFitsMemory(segs) && Disjoint(segs)
    ensures
      var image := Trimmed(FlatImage(segs, file, s));
      && |image| <= s.maxMemEnd - s.minPaddr
      && (s.minPaddr <= a ==> Extended(image, a - s.minPaddr) == Memory(segs, |segs|, file, a))
    ensures !(s.minPaddr <= a < s.maxMemEnd) ==> Memory(segs, |segs|, file, a) == 0 && forall p :: p in segs && Occupies(p) ==> !(p.paddr <= a < p.paddr + p.memsz)
  {
    SpanIsOrdered(segs, s);
    hide Trimmed;
    var flat := FlatImage(segs, file, s);
    FileEndsInMemory(segs, s);
    TrimExtends(flat);
    NothingOutside(segs, s, |segs|, file, a);
    if s.minPaddr <= a {
      var o := a - s.minPaddr;
      if o < |flat| {
        assert flat[o] == Cell(segs, |segs|, file, s.minPaddr + o);
        CellIsMemory(segs, |segs|, file, a);
      } else {
        TailIsZero(segs, s, |segs|, file, a);
      }
    }
  }

  lemma {:induction false} FileEndsInMemory(segs: seq<Segment>, s: Span)
    requires IsSpan(segs, s) && FileFitsMemory(segs)
    ensures s.maxFileEnd <= s.maxMemEnd
  {}

  lemma {:induction false} TrimExtends(b: seq<byte>)
    ensures |Trimmed(b)| <= |b|
    ensures forall o: nat :: Extended(Trimmed(b), o) == Extended(b, o)
  {}

  lemma {:induction false} NothingOutside(segs: seq<Segment>, s: Span, n: nat, file: seq<byte>, a: nat)
    requires n <= |segs| && IsSpan(segs, s)
    ensures !(s.minPaddr <= a < s.maxMemEnd) ==> Memory(segs, n, file, a) == 0
  {
    if n > 0 {
      NothingOutside(segs, s, n - 1, file, a);
      assert segs[n - 1] in segs;
    }
  }

  /** A relocation site whose last byte is nonzero lies wholly inside the trimmed image. */
  lemma {:induction false} SiteSurvives(segs: seq<Segment>, s: Span, file: seq<byte>, site: nat, width: nat)
    requires IsSpan(segs, s) && FileFitsMemory(segs) && Disjoint(segs)
    requires width > 0 && Memory(segs, |segs|, file, s.minPaddr + site + width - 1) != 0
    ensures s.minPaddr <= s.maxFileEnd && site + width <= |Trimmed(FlatImage(segs, file, s))|
  {
    SpanIsOrdered(segs, s);
    hide FlatImage, Trimmed, Memory, IsSpan, Disjoint, FileFitsMemory;
    LoweringPreservesMemory(segs, s, file, s.minPaddr + site + width - 1);
  }

  /** The larger of a segment's file and memory ranges. */
  function Extent(p: Segment): nat { if p.filesz > p.memsz then p.filesz else p.memsz }

  predicate Covers(p: Segment, a: nat) { p.load && p.paddr <= a < p.paddr + Extent(p) }

  /** No address belongs to the ranges of two segments. */
  ghost predicate Separate(segs: seq<Segment>) {
    forall i, j, a: nat :: 0 <= i < j < |segs| && Covers(segs[i], a) ==> !Covers(segs[j], a)
  }

  lemma {:induction false} DisjointAreSeparate(segs: seq<Segment>)
    requires FileFitsMemory(segs) && Disjoint(segs)
    ensures Separate(segs)
  {
    forall i, j, a: nat | 0 <= i < j < |segs| && Covers(segs[i], a) ensures !Covers(segs[j], a) {
      assert segs[i] in segs && segs[j] in segs;
    }
  }

  /** What one covering segment gives the loader and the copy. */
  lemma {:induction false} CoveredAddress(segs: seq<Segment>, n: nat, file: seq<byte>, a: nat, i: nat)
    requires n <= |segs| && Separate(segs) && i < n && Covers(segs[i], a)
    ensures
      var p := segs[i];
      && Cell(segs, n, file, a) == (if a < p.paddr + p.filesz then FileByte(file, p, a) else 0)
      && Memory(segs, n, file, a) == if a < p.paddr + p.filesz && a < p.paddr + p.memsz then FileByte(file, p, a) else 0
  {
    if i < n - 1 {
      CoveredAddress(segs, n - 1, file, a, i);
      assert !Covers(segs[n - 1], a);
    } else {
      forall k | 0 <= k < n - 1 ensures !Covers(segs[k], a) {}
      UncoveredAddress(segs, n - 1, file, a);
    }
  }

  lemma {:induction false} UncoveredAddress(segs: seq<Segment>, n: nat, file: seq<byte>, a: nat)
    requires n <= |segs| && forall k :: 0 <= k < n ==> !Covers(segs[k], a)
    ensures Cell(segs, n, file, a) == 0 && Memory(segs, n, file, a) == 0
  {
    if n > 0 {
      UncoveredAddress(segs, n - 1, file, a);
      assert !Covers(segs[n - 1], a);
    }
  }

  /** Every file byte beyond a segment's memory is zero. */
  ghost predicate ExcessIsZero(segs: seq<Segment>, file: seq<byte>) {
    forall p, a :: p in segs && p.load && p.paddr + p.memsz <= a < p.paddr + p.filesz ==> FileByte(file, p, a) == 0
  }

  /** The guest sees what a loader builds at `a`. */
  ghost predicate AgreesAt(segs: seq<Segment>, s: Span, file: seq<byte>, a: nat)
    requires s.minPaddr <= s.maxFileEnd
  {
    s.minPaddr <= a ==> Extended(Trimmed(FlatImage(segs, file, s)), a - s.minPaddr) == Memory(segs, |segs|, file, a)
  }

  /** Exactly when lowering preserves memory: for segments whose ranges are separate, and an image that
      was produced, all addresses agree if and only if every file byte beyond its segment's memory is zero. */
  lemma {:induction false} PreservesExactly(segs: seq<Segment>, s: Span, file: seq<byte>, trapping: bool)
    requires IsSpan(segs, s) && Separate(segs) && FineUntil(segs, |segs|, s, |file|, trapping)
    ensures s.minPaddr <= s.maxFileEnd
    ensures (forall a: nat :: AgreesAt(segs, s, file, a)) <==> ExcessIsZero(segs, file)
  {
    SpanIsOrdered(segs, s);
    hide Separate, Trimmed, FlatImage, Memory, Cell, IsSpan;
    forall a: nat | s.minPaddr <= a
      ensures Extended(Trimmed(FlatImage(segs, file, s)), a - s.minPaddr) == Cell(segs, |segs|, file, a)
    {
      ImageIsCells(segs, s, file, trapping, a);
    }
    if ExcessIsZero(segs, file) {
      forall a: nat ensures AgreesAt(segs, s, file, a) { ZeroExcessAgrees(segs, file, a); }
    }
    if forall a: nat :: AgreesAt(segs, s, file, a) {
      forall p, a | p in segs && p.load && p.paddr + p.memsz <= a < p.paddr + p.filesz ensures FileByte(file, p, a) == 0 {
        var i :| 0 <= i < |segs| && segs[i] == p;
        assert Fine(StepOf(p, s, |file|, trapping));
        CoveredAddress(segs, |segs|, file, a, i);
        assert AgreesAt(segs, s, file, a);
      }
    }
  }

  lemma {:induction false} ImageIsCells(segs: seq<Segment>, s: Span, file: seq<byte>, trapping: bool, a: nat)
    requires IsSpan(segs, s) && FineUntil(segs, |segs|, s, |file|, trapping) && s.minPaddr <= a && s.minPaddr <= s.maxFileEnd
    ensures Extended(Trimmed(FlatImage(segs, file, s)), a - s.minPaddr) == Cell(segs, |segs|, file, a)
  {
    hide Trimmed, IsSpan, Cell;
    TrimExtends(FlatImage(segs, file, s));
    if a >= s.maxFileEnd {
      forall i | 0 <= i < |segs| ensures !(HasData(segs[i]) && segs[i].paddr <= a < segs[i].paddr + segs[i].filesz) {
        assert Fine(StepOf(segs[i], s, |file|, trapping));
      }
      NothingCopied(segs, |segs|, file, a);
    }
  }

  lemma {:induction false} ZeroExcessAgrees(segs: seq<Segment>, file: seq<byte>, a: nat)
    requires Separate(segs) && ExcessIsZero(segs, file)
    ensures Cell(segs, |segs|, file, a) == Memory(segs, |segs|, file, a)
  {
    hide Separate, Cell, Memory;
    if i :| 0 <= i < |segs| && Covers(segs[i], a) {
      assert segs[i] in segs;
      CoveredAddress(segs, |segs|, file, a, i);
    } else {
      UncoveredAddress(segs, |segs|, file, a);
    }
  }

  /** With file bytes but no memory, a segment below the span stops the lowering. */
  lemma {:induction false} EmptyMemorySegmentStops(trapping: bool)
    ensures
      var segs := [Segment(true, 0, 0x1000, 0, 1, 1), Segment(true, 0, 0, 0, 1, 0)];
      var s := Span(0x1000, 0x1001, 0x1001);
      HasSpan(segs) && IsSpan(segs, s) && FailsAt(segs, 1, s, 1, trapping, BadTarget)
  {
    var p := Segment(true, 0, 0x1000, 0, 1, 1);
    var segs := [p, Segment(true, 0, 0, 0, 1, 0)];
    assert p in segs;
  }

  /** With more file bytes than memory, the image outgrows the memory span. */
  lemma {:induction false} ExcessFileBytesAreKept()
    ensures
      var segs := [Segment(true, 0, 0, 0, 2, 1)];
      var s := Span(0, 2, 1);
      var image := Trimmed(FlatImage(segs, [7, 7], s));
      IsSpan(segs, s) && |image| > s.maxMemEnd - s.minPaddr && Extended(image, 1) != Memory(segs, 1, [7, 7], 1)
  {
    var p := Segment(true, 0, 0, 0, 2, 1);
    var segs := [p];
    assert p in segs;
    var flat := FlatImage(segs, [7, 7], Span(0, 2, 1));
    assert flat[1] == Cell(segs, 1, [7, 7], 1) == 7;
    assert ContentEnd(flat) == 2;
  }
}
