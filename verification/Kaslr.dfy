/** Applying the kernel's address randomization in place. */
module Kaslr {
  import opened Words
  import opened Buffers
  import opened KernelImage
  import opened Relocations

  const LOAD_PHYSICAL_ADDR: nat := 0x100_0000
  const KERNEL_IMAGE_SIZE: nat := 0x4000_0000
  const KASLR_ALIGN: nat := 0x20_0000

  // ---- the shift ----

  function SatSub(a: nat, b: nat): nat { if a < b then 0 else a - b }

  function Slots(allocSize: nat): (n: nat)
    ensures n >= 1
  {
    SatSub(SatSub(KERNEL_IMAGE_SIZE, allocSize), LOAD_PHYSICAL_ADDR) / KASLR_ALIGN + 1
  }

  /** The virtual shift for a random draw. */
  function Delta(draw: nat, allocSize: nat): nat { draw % Slots(allocSize) * KASLR_ALIGN }

  /** The draws reach exactly the aligned shifts that keep the image inside the mapped window; an image
      that does not fit unshifted is never moved. */
  lemma {:induction false} DeltaIsLegal(allocSize: nat, delta: nat)
    ensures (exists draw: u64 :: Delta(draw, allocSize) == delta) <==>
      && delta % KASLR_ALIGN == 0
      && (delta == 0 || LOAD_PHYSICAL_ADDR + delta + allocSize <= KERNEL_IMAGE_SIZE)
  {
    SlotsBound(allocSize, delta / KASLR_ALIGN);
    hide Slots;
    if draw: u64 :| Delta(draw, allocSize) == delta {
      DeltaIsMultiple(draw, allocSize);
    }
    if delta % KASLR_ALIGN == 0 && (delta == 0 || LOAD_PHYSICAL_ADDR + delta + allocSize <= KERNEL_IMAGE_SIZE) {
      var k: u64 := delta / KASLR_ALIGN;
      SmallDraw(k, allocSize);
      assert Delta(k, allocSize) == delta;
    }
  }

  lemma {:induction false} SlotsBound(allocSize: nat, k: nat)
    ensures k < Slots(allocSize) <==> k == 0 || LOAD_PHYSICAL_ADDR + k * KASLR_ALIGN + allocSize <= KERNEL_IMAGE_SIZE
    ensures Slots(allocSize) <= 0x200
  {}

  lemma {:induction false} DeltaIsMultiple(draw: nat, allocSize: nat)
    ensures Delta(draw, allocSize) % KASLR_ALIGN == 0 && Delta(draw, allocSize) / KASLR_ALIGN < Slots(allocSize)
  {
    hide Slots;
    MultipleHasNoRemainder(KASLR_ALIGN, draw % Slots(allocSize));
  }

  lemma {:induction false} SmallDraw(k: nat, allocSize: nat)
    requires k < Slots(allocSize)
    ensures Delta(k, allocSize) == k * KASLR_ALIGN
  {
    hide Slots;
    DivideUnique(k, Slots(allocSize), 0, k);
  }

  // ---- one patch ----

  datatype Kind = Add64 | Sub32 | Add32

  function Width(k: Kind): (w: nat)
    ensures w == 4 || w == 8
  {
    if k.Add64? then 8 else 4
  }

  /** The stored word after the shift, in the word's own width. */
  function Shifted(k: Kind, was: seq<byte>, delta: nat): (s: seq<byte>)
    requires |was| == Width(k)
    ensures |s| == Width(k)
  {
    match k
    case Add64 => Le64((LeValue(was) + delta) % U64_LIMIT)
    case Sub32 => Le32((LeValue(was) - delta) % U32_LIMIT)
    case Add32 => Le32((LeValue(was) + delta) % U32_LIMIT)
  }

  datatype Fix = Fix(kind: Kind, at: nat)

  /** A site that the image does not wholly contain is skipped. */
  function Patch(b: seq<byte>, f: Fix, delta: nat): (r: seq<byte>)
    ensures |r| == |b|
  {
    if f.at + Width(f.kind) <= |b| then Put(b, f.at, Shifted(f.kind, b[f.at..f.at + Width(f.kind)], delta)) else b
  }

  function PatchAll(b: seq<byte>, fs: seq<Fix>, delta: nat): (r: seq<byte>)
    ensures |r| == |b|
  {
    if fs == [] then b else Patch(PatchAll(b, fs[..|fs| - 1], delta), fs[|fs| - 1], delta)
  }

  function Fixes(kind: Kind, sites: seq<u32>): (fs: seq<Fix>)
    ensures |fs| == |sites|
  {
    seq(|sites|, i requires 0 <= i < |sites| => Fix(kind, sites[i]))
  }

  function AllFixes(r: Relocs): seq<Fix> {
    Fixes(Add64, r.relocs64) + Fixes(Sub32, r.relocs32neg) + Fixes(Add32, r.relocs32)
  }

  lemma {:induction false} PatchAllJoin(b: seq<byte>, fs: seq<Fix>, gs: seq<Fix>, delta: nat)
    ensures PatchAll(b, fs + gs, delta) == PatchAll(PatchAll(b, fs, delta), gs, delta)
  {
    hide Patch;
    if gs == [] {
      assert fs + gs == fs;
    } else {
      PatchAllJoin(b, fs, gs[..|gs| - 1], delta);
      assert (fs + gs)[..|fs + gs| - 1] == fs + gs[..|gs| - 1];
    }
  }

  // ---- the pass ----

  method PatchSites(image: array<byte>, kind: Kind, sites: seq<u32>, delta: nat)
    modifies image
    ensures image[..] == PatchAll(old(image[..]), Fixes(kind, sites), delta)
  {
    ghost var b := image[..];
    ghost var fs := Fixes(kind, sites);
    hide PatchAll, Fixes, Put, Shifted, Patch;
    PatchNothing(b, fs, delta);
    for i := 0 to |sites|
      invariant image[..] == PatchAll(b, fs[..i], delta)
    {
      var o := sites[i];
      PatchOneMore(b, kind, sites, i, delta);
      PatchIs(image[..], Fix(kind, o), delta);
      if o + Width(kind) <= image.Length {
        var s := Shifted(kind, image[o..o + Width(kind)], delta);
        assert image[..][o..o + Width(kind)] == image[o..o + Width(kind)];
        WriteAt(image, o, s);
      }
    }
    assert fs[..|sites|] == fs;
  }

  lemma {:induction false} PatchNothing(b: seq<byte>, fs: seq<Fix>, delta: nat)
    ensures PatchAll(b, fs[..0], delta) == b
  {}

  lemma {:induction false} PatchOneMore(b: seq<byte>, kind: Kind, sites: seq<u32>, i: nat, delta: nat)
    requires i < |sites|
    ensures PatchAll(b, Fixes(kind, sites)[..i + 1], delta) == Patch(PatchAll(b, Fixes(kind, sites)[..i], delta), Fix(kind, sites[i]), delta)
  {
    hide Patch;
    var fs := Fixes(kind, sites);
    assert fs[..i + 1][..i] == fs[..i];
  }

  lemma {:induction false} PatchIs(b: seq<byte>, f: Fix, delta: nat)
    ensures Patch(b, f, delta) ==
      if f.at + Width(f.kind) <= |b| then Put(b, f.at, Shifted(f.kind, b[f.at..f.at + Width(f.kind)], delta)) else b
  {}

  /** What `words`, the counts and the draw do to an image. */
  ghost function Randomized(b: seq<byte>, words: seq<u32>, c64: nat, c32n: nat, c32: nat, allocSize: nat, draw: nat): seq<byte> {
    if words == [] || c64 + c32n + c32 != |words| || Delta(draw, allocSize) == 0 then b
    else PatchAll(b, AllFixes(Slices(words, c64, c32n, c32)), Delta(draw, allocSize))
  }

  method ApplyKaslr(image: array<byte>, words: seq<u32>, c64: nat, c32n: nat, c32: nat, allocSize: nat, draw: u64)
    modifies image
    ensures image[..] == Randomized(old(image[..]), words, c64, c32n, c32, allocSize, draw)
  {
    if words == [] { return; }
    if c64 + c32n + c32 != |words| { return; }
    ghost var b := image[..];
    var relocs64 := words[..c64];
    var relocs32neg := words[c64..c64 + c32n];
    var relocs32 := words[c64 + c32n..];
    var headroom := SatSub(SatSub(KERNEL_IMAGE_SIZE, allocSize), LOAD_PHYSICAL_ADDR);
    var slots := headroom / KASLR_ALIGN + 1;
    var delta := draw % slots * KASLR_ALIGN;
    assert delta == Delta(draw, allocSize);
    if delta == 0 { return; }
    hide PatchAll, Delta, Fixes;
    PatchSites(image, Add64, relocs64, delta);
    PatchSites(image, Sub32, relocs32neg, delta);
    PatchSites(image, Add32, relocs32, delta);
    PatchAllJoin(b, Fixes(Add64, relocs64), Fixes(Sub32, relocs32neg), delta);
    PatchAllJoin(b, Fixes(Add64, relocs64) + Fixes(Sub32, relocs32neg), Fixes(Add32, relocs32), delta);
  }

  // ---- what the pass means ----

  predicate Apart(f: Fix, g: Fix) {
    f.at + Width(f.kind) <= g.at || g.at + Width(g.kind) <= f.at
  }

  ghost predicate PairwiseApart(fs: seq<Fix>) {
    forall i, j :: 0 <= i < j < |fs| ==> Apart(fs[i], fs[j])
  }

  predicate Inside(f: Fix, n: nat) { f.at + Width(f.kind) <= n }

  predicate Touches(f: Fix, k: nat) { f.at <= k < f.at + Width(f.kind) }

  /** A byte no contained site covers is unchanged. */
  lemma {:induction false} OthersUnchanged(b: seq<byte>, fs: seq<Fix>, delta: nat, k: nat)
    requires k < |b| && forall i :: 0 <= i < |fs| && Inside(fs[i], |b|) ==> !Touches(fs[i], k)
    ensures PatchAll(b, fs, delta)[k] == b[k]
  {
    hide Patch, Width;
    if fs != [] {
      var n := |fs| - 1;
      var p := PatchAll(b, fs[..n], delta);
      PatchAllLast(b, fs, delta);
      OthersUnchanged(b, fs[..n], delta, k);
      hide PatchAll;
      PatchKeeps(p, fs[n], delta, k, k + 1);
      assert Patch(p, fs[n], delta)[k..k + 1][0] == p[k..k + 1][0];
    }
  }

  lemma {:induction false} PatchKeeps(b: seq<byte>, f: Fix, delta: nat, lo: nat, hi: nat)
    requires lo <= hi <= |b| && (Inside(f, |b|) ==> f.at + Width(f.kind) <= lo || hi <= f.at)
    ensures Patch(b, f, delta)[lo..hi] == b[lo..hi]
  {
    if Inside(f, |b|) {
      var r := Patch(b, f, delta);
      hide Patch, Shifted, Width;
      PatchIs(b, f, delta);
      var s := Shifted(f.kind, b[f.at..f.at + Width(f.kind)], delta);
      assert r == Put(b, f.at, s) && |s| == Width(f.kind);
      hide Put;
      SliceOutside(r, b, f.at, f.at + Width(f.kind), lo, hi);
    }
  }

  lemma {:induction false} PatchAllLast(b: seq<byte>, fs: seq<Fix>, delta: nat)
    requires fs != []
    ensures PatchAll(b, fs, delta) == Patch(PatchAll(b, fs[..|fs| - 1], delta), fs[|fs| - 1], delta)
  {}

  /** Over pairwise disjoint sites, every contained site is shifted exactly once. */
  lemma {:induction false} EachSiteShifted(b: seq<byte>, fs: seq<Fix>, delta: nat, i: nat)
    requires PairwiseApart(fs) && i < |fs| && Inside(fs[i], |b|)
    ensures
      var f := fs[i];
      PatchAll(b, fs, delta)[f.at..f.at + Width(f.kind)] == Shifted(f.kind, b[f.at..f.at + Width(f.kind)], delta)
  {
    hide Shifted, Patch, PatchAll, Width;
    var n := |fs| - 1;
    var f := fs[i];
    var p := PatchAll(b, fs[..n], delta);
    PatchAllLast(b, fs, delta);
    if i < n {
      EachSiteShifted(b, fs[..n], delta, i);
      assert Apart(fs[i], fs[n]);
      PatchKeeps(p, fs[n], delta, f.at, f.at + Width(f.kind));
    } else {
      SiteUntouched(b, fs[..n], delta, f);
      PatchIs(p, f, delta);
    }
  }

  lemma {:induction false} SiteUntouched(b: seq<byte>, fs: seq<Fix>, delta: nat, f: Fix)
    requires Inside(f, |b|) && forall i :: 0 <= i < |fs| ==> Apart(fs[i], f)
    ensures PatchAll(b, fs, delta)[f.at..f.at + Width(f.kind)] == b[f.at..f.at + Width(f.kind)]
  {
    hide Patch, Width;
    if fs != [] {
      var n := |fs| - 1;
      SiteUntouched(b, fs[..n], delta, f);
      PatchAllLast(b, fs, delta);
      hide PatchAll;
      PatchKeeps(PatchAll(b, fs[..n], delta), fs[n], delta, f.at, f.at + Width(f.kind));
    }
  }

  /** The order of disjoint sites does not matter. */
  lemma {:induction false} SiteOrderDoesNotMatter(b: seq<byte>, fs: seq<Fix>, gs: seq<Fix>, delta: nat)
    requires PairwiseApart(fs) && PairwiseApart(gs) && forall f :: f in fs <==> f in gs
    ensures PatchAll(b, fs, delta) == PatchAll(b, gs, delta)
  {
    hide PatchAll, Shifted, PairwiseApart;
    var x, y := PatchAll(b, fs, delta), PatchAll(b, gs, delta);
    forall k | 0 <= k < |b| ensures x[k] == y[k] {
      if i :| 0 <= i < |fs| && Inside(fs[i], |b|) && Touches(fs[i], k) {
        var f := fs[i];
        assert f in fs;
        var j :| 0 <= j < |gs| && gs[j] == f;
        EachSiteShifted(b, fs, delta, i);
        EachSiteShifted(b, gs, delta, j);
        assert x[k] == x[f.at..f.at + Width(f.kind)][k - f.at] && y[k] == y[f.at..f.at + Width(f.kind)][k - f.at];
      } else {
        forall j | 0 <= j < |gs| && Inside(gs[j], |b|) ensures !Touches(gs[j], k) {
          assert gs[j] in gs;
          var i :| 0 <= i < |fs| && fs[i] == gs[j];
        }
        OthersUnchanged(b, fs, delta, k);
        OthersUnchanged(b, gs, delta, k);
      }
    }
  }

  /** The stored numbers: addition and subtraction modulo the word size. */
  lemma {:induction false} ShiftedValue(k: Kind, was: seq<byte>, delta: nat)
    requires |was| == Width(k)
    ensures LeValue(Shifted(k, was, delta)) ==
      match k
      case Add64 => (LeValue(was) + delta) % U64_LIMIT
      case Sub32 => (LeValue(was) - delta) % U32_LIMIT
      case Add32 => (LeValue(was) + delta) % U32_LIMIT
  {
    match k
    case Add64 => FixedWidthRoundTrip((LeValue(was) + delta) % U64_LIMIT);
    case Sub32 => FixedWidthRoundTrip((LeValue(was) - delta) % U32_LIMIT);
    case Add32 => FixedWidthRoundTrip((LeValue(was) + delta) % U32_LIMIT);
  }

  /** Extraction's section, its counts and the pass together: the patches are exactly the lists. */
  lemma {:induction false} SectionDrivesPatches(r: Relocs, b: seq<byte>, allocSize: nat, draw: u64)
    ensures
      Randomized(b, WordsOf(WordBytes(r.relocs64 + r.relocs32neg + r.relocs32)), |r.relocs64|, |r.relocs32neg|, |r.relocs32|, allocSize, draw)
      == if Delta(draw, allocSize) == 0 then b else PatchAll(b, AllFixes(r), Delta(draw, allocSize))
  {
    SectionRoundTrip(r);
    var words := WordsOf(WordBytes(r.relocs64 + r.relocs32neg + r.relocs32));
    hide WordsOf, Delta;
    if words == [] { assert AllFixes(r) == []; }
  }
}
