/** The boot CPU's identity-mapping page tables. */
module BootMemory {
  import opened Outcomes
  import opened Words
  import opened Buffers

  const PAGE_PRESENT: nat := 1
  const PAGE_WRITABLE: nat := 2
  const PAGE_SIZE_2MB: nat := 0x80
  const NUM_GB: nat := 4
  const PGT_SIZE: nat := 0x6000

  /** Setting one flag bit. */
  function OrFlag(v: nat, flag: nat): nat
    requires flag > 0
  {
    if v / flag % 2 == 1 then v else v + flag
  }

  /** A page-aligned base whose tables lie below the architectural physical-address limit. */
  predicate ValidBase(base: nat) { base % 0x1000 == 0 && base + PGT_SIZE <= 0x10_0000_0000_0000 }

  // ---- the builder ----

  /** `f` read as little-endian 64-bit words. */
  ghost predicate Holds(b: seq<byte>, f: seq<nat>) {
    |b| == 8 * |f| && forall k {:trigger f[k]} :: 0 <= k < |f| ==> b[8 * k..8 * k + 8] == Le64(f[k])
  }

  lemma {:induction false} HoldsPut(b: seq<byte>, f: seq<nat>, i: nat, v: nat)
    requires Holds(b, f) && i < |f|
    ensures Holds(Put(b, 8 * i, Le64(v)), f[i := v])
  {
    hide Put;
    var r := Put(b, 8 * i, Le64(v));
    hide Le64;
    forall k | 0 <= k < |f| ensures r[8 * k..8 * k + 8] == Le64(f[i := v][k]) {
      if k != i { SliceOutside(r, b, 8 * i, 8 * i + 8, 8 * k, 8 * k + 8); }
    }
  }

  method WriteU64(out: array<byte>, off: nat, val: nat)
    requires off + 8 <= out.Length && val < U64_LIMIT
    modifies out
    ensures out[..] == Put(old(out[..]), off, Le64(val))
  {
    var b := Le64(val);
    ghost var was := out[..];
    var k := 0;
    while k < 8
      invariant 0 <= k <= 8
      invariant forall i :: off <= i < off + k ==> out[i] == b[i - off]
      invariant forall i :: 0 <= i < out.Length && !(off <= i < off + k) ==> out[i] == was[i]
    {
      out[off + k] := b[k];
      k := k + 1;
    }
    assert forall i :: 0 <= i < out.Length ==> out[..][i] == Put(was, off, b)[i];
  }

  /** The value of table word `k`: one PML4 entry, four PDPT entries, 2048 directory entries. */
  function Entry(base: nat, k: nat): nat {
    if k == 0 then base + 0x1003
    else if 512 <= k < 516 then base + 0x2003 + (k - 512) * 0x1000
    else if 1024 <= k < 3072 then (k - 1024) * 0x20_0000 + 0x83
    else 0
  }

  /** The table words once the PML4 entry, `n` PDPT entries and `m` directory entries are written. */
  ghost predicate Written(f: seq<nat>, base: nat, n: nat, m: nat) {
    |f| == 3072 && forall k :: 0 <= k < 3072 ==>
      f[k] == if k == 0 || 512 <= k < 512 + n || 1024 <= k < 1024 + m then Entry(base, k) else 0
  }

  lemma {:induction false} FlagsOfPage(v: nat)
    requires v % 0x1000 == 0
    ensures OrFlag(OrFlag(v, PAGE_PRESENT), PAGE_WRITABLE) == v + 3
    ensures OrFlag(OrFlag(OrFlag(v, PAGE_PRESENT), PAGE_WRITABLE), PAGE_SIZE_2MB) == v + 0x83
  {}

  lemma {:induction false} WrittenPointer(f: seq<nat>, base: nat, n: nat)
    requires n < 4 && Written(f, base, n, 0)
    ensures Written(f[512 + n := base + 0x2000 + n * 0x1000 + 3], base, n + 1, 0)
  {}

  lemma {:induction false} WrittenLeaf(f: seq<nat>, base: nat, m: nat)
    requires m < 2048 && Written(f, base, 4, m)
    ensures Written(f[1024 + m := m * 0x20_0000 + 0x83], base, 4, m + 1)
  {}

  lemma {:induction false} WrittenFirst(f: seq<nat>, base: nat)
    requires f == seq(3072, _ => 0)
    ensures Written(f[0 := base + 0x1003], base, 0, 0)
  {}

  lemma {:induction false} AllWritten(b: seq<byte>, f: seq<nat>, base: nat)
    requires Holds(b, f) && Written(f, base, 4, 2048)
    ensures IsIdentityMap(b, base)
  {
    assert f == seq(3072, k requires 0 <= k => Entry(base, k)) by { hide Entry; }
    hide Holds;
  }

  lemma {:induction false} WrittenSize(f: seq<nat>, base: nat, n: nat, m: nat)
    requires Written(f, base, n, m)
    ensures |f| == 3072
  {}

  method IdentityMap4GiB(base: nat) returns (out: array<byte>)
    requires ValidBase(base)
    ensures fresh(out) && IsIdentityMap(out[..], base)
  {
    out := new byte[PGT_SIZE](_ => 0);
    ghost var f: seq<nat> := seq(3072, _ => 0);
    ZerosHold(out[..], f);
    hide Holds, OrFlag, Written, Put, Entry, IsIdentityMap;
    var pdptOff := 0x1000;
    var pdBaseOff := pdptOff + 0x1000;
    FlagsOfPage(base + pdptOff);
    WrittenFirst(f, base);
    HoldsPut(out[..], f, 0, base + 0x1003);
    f := f[0 := base + 0x1003];
    WriteU64(out, 0, OrFlag(OrFlag(base + pdptOff, PAGE_PRESENT), PAGE_WRITABLE));
    f := WritePointers(out, f, base, pdptOff, pdBaseOff);
    var i := 0;
    while i < NUM_GB
      invariant 0 <= i <= NUM_GB
      invariant Holds(out[..], f) && Written(f, base, 4, 512 * i)
    {
      f := WriteDirectory(out, f, base, pdBaseOff, i);
      i := i + 1;
    }
    AllWritten(out[..], f, base);
  }

  /** The first loop: one entry per GiB. */
  method WritePointers(out: array<byte>, ghost f0: seq<nat>, base: nat, pdptOff: nat, pdBaseOff: nat) returns (ghost f: seq<nat>)
    requires ValidBase(base) && out.Length == PGT_SIZE && pdptOff == 0x1000 && pdBaseOff == 0x2000
    requires Holds(out[..], f0) && Written(f0, base, 0, 0)
    modifies out
    ensures Holds(out[..], f) && Written(f, base, 4, 0)
  {
    hide Holds, OrFlag, Written, Put, Entry;
    f := f0;
    var i := 0;
    while i < NUM_GB
      invariant 0 <= i <= NUM_GB
      invariant Holds(out[..], f) && Written(f, base, i, 0)
    {
      var pdGpa := base + pdBaseOff + i * 0x1000;
      FlagsOfPage(pdGpa);
      WrittenSize(f, base, i, 0);
      WrittenPointer(f, base, i);
      HoldsPut(out[..], f, 512 + i, pdGpa + 3);
      f := f[512 + i := pdGpa + 3];
      WriteU64(out, pdptOff + i * 8, OrFlag(OrFlag(pdGpa, PAGE_PRESENT), PAGE_WRITABLE));
      i := i + 1;
    }
  }

  /** The inner loop: the 512 entries of one directory. */
  method WriteDirectory(out: array<byte>, ghost f0: seq<nat>, base: nat, pdBaseOff: nat, i: nat) returns (ghost f: seq<nat>)
    requires i < NUM_GB && out.Length == PGT_SIZE && pdBaseOff == 0x2000
    requires Holds(out[..], f0) && Written(f0, base, 4, 512 * i)
    modifies out
    ensures Holds(out[..], f) && Written(f, base, 4, 512 * (i + 1))
  {
    hide Holds, OrFlag, Written, Put, Entry;
    f := f0;
    var pdOff := pdBaseOff + i * 0x1000;
    var j := 0;
    while j < 512
      invariant 0 <= j <= 512
      invariant Holds(out[..], f) && Written(f, base, 4, 512 * i + j)
    {
      var phys := i * 0x4000_0000 + j * 0x20_0000;
      FlagsOfPage(phys);
      WrittenSize(f, base, 4, 512 * i + j);
      WrittenLeaf(f, base, 512 * i + j);
      HoldsPut(out[..], f, 1024 + 512 * i + j, phys + 0x83);
      f := f[1024 + 512 * i + j := phys + 0x83];
      WriteU64(out, pdOff + j * 8, OrFlag(OrFlag(OrFlag(phys, PAGE_PRESENT), PAGE_WRITABLE), PAGE_SIZE_2MB));
      j := j + 1;
    }
  }

  lemma {:induction false} ZerosHold(b: seq<byte>, f: seq<nat>)
    requires |b| == 8 * |f| && (forall i :: 0 <= i < |b| ==> b[i] == 0) && (forall k :: 0 <= k < |f| ==> f[k] == 0)
    ensures Holds(b, f)
  {
    assert Le64(0) == [0, 0, 0, 0, 0, 0, 0, 0];
  }

  // ---- the page walk ----

  /** The 64-bit word at physical address `pa`, when the tables hold it. */
  function Load(b: seq<byte>, base: nat, pa: nat): (r: Option<nat>) {
    if base <= pa && pa + 8 <= base + |b| then Some(LeValue(b[pa - base..pa - base + 8])) else None
  }

  predicate Flag(e: nat, flag: nat)
    requires flag > 0
  {
    e / flag % 2 == 1
  }

  /** Bits 51:12 of an entry. */
  function TableAddress(e: nat): nat { e / 0x1000 % 0x100_0000_0000 * 0x1000 }

  datatype Mapping = Mapping(pa: nat, writable: bool)

  /** One level: the table's entry for a 9-bit index, when present. */
  function Lookup(b: seq<byte>, base: nat, table: nat, index: nat): (e: Option<nat>) {
    var e := Load(b, base, table + 8 * index);
    if e.Some? && Flag(e.value, PAGE_PRESENT) then e else None
  }

  /** The 4-level translation of a 48-bit linear address (section 4.5 of the Intel SDM, Volume 3A). */
  function Walk(b: seq<byte>, base: nat, va: nat): (m: Option<Mapping>) {
    var e4 := Lookup(b, base, base, va / 0x80_0000_0000 % 512);
    if e4.None? then None else
      var e3 := Lookup(b, base, TableAddress(e4.value), va / 0x4000_0000 % 512);
      if e3.None? then None else
        var w3 := Flag(e4.value, PAGE_WRITABLE) && Flag(e3.value, PAGE_WRITABLE);
        if Flag(e3.value, PAGE_SIZE_2MB) then Some(Mapping(e3.value / 0x4000_0000 % 0x40_0000 * 0x4000_0000 + va % 0x4000_0000, w3)) else
          var e2 := Lookup(b, base, TableAddress(e3.value), va / 0x20_0000 % 512);
          if e2.None? then None else
            var w2 := w3 && Flag(e2.value, PAGE_WRITABLE);
            if Flag(e2.value, PAGE_SIZE_2MB) then Some(Mapping(e2.value / 0x20_0000 % 0x8000_0000 * 0x20_0000 + va % 0x20_0000, w2)) else
              var e1 := Lookup(b, base, TableAddress(e2.value), va / 0x1000 % 512);
              if e1.None? then None else Some(Mapping(TableAddress(e1.value) + va % 0x1000, w2 && Flag(e1.value, PAGE_WRITABLE)))
  }

  ghost predicate IsIdentityMap(b: seq<byte>, base: nat) {
    Holds(b, seq(3072, k requires 0 <= k => Entry(base, k)))
  }

  lemma {:induction false} LookupAt(b: seq<byte>, base: nat, t: nat, index: nat)
    requires IsIdentityMap(b, base) && ValidBase(base) && t < 6 && index < 512
    ensures
      var e := Entry(base, 512 * t + index);
      Lookup(b, base, base + 0x1000 * t, index) == if Flag(e, PAGE_PRESENT) then Some(e) else None
  {
    var k := 512 * t + index;
    var f := seq(3072, k requires 0 <= k => Entry(base, k));
    hide Entry;
    assert f[k] == Entry(base, k) < U64_LIMIT by { EntryFits(base, k); }
    FixedWidthRoundTrip(f[k]);
    assert base + 0x1000 * t + 8 * index == base + 8 * k;
  }

  lemma {:induction false} EntryFits(base: nat, k: nat)
    requires ValidBase(base) && k < 3072
    ensures Entry(base, k) < U64_LIMIT
  {}

  lemma {:induction false} PointerFields(v: nat)
    requires v % 0x1000 == 0 && v < 0x10_0000_0000_0000
    ensures TableAddress(v + 3) == v && Flag(v + 3, PAGE_PRESENT) && Flag(v + 3, PAGE_WRITABLE) && !Flag(v + 3, PAGE_SIZE_2MB)
  {}

  lemma {:induction false} LeafFields(n: nat)
    requires n < 2048
    ensures
      var e := n * 0x20_0000 + 0x83;
      Flag(e, PAGE_PRESENT) && Flag(e, PAGE_WRITABLE) && Flag(e, PAGE_SIZE_2MB) && e / 0x20_0000 % 0x8000_0000 == n
  {}

  /** Every address below 4 GiB is mapped, writable, to itself; every other 48-bit address faults. */
  lemma {:induction false} WalkIsIdentity(b: seq<byte>, base: nat, va: nat)
    requires ValidBase(base) && IsIdentityMap(b, base) && va < 0x1_0000_0000_0000
    ensures Walk(b, base, va) == if va < 0x1_0000_0000 then Some(Mapping(va, true)) else None
  {
    var i4, i3, i2 := va / 0x80_0000_0000 % 512, va / 0x4000_0000 % 512, va / 0x20_0000 % 512;
    IndexBounds(va);
    LookupAt(b, base, 0, i4);
    PointerFields(base + 0x1000);
    LookupAt(b, base, 1, i3);
    if i3 < 4 {
      PointerFields(base + 0x2000 + i3 * 0x1000);
      LookupAt(b, base, 2 + i3, i2);
      LeafFields(512 * i3 + i2);
    }
    assert !Flag(0, PAGE_PRESENT);
    hide IsIdentityMap, Lookup, TableAddress, Flag;
  }

  lemma {:induction false} IndexBounds(va: nat)
    requires va < 0x1_0000_0000_0000
    ensures
      var i4, i3, i2 := va / 0x80_0000_0000 % 512, va / 0x4000_0000 % 512, va / 0x20_0000 % 512;
      && (va < 0x1_0000_0000 <==> i4 == 0 && i3 < 4)
      && (i4 == 0 && i3 < 4 ==> va == (512 * i3 + i2) * 0x20_0000 + va % 0x20_0000)
  {}
}
