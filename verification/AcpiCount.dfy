/** The counting pass: processors, NUMA domains, table sizes and the layout of the output buffer. */
module AcpiCount {
  import opened Outcomes
  import opened Words
  import opened AcpiCore
  import opened DeviceTree
  import opened AcpiDevices
  import opened AcpiEntries
  import opened AcpiWalks
  import opened AcpiTables
  import Slit

  // ---- NUMA domains ----

  const DOMAIN_LIMIT: nat := 255

  function AddDomain(ids: seq<u32>, pd: u32): seq<u32> { if pd in ids then ids else ids + [pd] }

  /** The distinct tags in order of first occurrence. */
  function DomainsOf(tags: seq<u32>): (ids: seq<u32>) {
    if tags == [] then [] else AddDomain(DomainsOf(tags[..|tags| - 1]), tags[|tags| - 1])
  }

  ghost predicate Distinct(ids: seq<u32>) { forall i, j :: 0 <= i < j < |ids| ==> ids[i] != ids[j] }

  lemma {:induction false} DomainsAreDistinct(tags: seq<u32>)
    ensures Distinct(DomainsOf(tags)) && forall x :: x in DomainsOf(tags) <==> x in tags
  {
    if tags != [] {
      DomainsAreDistinct(tags[..|tags| - 1]);
      assert tags == tags[..|tags| - 1] + [tags[|tags| - 1]];
    }
  }

  lemma {:induction false} DomainsGrow(tags: seq<u32>, i: nat)
    requires i <= |tags|
    ensures |DomainsOf(tags[..i])| <= |DomainsOf(tags)|
    decreases |tags| - i
  {
    if i < |tags| {
      DomainsGrow(tags, i + 1);
      assert tags[..i + 1][..i] == tags[..i];
    } else {
      assert tags[..i] == tags;
    }
  }

  /** The domain set: a fixed array of which at most 255 cells are used. */
  class Domains {
    const ids: array<u32>
    var n: nat

    ghost predicate Valid()
      reads this, ids
    {
      ids.Length == 256 && n <= DOMAIN_LIMIT
    }

    function Contents(): (s: seq<u32>)
      reads this, ids
      requires Valid()
    {
      ids[..n]
    }

    constructor ()
      ensures Valid() && Contents() == [] && fresh(ids)
    {
      ids := new u32[256](_ => 0);
      n := 0;
    }

    /** Adds a domain once; the 256th distinct one is refused and changes nothing. */
    method Insert(pd: u32) returns (r: Result<(), DtbError>)
      requires Valid()
      modifies this`n, ids
      ensures Valid()
      ensures r.Success? <==> |AddDomain(old(Contents()), pd)| <= DOMAIN_LIMIT
      ensures Contents() == if r.Success? then AddDomain(old(Contents()), pd) else old(Contents())
    {
      for i := 0 to n
        invariant forall k :: 0 <= k < i ==> ids[k] != pd
      {
        if ids[i] == pd {
          assert Contents()[i] == pd;
          return Success(());
        }
      }
      assert pd !in Contents();
      if n + 1 == U8_LIMIT { return Failure(Dtb); }
      ids[n] := pd;
      n := n + 1;
      return Success(());
    }
  }

  // ---- processors ----

  const CPU_CACHE_CAP: nat := 256
  const NUMA_TAG_NONE: u32 := 0xFFFF_FFFF

  function StatusByte(s: Status): byte {
    match s
    case Okay => 0
    case Disabled => 1
    case Reserved => 2
    case Fail => 3
  }

  function StatusOf(b: byte): Status { if b == 0 then Okay else if b == 1 then Disabled else if b == 2 then Reserved else Fail }

  /** A decoded tag never is the mark for "no tag". */
  predicate Storable(c: Cpu) { c.tag != Some(NUMA_TAG_NONE) }

  /** The processors seen so far, one array per field. */
  class CpuCache {
    const apicIds: array<u32>
    const numaTags: array<u32>
    const statuses: array<byte>
    var n: nat

    ghost predicate Valid()
      reads this, apicIds, numaTags, statuses
    {
      apicIds.Length == numaTags.Length == statuses.Length == CPU_CACHE_CAP && n <= CPU_CACHE_CAP && apicIds != numaTags
    }

    function CpuAt(i: nat): (c: Cpu)
      reads this, apicIds, numaTags, statuses
      requires Valid() && i < CPU_CACHE_CAP
    {
      Cpu(apicIds[i], if numaTags[i] == NUMA_TAG_NONE then None else Some(numaTags[i]), StatusOf(statuses[i]))
    }

    function Entries(): (s: seq<Cpu>)
      reads this, apicIds, numaTags, statuses
      requires Valid()
      ensures |s| == n && forall i :: 0 <= i < n ==> s[i] == CpuAt(i)
    {
      seq(n, i requires 0 <= i < n reads this, apicIds, numaTags, statuses requires Valid() => CpuAt(i))
    }

    constructor ()
      ensures Valid() && Entries() == [] && fresh(apicIds) && fresh(numaTags) && fresh(statuses)
    {
      apicIds := new u32[CPU_CACHE_CAP](_ => 0);
      numaTags := new u32[CPU_CACHE_CAP](_ => NUMA_TAG_NONE);
      statuses := new byte[CPU_CACHE_CAP](_ => 0);
      n := 0;
    }

    /** What is pushed is what the entries give back; the 257th processor is refused. */
    method Push(c: Cpu) returns (r: Result<(), DtbError>)
      requires Valid() && Storable(c)
      modifies this`n, apicIds, numaTags, statuses
      ensures Valid()
      ensures r.Success? <==> |old(Entries())| < CPU_CACHE_CAP
      ensures Entries() == if r.Success? then old(Entries()) + [c] else old(Entries())
    {
      if n >= CPU_CACHE_CAP { return Failure(Dtb); }
      apicIds[n] := c.apic;
      numaTags[n] := if c.tag.Some? then c.tag.value else NUMA_TAG_NONE;
      statuses[n] := StatusByte(c.status);
      n := n + 1;
      return Success(());
    }
  }

  /** A cpu node's APIC ID, domain tag and status. */
  function DecodeCpu(n: Node): (c: Option<Cpu>)
    ensures c.Some? ==> Storable(c.value)
  {
    if FirstReg(n).None? || FirstReg(n).value.0 >= U32_LIMIT || n.numaNode.None? || n.numaNode.value == Some(NUMA_TAG_NONE) || n.status.None? then None
    else Some(Cpu(FirstReg(n).value.0, n.numaNode.value, n.status.value))
  }

  /** The processors under `/cpus` in order; the first must be enabled, and 256 are the most. */
  function CpuList(nodes: seq<Node>): (l: Option<seq<Cpu>>)
    ensures l.Some? ==> |l.value| <= CPU_CACHE_CAP
  {
    if nodes == [] then Some([]) else
      var (front, n) := (CpuList(nodes[..|nodes| - 1]), nodes[|nodes| - 1]);
      if front.None? then None
      else if n.base != CpuName then front
      else if DecodeCpu(n).None? || (front.value == [] && DecodeCpu(n).value.status != Okay) || |front.value| == CPU_CACHE_CAP then None
      else Some(front.value + [DecodeCpu(n).value])
  }

  lemma {:induction false} CpuListPrefix(nodes: seq<Node>, i: nat)
    requires i <= |nodes|
    ensures CpuList(nodes).Some? ==> CpuList(nodes[..i]).Some?
    ensures CpuList(nodes).Some? ==> |DomainsOf(TagsOf(CpuList(nodes[..i]).value))| <= |DomainsOf(TagsOf(CpuList(nodes).value))|
    decreases |nodes| - i
  {
    hide DecodeCpu;
    if i < |nodes| {
      CpuListPrefix(nodes, i + 1);
      assert nodes[..i + 1][..i] == nodes[..i];
      var (l, n) := (CpuList(nodes[..i]), nodes[i]);
      if CpuList(nodes[..i + 1]).Some? && n.base.CpuName? {
        var c := DecodeCpu(n).value;
        assert (l.value + [c])[..|l.value|] == l.value;
        DomainsTagged(l.value, c);
      }
    } else {
      assert nodes[..i] == nodes;
    }
  }

  /** The tags of the tagged processors. */
  function TagsOf(cpus: seq<Cpu>): (t: seq<u32>) {
    if cpus == [] then [] else
      TagsOf(cpus[..|cpus| - 1]) + if cpus[|cpus| - 1].tag.Some? then [cpus[|cpus| - 1].tag.value] else []
  }

  lemma {:induction false} DomainsTagged(cpus: seq<Cpu>, c: Cpu)
    ensures
      var (was, now) := (DomainsOf(TagsOf(cpus)), DomainsOf(TagsOf(cpus + [c])));
      now == if c.tag.Some? then AddDomain(was, c.tag.value) else was
  {
    assert (cpus + [c])[..|cpus|] == cpus;
    var t := TagsOf(cpus);
    if c.tag.Some? {
      assert (t + [c.tag.value])[..|t|] == t;
    } else {
      assert t + [] == t;
    }
  }

  function AffinityBytes(cpus: seq<Cpu>): (n: nat) {
    if cpus == [] then 0 else AffinityBytes(cpus[..|cpus| - 1]) + AffinitySize(cpus[|cpus| - 1].apic)
  }

  lemma {:induction false} AffinityBytesAreExact(cpus: seq<Cpu>)
    requires AllTagged(cpus)
    ensures AffinityBytes(cpus) == |Affinities(cpus)|
  {
    hide CpuAffinity;
    if cpus != [] { AffinityBytesAreExact(cpus[..|cpus| - 1]); }
  }

  /** What the walk of `/cpus` produces besides the cache and the domains. */
  datatype CpuWalk = CpuWalk(vcpuBytes: nat, cpuBytes: nat, tagged: nat, untagged: nat)

  /** The walk's totals are those of the processors. */
  ghost predicate WalkTotals(cpus: seq<Cpu>, w: CpuWalk) {
    && |cpus| <= U32_LIMIT && w.vcpuBytes == |CpuEntries(cpus)| && w.cpuBytes == AffinityBytes(cpus)
    && (w.tagged == 0 <==> TagsOf(cpus) == []) && (w.untagged == 0 <==> AllTagged(cpus))
  }

  lemma {:induction false} WalkOne(cpus: seq<Cpu>, w: CpuWalk, c: Cpu)
    requires WalkTotals(cpus, w) && |cpus| < CPU_CACHE_CAP
    ensures WalkTotals(cpus + [c],
      CpuWalk(w.vcpuBytes + LapicSize(c.apic, |cpus|) + NmiSize(|cpus|), w.cpuBytes + AffinitySize(c.apic),
              w.tagged + (if c.tag.Some? then 1 else 0), w.untagged + if c.tag.Some? then 0 else 1))
  {
    hide LapicEntry, NmiEntry, AffinitySize, LapicSize, NmiSize;
    assert (cpus + [c])[..|cpus|] == cpus;
    assert (cpus + [c])[|cpus|] == c;
    if AllTagged(cpus + [c]) { assert forall i :: 0 <= i < |cpus| ==> (cpus + [c])[i] == cpus[i]; }
  }

  predicate CpusCount(nodes: seq<Node>) {
    CpuList(nodes).Some? && CpuList(nodes).value != [] && |DomainsOf(TagsOf(CpuList(nodes).value))| <= DOMAIN_LIMIT
  }

  method WalkCpus(nodes: seq<Node>, domains: Domains, cache: CpuCache) returns (r: Result<CpuWalk, DtbError>)
    requires domains.Valid() && domains.Contents() == [] && cache.Valid() && cache.Entries() == []
    requires domains.ids != cache.apicIds && domains.ids != cache.numaTags
    modifies domains, domains.ids, cache, cache.apicIds, cache.numaTags, cache.statuses
    ensures domains.Valid() && cache.Valid()
    ensures r.Success? <==> CpusCount(nodes)
    ensures r.Success? ==>
      && cache.Entries() == CpuList(nodes).value && domains.Contents() == DomainsOf(TagsOf(cache.Entries()))
      && WalkTotals(cache.Entries(), r.value)
  {
    hide DecodeCpu, WalkTotals, DomainsOf, TagsOf, LapicSize, NmiSize, AffinitySize;
    var w := CpuWalk(0, 0, 0, 0);
    var uid := 0;
    NoCpus(nodes);
    for i := 0 to |nodes|
      invariant domains.Valid() && cache.Valid()
      invariant CpuList(nodes[..i]) == Some(cache.Entries()) && uid == |cache.Entries()|
      invariant domains.Contents() == DomainsOf(TagsOf(cache.Entries()))
      invariant WalkTotals(cache.Entries(), w)
    {
      assert nodes[..i + 1][..i] == nodes[..i];
      CpuListPrefix(nodes, i + 1);
      if nodes[i].base == CpuName {
        var decoded := DecodeCpu(nodes[i]);
        if decoded.None? { return Failure(Dtb); }
        var c := decoded.value;
        if uid == 0 && c.status != Okay { return Failure(Dtb); }
        ghost var was := cache.Entries();
        if uid < CPU_CACHE_CAP { WalkOne(was, w, c); }
        DomainsTagged(was, c);
        w := CpuWalk(w.vcpuBytes + LapicSize(c.apic, uid) + NmiSize(uid), w.cpuBytes + AffinitySize(c.apic),
                     w.tagged + (if c.tag.Some? then 1 else 0), w.untagged + if c.tag.Some? then 0 else 1);
        if c.tag.Some? {
          var inserted :- domains.Insert(c.tag.value);
        }
        var pushed :- cache.Push(c);
        uid := uid + 1;
      }
    }
    assert nodes[..|nodes|] == nodes;
    if uid == 0 { return Failure(Dtb); }
    return Success(w);
  }

  lemma {:induction false} NoCpus(nodes: seq<Node>)
    ensures CpuList(nodes[..0]) == Some([]) && DomainsOf(TagsOf([])) == [] && WalkTotals([], CpuWalk(0, 0, 0, 0))
  {}

  // ---- interrupt controllers and power registers ----

  /** The base of the first local APIC node; nodes after it are not examined. */
  function LapicOf(children: seq<Node>): (b: Option<u32>) {
    if children == [] then None
    else if Has(children[0], LocalApic).None? then None
    else if !Has(children[0], LocalApic).value then LapicOf(children[1..])
    else if IntcFits(children[0]) then Some(FirstReg(children[0]).value.0) else None
  }

  method FindLapic(children: seq<Node>) returns (r: Result<u32, DtbError>)
    ensures r.Success? <==> LapicOf(children).Some?
    ensures r.Success? ==> r.value == LapicOf(children).value
  {
    for i := 0 to |children|
      invariant LapicOf(children) == LapicOf(children[i..])
    {
      var n := children[i];
      if Has(n, LocalApic).None? { return Failure(Dtb); }
      if Has(n, LocalApic).value {
        if !IntcFits(n) { return Failure(Dtb); }
        return Success(FirstReg(n).value.0);
      }
      assert children[i..][1..] == children[i + 1..];
    }
    return Failure(Dtb);
  }

  /** The register and value of a power node; power-off may leave the value out. */
  function Syscon(n: Node, required: bool): (r: Option<(u64, byte)>) {
    if FirstReg(n).None? || n.value.None? then None
    else if n.value.value.None? then if required then None else Some((FirstReg(n).value.0, 0))
    else if n.value.value.value >= U8_LIMIT then None
    else Some((FirstReg(n).value.0, n.value.value.value))
  }

  /** The first power-off and reset nodes; the search stops once both are known. */
  function FindPower(children: seq<Node>, off: Option<Node>, reset: Option<Node>): (r: Option<(Option<Node>, Option<Node>)>) {
    if children == [] || (off.Some? && reset.Some?) then Some((off, reset))
    else
      var n := children[0];
      if Has(n, Poweroff).None? then None
      else FindPower(children[1..], if off.None? && Has(n, Poweroff).value then Some(n) else off,
                     if reset.None? && Has(n, Reboot).value then Some(n) else reset)
  }

  function FadtOf(children: seq<Node>): (p: Option<FadtPlan>) {
    var found := FindPower(children, None, None);
    if found.None? || found.value.0.None? then None
    else
      var off := Syscon(found.value.0.value, false);
      if off.None? then None
      else if found.value.1.None? then Some(FadtPlan(off.value.0, None, 0, off.value.1))
      else
        var reset := Syscon(found.value.1.value, true);
        if reset.None? then None else Some(FadtPlan(off.value.0, Some(reset.value.0), reset.value.1, off.value.1))
  }

  method ExtractFadt(children: seq<Node>) returns (r: Result<FadtPlan, DtbError>)
    ensures r.Success? <==> FadtOf(children).Some?
    ensures r.Success? ==> r.value == FadtOf(children).value
  {
    var off: Option<Node>, reset: Option<Node> := None, None;
    var i := 0;
    while i < |children| && !(off.Some? && reset.Some?)
      invariant i <= |children| && FindPower(children, None, None) == FindPower(children[i..], off, reset)
    {
      var n := children[i];
      if off.None? && Has(n, Poweroff).None? { return Failure(Dtb); }
      if reset.None? && Has(n, Reboot).None? { return Failure(Dtb); }
      if off.None? && Has(n, Poweroff).value { off := Some(n); }
      if reset.None? && Has(n, Reboot).value { reset := Some(n); }
      assert children[i..][1..] == children[i + 1..];
      i := i + 1;
    }
    if off.None? { return Failure(Dtb); }
    var sleep := Syscon(off.value, false);
    if sleep.None? { return Failure(Dtb); }
    if reset.None? { return Success(FadtPlan(sleep.value.0, None, 0, sleep.value.1)); }
    var again := Syscon(reset.value, true);
    if again.None? { return Failure(Dtb); }
    return Success(FadtPlan(sleep.value.0, Some(again.value.0), again.value.1, sleep.value.1));
  }

  // ---- what the searches find ----

  predicate Lists(n: Node, c: Compatible) { Has(n, c) == Some(true) }

  /** `found` is the first child that lists `c`, if any does. */
  ghost predicate IsFirst(children: seq<Node>, c: Compatible, found: Option<Node>) {
    if found.None? then forall i :: 0 <= i < |children| ==> !Lists(children[i], c)
    else exists i :: 0 <= i < |children| && children[i] == found.value && Lists(children[i], c) && forall j :: 0 <= j < i ==> !Lists(children[j], c)
  }

  /** Both power nodes are among the first `n` children. */
  ghost predicate BothFound(children: seq<Node>, n: nat) {
    && (exists j :: 0 <= j < n && j < |children| && Lists(children[j], Poweroff))
    && (exists k :: 0 <= k < n && k < |children| && Lists(children[k], Reboot))
  }

  predicate Malformed(n: Node) { n.compatible.None? }

  /** Every malformed `compatible` comes after both power nodes. */
  ghost predicate PowerReadable(children: seq<Node>) {
    forall i :: 0 <= i < |children| && Malformed(children[i]) ==> BothFound(children, i)
  }

  /** The search as it stands after the first `n` children: the first of each kind among them, and no
      malformed `compatible` on the way. */
  ghost predicate Searched(children: seq<Node>, n: nat, off: Option<Node>, reset: Option<Node>) {
    && n <= |children| && IsFirst(children[..n], Poweroff, off) && IsFirst(children[..n], Reboot, reset)
    && forall i :: 0 <= i < n ==> !Malformed(children[i])
  }

  lemma {:induction false} SearchOne(children: seq<Node>, n: nat, off: Option<Node>, reset: Option<Node>)
    requires n < |children| && Searched(children, n, off, reset) && !Malformed(children[n])
    ensures
      var c := children[n];
      Searched(children, n + 1, if off.None? && Lists(c, Poweroff) then Some(c) else off, if reset.None? && Lists(c, Reboot) then Some(c) else reset)
  {
    FirstGrows(children, n, Poweroff, off);
    FirstGrows(children, n, Reboot, reset);
    hide IsFirst, Lists;
  }

  lemma {:induction false} FirstGrows(children: seq<Node>, n: nat, c: Compatible, found: Option<Node>)
    requires n < |children| && IsFirst(children[..n], c, found)
    ensures IsFirst(children[..n + 1], c, if found.None? && Lists(children[n], c) then Some(children[n]) else found)
  {
    hide Lists;
    var was, now := children[..n], children[..n + 1];
    assert now == was + [children[n]];
    if found.Some? {
      var i :| 0 <= i < n && was[i] == found.value && Lists(was[i], c) && forall j :: 0 <= j < i ==> !Lists(was[j], c);
      assert now[i] == found.value;
    } else {
      assert forall j :: 0 <= j < n ==> now[j] == was[j];
      assert now[n] == children[n];
    }
  }

  /** A first node among a prefix is the first of all. */
  lemma {:induction false} FirstStays(children: seq<Node>, n: nat, c: Compatible, found: Option<Node>)
    requires n <= |children| && IsFirst(children[..n], c, found) && found.Some?
    ensures IsFirst(children, c, found) && exists j :: 0 <= j < n && Lists(children[j], c)
  {
    hide Lists;
    var i :| 0 <= i < n && children[..n][i] == found.value && Lists(children[..n][i], c) && forall j :: 0 <= j < i ==> !Lists(children[..n][j], c);
    assert children[i] == found.value;
    assert forall j :: 0 <= j < i ==> children[j] == children[..n][j];
  }

  lemma {:induction false} NoneIsFirst(children: seq<Node>, n: nat, c: Compatible)
    requires n <= |children| && IsFirst(children[..n], c, None)
    ensures !exists j :: 0 <= j < n && Lists(children[j], c)
  {
    hide Lists;
    assert forall j :: 0 <= j < n ==> children[..n][j] == children[j];
  }

  lemma {:induction false} SearchEnds(children: seq<Node>, n: nat, off: Option<Node>, reset: Option<Node>)
    requires Searched(children, n, off, reset)
    ensures
      var r := FindPower(children[n..], off, reset);
      && (r.Some? <==> PowerReadable(children))
      && (r.Some? ==> IsFirst(children, Poweroff, r.value.0) && IsFirst(children, Reboot, r.value.1))
    decreases |children| - n
  {
    hide IsFirst, Lists;
    if off.Some? && reset.Some? {
      FirstStays(children, n, Poweroff, off);
      FirstStays(children, n, Reboot, reset);
    } else {
      if off.None? { NoneIsFirst(children, n, Poweroff); } else { NoneIsFirst(children, n, Reboot); }
      if n == |children| {
        assert children[..n] == children;
      } else {
        var c := children[n];
        assert children[n..][0] == c && children[n..][1..] == children[n + 1..];
        if Malformed(c) {
          assert !BothFound(children, n);
        } else {
          SearchOne(children, n, off, reset);
          ListsIs(c);
          SearchEnds(children, n + 1, if off.None? && Lists(c, Poweroff) then Some(c) else off, if reset.None? && Lists(c, Reboot) then Some(c) else reset);
        }
      }
    }
  }

  lemma {:induction false} ListsIs(n: Node)
    requires !Malformed(n)
    ensures Has(n, Poweroff) == Some(Lists(n, Poweroff)) && Has(n, Reboot) == Some(Lists(n, Reboot))
  {}

  /** The power registers come from the first power-off child and the first reset child. They are found
      exactly when every malformed `compatible` comes after both of those, a power-off child exists,
      and both have a usable register and value. */
  lemma {:induction false} FadtMeaning(children: seq<Node>, off: Option<Node>, reset: Option<Node>)
    requires IsFirst(children, Poweroff, off) && IsFirst(children, Reboot, reset)
    ensures FadtOf(children).Some? <==>
      PowerReadable(children) && off.Some? && Syscon(off.value, false).Some? && (reset.Some? ==> Syscon(reset.value, true).Some?)
    ensures FadtOf(children).Some? ==>
      var (p, o) := (FadtOf(children).value, Syscon(off.value, false).value);
      && p.sleep == o.0 && p.sleepValue == o.1
      && (reset.Some? ==> p.reset == Some(Syscon(reset.value, true).value.0) && p.resetValue == Syscon(reset.value, true).value.1)
      && (reset.None? ==> p.reset == None && p.resetValue == 0)
  {
    hide IsFirst, FindPower, Syscon, PowerReadable;
    NothingSearched(children);
    SearchEnds(children, 0, None, None);
    assert children[0..] == children;
    var r := FindPower(children, None, None);
    if r.Some? {
      FirstIsUnique(children, Poweroff, off, r.value.0);
      FirstIsUnique(children, Reboot, reset, r.value.1);
    }
  }

  lemma {:induction false} NothingSearched(children: seq<Node>)
    ensures Searched(children, 0, None, None)
  {}

  lemma {:induction false} FirstIsUnique(children: seq<Node>, c: Compatible, a: Option<Node>, b: Option<Node>)
    requires IsFirst(children, c, a) && IsFirst(children, c, b)
    ensures a == b
  {
    hide Lists;
    if a.Some? && b.Some? {
      var i :| 0 <= i < |children| && children[i] == a.value && Lists(children[i], c) && forall k :: 0 <= k < i ==> !Lists(children[k], c);
      var j :| 0 <= j < |children| && children[j] == b.value && Lists(children[j], c) && forall k :: 0 <= k < j ==> !Lists(children[k], c);
      assert i == j;
    }
  }

  /** The local APIC base is that of the first child listing it; malformed children before it fail. */
  lemma {:induction false} LapicMeaning(children: seq<Node>, i: nat)
    requires i < |children| && Lists(children[i], LocalApic) && forall j :: 0 <= j < i ==> !Lists(children[j], LocalApic)
    ensures LapicOf(children).Some? <==> (forall j :: 0 <= j < i ==> !Malformed(children[j])) && IntcFits(children[i])
    ensures LapicOf(children).Some? ==> LapicOf(children).value == FirstReg(children[i]).value.0
    decreases |children|
  {
    if i > 0 {
      assert forall j :: 0 <= j < i - 1 ==> children[1..][j] == children[j + 1];
      if !Malformed(children[0]) {
        assert !Lists(children[0], LocalApic);
        LapicMeaning(children[1..], i - 1);
        assert forall j :: 1 <= j < i ==> children[j] == children[1..][j - 1];
      }
    }
  }

  // ---- NUMA ----

  datatype Numa = Numa(present: bool, regions: nat, distances: bool)

  predicate MemoryCounts(n: Node) {
    n.status.Some? && n.numaNode.Some? && n.numaNode.value != Some(NUMA_TAG_NONE) && n.reg.Some?
  }

  /** The tags of the memory nodes in order, if every memory node is well-formed. */
  function MemoryTags(children: seq<Node>): (t: Option<seq<u32>>) {
    if children == [] then Some([]) else
      var (front, n) := (MemoryTags(children[..|children| - 1]), children[|children| - 1]);
      if front.None? then None
      else if n.base != MemoryName then front
      else if !MemoryCounts(n) then None
      else Some(front.value + if n.numaNode.value.Some? then [n.numaNode.value.value] else [])
  }

  /** Memory nodes, tagged or not. */
  function MemoryNodes(children: seq<Node>, onlyTagged: bool): (c: nat) {
    if children == [] then 0 else
      var n := children[|children| - 1];
      MemoryNodes(children[..|children| - 1], onlyTagged)
      + if n.base == MemoryName && (!onlyTagged || (n.numaNode.Some? && n.numaNode.value.Some?)) then 1 else 0
  }

  function AllDomains(tree: Tree, cpus: seq<Cpu>): (ids: seq<u32>)
    requires MemoryTags(tree.children).Some?
  {
    DomainsOf(TagsOf(cpus) + MemoryTags(tree.children).value)
  }

  /** Whether and how the tree describes NUMA: all nodes tagged or none, and a distance matrix only
      for two or more domains. */
  function NumaOf(tree: Tree, cpus: seq<Cpu>): (r: Option<Numa>) {
    if MemoryTags(tree.children).None? || |AllDomains(tree, cpus)| > DOMAIN_LIMIT then None
    else if TagsOf(cpus) == [] && MemoryTags(tree.children).value == [] then Some(Numa(false, 0, false))
    else if !AllTagged(cpus) || MemoryNodes(tree.children, true) != MemoryNodes(tree.children, false) then None
    else if |AllDomains(tree, cpus)| > 1 && tree.distances.NoMatrix? then None
    else Some(Numa(true, RegionCount(tree.children), |AllDomains(tree, cpus)| > 1 && tree.distances.Matrix?))
  }

  /** The memory regions of all memory nodes. */
  function RegionCount(children: seq<Node>): (c: nat) {
    if children == [] then 0 else
      var n := children[|children| - 1];
      RegionCount(children[..|children| - 1]) + if n.base == MemoryName && n.reg.Some? then |n.reg.value| else 0
  }

  lemma {:induction false} RegionsAreCounted(children: seq<Node>)
    requires MemoryTags(children).Some?
    ensures CountBytes(MemoryRegions, children) == Some(MEMORY_BYTES * RegionCount(children))
  {
    if children != [] { RegionsAreCounted(children[..|children| - 1]); }
  }

  lemma {:induction false} MemoryStep(children: seq<Node>, i: nat, cpuTags: seq<u32>)
    requires i < |children| && MemoryTags(children[..i]).Some?
    ensures
      var (was, now, n) := (MemoryTags(children[..i]), MemoryTags(children[..i + 1]), children[i]);
      && (now.Some? <==> n.base != MemoryName || MemoryCounts(n))
      && (now.Some? && n.base == MemoryName && n.numaNode.value.Some? ==>
            DomainsOf(cpuTags + now.value) == AddDomain(DomainsOf(cpuTags + was.value), n.numaNode.value.value))
      && (now.Some? && (n.base != MemoryName || n.numaNode.value.None?) ==> now == was)
      && RegionCount(children[..i + 1]) == RegionCount(children[..i]) + (if n.base == MemoryName && n.reg.Some? then |n.reg.value| else 0)
      && MemoryNodes(children[..i + 1], false) == MemoryNodes(children[..i], false) + (if n.base == MemoryName then 1 else 0)
      && (now.Some? ==> MemoryNodes(children[..i + 1], true) == MemoryNodes(children[..i], true) + |now.value| - |was.value|)
      && (now.Some? ==> |now.value| == |was.value| + if n.base == MemoryName && n.numaNode.value.Some? then 1 else 0)
  {
    hide DomainsOf;
    assert children[..i + 1][..i] == children[..i];
    var (was, n) := (MemoryTags(children[..i]).value, children[i]);
    assert was + [] == was;
    if n.base == MemoryName && MemoryCounts(n) && n.numaNode.value.Some? {
      DomainsAppend(cpuTags + was, n.numaNode.value.value);
      assert cpuTags + (was + [n.numaNode.value.value]) == cpuTags + was + [n.numaNode.value.value];
    }
  }

  lemma {:induction false} DomainsAppend(tags: seq<u32>, x: u32)
    ensures DomainsOf(tags + [x]) == AddDomain(DomainsOf(tags), x)
  {
    assert (tags + [x])[..|tags|] == tags;
  }

  lemma {:induction false} MemoryPrefix(children: seq<Node>, i: nat, cpuTags: seq<u32>)
    requires i <= |children| && MemoryTags(children).Some?
    ensures MemoryTags(children[..i]).Some?
    ensures |DomainsOf(cpuTags + MemoryTags(children[..i]).value)| <= |DomainsOf(cpuTags + MemoryTags(children).value)|
    decreases |children| - i
  {
    hide DomainsOf, MemoryTags;
    if i < |children| {
      MemoryPrefix(children, i + 1, cpuTags);
      MemoryTagsBefore(children, i);
      MemoryStep(children, i, cpuTags);
    } else {
      assert children[..i] == children;
    }
  }

  lemma {:induction false} MemoryTagsBefore(children: seq<Node>, i: nat)
    requires i < |children| && MemoryTags(children[..i + 1]).Some?
    ensures MemoryTags(children[..i]).Some?
  {
    assert children[..i + 1][..i] == children[..i];
  }

  /** The memory walk: extends the domains and counts nodes and regions. */
  method WalkMemory(children: seq<Node>, domains: Domains, ghost cpuTags: seq<u32>) returns (r: Result<(nat, nat, nat), DtbError>)
    requires domains.Valid() && domains.Contents() == DomainsOf(cpuTags)
    modifies domains, domains.ids
    ensures domains.Valid()
    ensures r.Success? <==> MemoryTags(children).Some? && |DomainsOf(cpuTags + MemoryTags(children).value)| <= DOMAIN_LIMIT
    ensures r.Success? ==> domains.Contents() == DomainsOf(cpuTags + MemoryTags(children).value)
    ensures r.Success? ==> r.value == (MemoryNodes(children, false), |MemoryTags(children).value|, RegionCount(children))
    ensures r.Success? ==> |MemoryTags(children).value| == MemoryNodes(children, true)
  {
    hide DomainsOf, MemoryTags, MemoryNodes, RegionCount;
    var total, tagged, regions := 0, 0, 0;
    NoMemory(children, cpuTags);
    for i := 0 to |children|
      invariant domains.Valid() && MemoryTags(children[..i]).Some?
      invariant domains.Contents() == DomainsOf(cpuTags + MemoryTags(children[..i]).value)
      invariant total == MemoryNodes(children[..i], false) && regions == RegionCount(children[..i])
      invariant tagged == |MemoryTags(children[..i]).value| == MemoryNodes(children[..i], true)
    {
      var n := children[i];
      MemoryStep(children, i, cpuTags);
      if MemoryTags(children).Some? { MemoryPrefix(children, i + 1, cpuTags); }
      if n.base == MemoryName {
        total := total + 1;
        if n.status.None? { return Failure(Dtb); }
        if n.numaNode.None? { return Failure(Dtb); }
        if n.numaNode.value.Some? {
          if n.numaNode.value.value == NUMA_TAG_NONE { return Failure(Dtb); }
          tagged := tagged + 1;
          var inserted := domains.Insert(n.numaNode.value.value);
          if inserted.Failure? { return Failure(Dtb); }
        }
        if n.reg.None? { return Failure(Dtb); }
        regions := regions + |n.reg.value|;
      }
    }
    assert children[..|children|] == children;
    DomainsStayFew(domains);
    return Success((total, tagged, regions));
  }

  lemma {:induction false} DomainsStayFew(domains: Domains)
    requires domains.Valid()
    ensures |domains.Contents()| <= DOMAIN_LIMIT
  {}

  lemma {:induction false} NoMemory(children: seq<Node>, cpuTags: seq<u32>)
    ensures MemoryTags(children[..0]) == Some([]) && MemoryNodes(children[..0], false) == MemoryNodes(children[..0], true) == RegionCount(children[..0]) == 0
    ensures cpuTags + [] == cpuTags
  {}

  method CountNuma(tree: Tree, w: CpuWalk, domains: Domains, ghost cpus: seq<Cpu>) returns (r: Result<Numa, DtbError>)
    requires domains.Valid() && domains.Contents() == DomainsOf(TagsOf(cpus)) && WalkTotals(cpus, w)
    modifies domains, domains.ids
    ensures domains.Valid()
    ensures r.Success? <==> NumaOf(tree, cpus).Some?
    ensures r.Success? ==> r.value == NumaOf(tree, cpus).value && domains.Contents() == AllDomains(tree, cpus)
  {
    hide DomainsOf, TagsOf, MemoryTags, MemoryNodes, RegionCount, AllTagged, CpuEntries, AffinityBytes;
    var walked :- WalkMemory(tree.children, domains, TagsOf(cpus));
    var (total, tagged, regions) := walked;
    if w.tagged == 0 && tagged == 0 { return Success(Numa(false, 0, false)); }
    if w.untagged > 0 { return Failure(Dtb); }
    if tagged != total { return Failure(Dtb); }
    var distances := false;
    if domains.n > 1 {
      if tree.distances.NoMatrix? { return Failure(Dtb); }
      distances := tree.distances.Matrix?;
    }
    return Success(Numa(true, regions, distances));
  }
}
