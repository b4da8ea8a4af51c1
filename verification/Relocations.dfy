/** The relocation table appended to a kernel, and the section that carries it. */
module Relocations {
  import opened Outcomes
  import opened Words
  import opened KernelImage

  type u32 = x: nat | x < U32_LIMIT

  datatype Section = Section(nobits: bool, offset: u64, size: u64)
  datatype Elf = Elf(segs: seq<Segment>, shoff: u64, shnum: nat, shentsize: nat, sections: seq<Section>)
  /** Image offsets by patch kind. */
  datatype Relocs = Relocs(relocs32: seq<u32>, relocs32neg: seq<u32>, relocs64: seq<u32>)

  // ---- where the table starts ----

  function Saturate(v: nat): (r: nat)
    ensures r < U64_LIMIT && (v < U64_LIMIT ==> r == v)
  {
    if v < U64_LIMIT then v else U64_LIMIT - 1
  }

  function HeaderEnd(elf: Elf): nat { Saturate(elf.shoff + Saturate(elf.shnum * elf.shentsize)) }

  ghost predicate IsTableStart(elf: Elf, n: nat) {
    && HeaderEnd(elf) <= n
    && (forall p :: p in elf.segs ==> Saturate(p.offset + p.filesz) <= n)
    && (forall s :: s in elf.sections && !s.nobits ==> Saturate(s.offset + s.size) <= n)
    && (|| n == HeaderEnd(elf)
        || (exists p :: p in elf.segs && n == Saturate(p.offset + p.filesz))
        || (exists s :: s in elf.sections && !s.nobits && n == Saturate(s.offset + s.size)))
  }

  /** The furthest file offset any ELF structure reaches. */
  method TableStart(elf: Elf) returns (n: nat)
    ensures IsTableStart(elf, n)
  {
    hide Saturate, HeaderEnd;
    n := HeaderEnd(elf);
    for i := 0 to |elf.segs|
      invariant HeaderEnd(elf) <= n
      invariant forall p :: p in elf.segs[..i] ==> Saturate(p.offset + p.filesz) <= n
      invariant n == HeaderEnd(elf) || exists p :: p in elf.segs && n == Saturate(p.offset + p.filesz)
    {
      var p := elf.segs[i];
      assert p in elf.segs;
      if Saturate(p.offset + p.filesz) > n { n := Saturate(p.offset + p.filesz); }
      assert elf.segs[..i + 1] == elf.segs[..i] + [p];
    }
    assert elf.segs[..|elf.segs|] == elf.segs;
    for i := 0 to |elf.sections|
      invariant HeaderEnd(elf) <= n
      invariant forall p :: p in elf.segs ==> Saturate(p.offset + p.filesz) <= n
      invariant forall s :: s in elf.sections[..i] && !s.nobits ==> Saturate(s.offset + s.size) <= n
      invariant
        || n == HeaderEnd(elf)
        || (exists p :: p in elf.segs && n == Saturate(p.offset + p.filesz))
        || (exists s :: s in elf.sections && !s.nobits && n == Saturate(s.offset + s.size))
    {
      var s := elf.sections[i];
      assert s in elf.sections;
      if !s.nobits && Saturate(s.offset + s.size) > n { n := Saturate(s.offset + s.size); }
      assert elf.sections[..i + 1] == elf.sections[..i] + [s];
    }
    assert elf.sections[..|elf.sections|] == elf.sections;
  }

  // ---- words ----

  function WordAt(s: seq<byte>): u32
    requires |s| == 4
  {
    LeValueBound(s);
    WordLimits();
    LeValue(s)
  }

  /** The little-endian words of `t`; a partial last word is dropped. */
  function WordsOf(t: seq<byte>): (w: seq<u32>)
    ensures |w| == |t| / 4
  {
    if |t| < 4 then [] else [WordAt(t[..4])] + WordsOf(t[4..])
  }

  function WordBytes(w: seq<u32>): (t: seq<byte>)
    ensures |t| == 4 * |w|
  {
    if w == [] then [] else Le32(w[0]) + WordBytes(w[1..])
  }

  lemma {:induction false} WordsRoundTrip(w: seq<u32>)
    ensures WordsOf(WordBytes(w)) == w
  {
    hide WordAt;
    if w != [] {
      WordsRoundTrip(w[1..]);
      WordRoundTrip(w[0]);
      var t := WordBytes(w);
      assert t[..4] == Le32(w[0]) && t[4..] == WordBytes(w[1..]);
    }
  }

  lemma {:induction false} WordRoundTrip(v: u32)
    ensures WordAt(Le32(v)) == v
  {
    FixedWidthRoundTrip(v);
  }

  // ---- the table's shape ----

  /** Zero-terminated lists in backward reading order, and the words read since the last terminator. */
  datatype Lists = Lists(done: seq<seq<u32>>, cur: seq<u32>)

  /** Reading a table from its end. */
  function Split(w: seq<u32>): (l: Lists) {
    if w == [] then Lists([], [])
    else
      var l := Split(w[1..]);
      if w[0] == 0 then Lists(l.done + [l.cur], []) else Lists(l.done, l.cur + [w[0]])
  }

  function Reverse(s: seq<u32>): (r: seq<u32>)
    ensures |r| == |s|
  {
    if s == [] then [] else Reverse(s[1..]) + [s[0]]
  }

  lemma {:induction false} ReverseLast(s: seq<u32>, x: u32)
    ensures Reverse(s + [x]) == [x] + Reverse(s)
  {
    if s != [] {
      assert (s + [x])[1..] == s[1..] + [x];
      ReverseLast(s[1..], x);
    }
  }

  lemma {:induction false} ReverseTwice(s: seq<u32>)
    ensures Reverse(Reverse(s)) == s
  {
    if s != [] {
      ReverseLast(Reverse(s[1..]), s[0]);
      ReverseTwice(s[1..]);
    }
  }

  /** The table that reads back as `d`: the last list comes first, each after its terminator. */
  function Table(d: seq<seq<u32>>): seq<u32> {
    if d == [] then [] else [0] + Reverse(d[|d| - 1]) + Table(d[..|d| - 1])
  }

  predicate NoZero(l: Lists) {
    0 !in l.cur && forall i :: 0 <= i < |l.done| ==> 0 !in l.done[i]
  }

  /** Reading loses nothing: the words before the first terminator, then the lists. */
  lemma {:induction false} SplitThenJoin(w: seq<u32>)
    ensures var l := Split(w); NoZero(l) && w == Reverse(l.cur) + Table(l.done)
  {
    hide Reverse, Table, Split, NoZero;
    SplitStep(w);
    if w == [] {
      NothingJoined();
    } else {
      SplitThenJoin(w[1..]);
      assert w == [w[0]] + w[1..];
      JoinStep(Split(w[1..]), w[0]);
    }
  }

  lemma {:induction false} SplitStep(w: seq<u32>)
    ensures w == [] ==> Split(w) == Lists([], [])
    ensures w != [] ==>
      var l := Split(w[1..]);
      Split(w) == (if w[0] == 0 then Lists(l.done + [l.cur], []) else Lists(l.done, l.cur + [w[0]])) && (NoZero(l) ==> NoZero(Split(w)))
  {}

  lemma {:induction false} NothingJoined()
    ensures NoZero(Lists([], [])) && Reverse([]) + Table([]) == []
  {}

  lemma {:induction false} JoinStep(l: Lists, v: u32)
    ensures v == 0 ==> Reverse([]) + Table(l.done + [l.cur]) == [v] + (Reverse(l.cur) + Table(l.done))
    ensures Reverse(l.cur + [v]) + Table(l.done) == [v] + (Reverse(l.cur) + Table(l.done))
  {
    ReverseLast(l.cur, v);
    assert (l.done + [l.cur])[..|l.done|] == l.done;
    assert Reverse([]) == [];
    hide Reverse;
  }

  /** Nonzero words in front of a table only extend the unfinished list. */
  lemma {:induction false} SplitLeading(s: seq<u32>, w: seq<u32>)
    requires 0 !in s
    ensures Split(s + w) == Lists(Split(w).done, Split(w).cur + Reverse(s))
  {
    if s == [] {
      assert s + w == w;
    } else {
      assert (s + w)[1..] == s[1..] + w && (s + w)[0] == s[0] && s[0] in s;
      SplitLeading(s[1..], w);
    }
  }

  lemma {:induction false} SplitList(s: seq<u32>, w: seq<u32>)
    requires 0 !in s
    ensures Split([0] + Reverse(s) + w) == Lists(Split(w).done + [Split(w).cur + s], [])
  {
    ReverseMembers(s);
    ReverseTwice(s);
    SplitLeading(Reverse(s), w);
    var rest := Reverse(s) + w;
    assert [0] + Reverse(s) + w == [0] + rest && ([0] + rest)[1..] == rest;
    hide Reverse;
  }

  /** Reading inverts writing. */
  lemma {:induction false} JoinThenSplit(d: seq<seq<u32>>)
    requires forall i :: 0 <= i < |d| ==> 0 !in d[i]
    ensures Split(Table(d)) == Lists(d, [])
  {
    hide Split, Reverse;
    if d == [] {
      SplitNothing();
    } else {
      JoinThenSplit(d[..|d| - 1]);
      SplitList(d[|d| - 1], Table(d[..|d| - 1]));
      assert [] + d[|d| - 1] == d[|d| - 1];
      assert d == d[..|d| - 1] + [d[|d| - 1]];
    }
  }

  lemma {:induction false} SplitNothing()
    ensures Split([]) == Lists([], [])
  {}

  lemma {:induction false} ReverseMembers(s: seq<u32>)
    ensures forall x :: x in Reverse(s) <==> x in s
  {
    if s != [] {
      ReverseMembers(s[1..]);
      assert s == [s[0]] + s[1..];
    }
  }

  // ---- sites ----

  function SignExtend(w: u32): nat { if w < 0x8000_0000 then w else w + (U64_LIMIT - U32_LIMIT) }

  /** A word names an address in the image when its sign extension does, below 4 GiB. */
  predicate IsSite(w: u32, text: u64, size: nat) {
    text <= SignExtend(w) && SignExtend(w) - text < size && SignExtend(w) - text < U32_LIMIT
  }

  function SiteOffset(w: u32, text: u64): (o: u32) {
    if text <= SignExtend(w) && SignExtend(w) - text < U32_LIMIT then SignExtend(w) - text else 0
  }

  function Offsets(s: seq<u32>, text: u64): (o: seq<u32>)
    ensures |o| == |s| && forall i :: 0 <= i < |s| ==> o[i] == SiteOffset(s[i], text)
  {
    seq(|s|, i requires 0 <= i < |s| => SiteOffset(s[i], text))
  }

  function AllOffsets(d: seq<seq<u32>>, text: u64): (o: seq<seq<u32>>)
    ensures |o| == |d| && forall i :: 0 <= i < |d| ==> o[i] == Offsets(d[i], text)
  {
    seq(|d|, i requires 0 <= i < |d| => Offsets(d[i], text))
  }

  predicate AllSites(w: seq<u32>, text: u64, size: nat) {
    forall i :: 0 <= i < |w| && w[i] != 0 ==> IsSite(w[i], text, size)
  }

  /** What a table of words `w` means, if anything. */
  ghost function Meaning(w: seq<u32>, text: u64, size: nat): Result<Relocs, KernelError> {
    var o := AllOffsets(Split(w).done, text);
    if !AllSites(w, text, size) then Failure(ElfMalformed)
    else if |o| == 2 then Success(Relocs(o[0], [], o[1]))
    else if |o| == 3 then Success(Relocs(o[0], o[1], o[2]))
    else Failure(ElfMalformed)
  }

  /** The virtual address of the first segment at the load base. */
  ghost predicate IsText(segs: seq<Segment>, s: Span, v: u64) {
    exists i :: 0 <= i < |segs| && Occupies(segs[i]) && segs[i].paddr == s.minPaddr && segs[i].vaddr == v
      && forall j :: 0 <= j < i ==> !(Occupies(segs[j]) && segs[j].paddr == s.minPaddr)
  }

  method TextAddress(segs: seq<Segment>, s: Span) returns (v: u64)
    requires IsSpan(segs, s)
    ensures IsText(segs, s, v)
  {
    var i := 0;
    while !(Occupies(segs[i]) && segs[i].paddr == s.minPaddr)
      invariant i < |segs| && forall j :: 0 <= j < i ==> !(Occupies(segs[j]) && segs[j].paddr == s.minPaddr)
      decreases |segs| - i
    {
      i := i + 1;
    }
    v := segs[i].vaddr;
  }

  /** The words of `bytes` read from its end down to `start`. */
  ghost function TableWords(bytes: seq<byte>, start: nat): seq<u32>
    requires start <= |bytes|
  {
    WordsOf(bytes[start + (|bytes| - start) % 4..])
  }

  lemma {:induction false} PreviousWord(bytes: seq<byte>, pos: nat)
    requires 4 <= pos <= |bytes|
    ensures WordsOf(bytes[pos - 4..]) == [WordAt(bytes[pos - 4..pos])] + WordsOf(bytes[pos..])
  {
    hide WordAt;
    var t := bytes[pos - 4..];
    assert t[..4] == bytes[pos - 4..pos] && t[4..] == bytes[pos..];
  }

  /** What has been read so far. */
  ghost predicate ReadSoFar(w: seq<u32>, text: u64, size: nat, lists: seq<seq<u32>>, cur: seq<u32>) {
    AllSites(w, text, size) && lists == AllOffsets(Split(w).done, text) && cur == Offsets(Split(w).cur, text)
  }

  lemma {:induction false} ReadOne(v: u32, w: seq<u32>, text: u64, size: nat, lists: seq<seq<u32>>, cur: seq<u32>)
    requires ReadSoFar(w, text, size, lists, cur)
    ensures v == 0 ==> ReadSoFar([v] + w, text, size, lists + [cur], [])
    ensures v != 0 && IsSite(v, text, size) ==> ReadSoFar([v] + w, text, size, lists, cur + [SiteOffset(v, text)])
  {
    hide IsSite, SiteOffset;
    assert ([v] + w)[1..] == w;
  }

  lemma {:induction false} ReadNothing(bytes: seq<byte>, text: u64, size: nat)
    ensures ReadSoFar(WordsOf(bytes[|bytes|..]), text, size, [], [])
  {}

  lemma {:induction false} BadWord(bytes: seq<byte>, start: nat, pos: nat, text: u64, size: nat)
    requires start + 4 <= pos <= |bytes| && (|bytes| - pos) % 4 == 0
    requires var v := WordAt(bytes[pos - 4..pos]); v != 0 && !IsSite(v, text, size)
    ensures Meaning(TableWords(bytes, start), text, size) == Failure(ElfMalformed)
  {
    hide WordAt, IsSite;
    var first := start + (|bytes| - start) % 4;
    WordIndex(bytes, first, pos);
  }

  lemma {:induction false} WordIndex(bytes: seq<byte>, first: nat, pos: nat)
    requires first + 4 <= pos <= |bytes| && (pos - first) % 4 == 0
    ensures WordsOf(bytes[first..])[(pos - first) / 4 - 1] == WordAt(bytes[pos - 4..pos])
    decreases pos - first
  {
    hide WordAt;
    PreviousWord(bytes, first + 4);
    if pos > first + 4 { WordIndex(bytes, first + 4, pos); }
  }

  /** Reads the appended table backward from the end of the file to the end of the ELF. */
  method ExtractAppendedRelocs(elf: Elf, bytes: seq<byte>)
    returns (r: Result<Relocs, KernelError>, ghost span: Span, ghost text: u64, ghost start: nat)
    ensures !HasSpan(elf.segs) ==> r == Failure(ElfMalformed)
    ensures HasSpan(elf.segs) ==>
      && IsSpan(elf.segs, span) && IsText(elf.segs, span, text) && IsTableStart(elf, start) && span.minPaddr <= span.maxMemEnd
      && r == if start >= |bytes| then Success(Relocs([], [], [])) else Meaning(TableWords(bytes, start), text, span.maxMemEnd - span.minPaddr)
  {
    hide *;
    span, text, start := Span(0, 0, 0), 0, 0;
    var spanned := ElfSpan(elf.segs);
    if spanned.Failure? { return Failure(ElfMalformed), span, text, start; }
    span := spanned.value;
    SpanIsOrdered(elf.segs, span);
    var textVaddr := TextAddress(elf.segs, spanned.value);
    text := textVaddr;
    var imageSize := spanned.value.maxMemEnd - spanned.value.minPaddr;
    var tableStart := TableStart(elf);
    start := tableStart;
    if tableStart >= |bytes| { return Success(Relocs([], [], [])), span, text, start; }
    r := ReadTable(bytes, tableStart, textVaddr, imageSize);
  }

  method ReadTable(bytes: seq<byte>, tableStart: nat, text: u64, imageSize: nat) returns (r: Result<Relocs, KernelError>)
    requires tableStart < |bytes|
    ensures r == Meaning(TableWords(bytes, tableStart), text, imageSize)
  {
    var lists: seq<seq<u32>>, cur: seq<u32> := [], [];
    var pos := |bytes|;
    ReadNothing(bytes, text, imageSize);
    hide *;
    while pos >= tableStart + 4
      invariant tableStart <= pos <= |bytes| && (|bytes| - pos) % 4 == 0
      invariant ReadSoFar(WordsOf(bytes[pos..]), text, imageSize, lists, cur)
      decreases pos
    {
      var v := WordAt(bytes[pos - 4..pos]);
      PreviousWord(bytes, pos);
      ReadOne(v, WordsOf(bytes[pos..]), text, imageSize, lists, cur);
      if v == 0 {
        lists, cur := lists + [cur], [];
      } else {
        if !IsSite(v, text, imageSize) {
          BadWord(bytes, tableStart, pos, text, imageSize);
          return Failure(ElfMalformed);
        }
        cur := cur + [SiteOffset(v, text)];
      }
      pos := pos - 4;
    }
    assert pos == tableStart + (|bytes| - tableStart) % 4;
    ReadAll(bytes, tableStart, text, imageSize, lists, cur);
    if |lists| == 2 { return Success(Relocs(lists[0], [], lists[1])); }
    if |lists| == 3 { return Success(Relocs(lists[0], lists[1], lists[2])); }
    return Failure(ElfMalformed);
  }

  lemma {:induction false} ReadAll(bytes: seq<byte>, start: nat, text: u64, size: nat, lists: seq<seq<u32>>, cur: seq<u32>)
    requires start <= |bytes| && ReadSoFar(WordsOf(bytes[start + (|bytes| - start) % 4..]), text, size, lists, cur)
    ensures Meaning(TableWords(bytes, start), text, size) ==
      if |lists| == 2 then Success(Relocs(lists[0], [], lists[1]))
      else if |lists| == 3 then Success(Relocs(lists[0], lists[1], lists[2]))
      else Failure(ElfMalformed)
  {
    hide WordsOf, AllSites, Split;
  }

  // ---- the reader inverts the kernel's encoder ----

  /** Nonzero words that name image addresses. */
  predicate SiteList(s: seq<u32>, text: u64, size: nat) {
    forall i :: 0 <= i < |s| ==> s[i] != 0 && IsSite(s[i], text, size)
  }

  /** The table layouts: the 64-bit list, the inverse list of older kernels, the 32-bit list. */
  function TwoLists(sites64: seq<u32>, sites32: seq<u32>): seq<u32> { [0] + sites64 + [0] + sites32 }
  function ThreeLists(sites64: seq<u32>, neg: seq<u32>, sites32: seq<u32>): seq<u32> { [0] + sites64 + [0] + neg + [0] + sites32 }

  lemma {:induction false} ListsAsTable(a: seq<u32>, b: seq<u32>, c: seq<u32>)
    ensures TwoLists(a, c) == Table([Reverse(c), Reverse(a)])
    ensures ThreeLists(a, b, c) == Table([Reverse(c), Reverse(b), Reverse(a)])
  {
    ReverseTwice(a);
    ReverseTwice(b);
    ReverseTwice(c);
    var x, y, z := Reverse(c), Reverse(b), Reverse(a);
    var none: seq<seq<u32>> := [];
    assert [x, z][..1] == [x] && [x][..0] == none && [x, y, z][..2] == [x, y] && [x, y][..1] == [x];
    assert Table([x]) == [0] + c;
    assert Table([x, z]) == [0] + a + Table([x]);
    assert Table([x, y]) == [0] + b + Table([x]);
    assert Table([x, y, z]) == [0] + a + Table([x, y]);
    hide Table, Reverse;
  }

  lemma {:induction false} FileTable(pre: seq<byte>, w: seq<u32>)
    ensures TableWords(pre + WordBytes(w), |pre|) == w
  {
    WordsRoundTrip(w);
    assert (pre + WordBytes(w))[|pre|..] == WordBytes(w);
  }

  /** For any two or three lists appended to a file, the reader returns each list, reversed, as image
      offsets under its own label. */
  lemma {:induction false} AppendedTableRoundTrip(pre: seq<byte>, a: seq<u32>, b: seq<u32>, c: seq<u32>, text: u64, size: nat)
    requires SiteList(a, text, size) && SiteList(b, text, size) && SiteList(c, text, size)
    ensures Meaning(TableWords(pre + WordBytes(TwoLists(a, c)), |pre|), text, size)
      == Success(Relocs(Offsets(Reverse(c), text), [], Offsets(Reverse(a), text)))
    ensures Meaning(TableWords(pre + WordBytes(ThreeLists(a, b, c)), |pre|), text, size)
      == Success(Relocs(Offsets(Reverse(c), text), Offsets(Reverse(b), text), Offsets(Reverse(a), text)))
  {
    hide IsSite, Split, Table, Reverse, WordsOf, TableWords;
    FileTable(pre, TwoLists(a, c));
    FileTable(pre, ThreeLists(a, b, c));
    ListsAsTable(a, b, c);
    ReverseMembers(a);
    ReverseMembers(b);
    ReverseMembers(c);
    JoinThenSplit([Reverse(c), Reverse(a)]);
    JoinThenSplit([Reverse(c), Reverse(b), Reverse(a)]);
  }

  /** Words before the first terminator are checked but then dropped. */
  lemma {:induction false} LeadingWordsAreDropped(lead: seq<u32>, w: seq<u32>, text: u64, size: nat)
    requires SiteList(lead, text, size) && w != [] && w[0] == 0
    ensures Meaning(lead + w, text, size) == Meaning(w, text, size)
  {
    SplitLeading(lead, w);
    hide IsSite, Split;
    assert AllSites(lead + w, text, size) <==> AllSites(w, text, size) by {
      forall i | 0 <= i < |w| ensures (lead + w)[|lead| + i] == w[i] {}
    }
  }

  /** Nothing is left over exactly when the table starts with a terminator. */
  lemma {:induction false} NothingIsLeftOver(w: seq<u32>)
    ensures Split(w).cur == [] <==> w == [] || w[0] == 0
  {
    if w != [] && w[0] != 0 { assert |Split(w).cur| > 0; }
  }

  lemma {:induction false} WordsOfBytes(t: seq<byte>)
    requires |t| % 4 == 0
    ensures WordBytes(WordsOf(t)) == t
  {
    if t != [] {
      WordsOfBytes(t[4..]);
      LeBytesOfValue(t[..4]);
      hide LeValue, LeBytes;
      assert t == t[..4] + t[4..];
    }
  }

  /** The bytes behind the ELF are exactly the encoding of the lists that were read if and only if they
      are whole words and the first one is a terminator. */
  lemma {:induction false} TableIsReadCompletely(bytes: seq<byte>, start: nat)
    requires start <= |bytes|
    ensures
      var w := TableWords(bytes, start);
      bytes[start..] == WordBytes(Table(Split(w).done)) <==> (|bytes| - start) % 4 == 0 && (w == [] || w[0] == 0)
  {
    hide Split, Table, WordBytes, WordsOf, Reverse;
    var w := TableWords(bytes, start);
    NothingIsLeftOver(w);
    SplitThenJoin(w);
    var l := Split(w);
    if (|bytes| - start) % 4 == 0 {
      WordsOfBytes(bytes[start..]);
      if l.cur == [] {
        ReverseNothing();
        assert [] + Table(l.done) == Table(l.done);
      }
    }
  }

  lemma {:induction false} ReverseNothing()
    ensures Reverse([]) == []
  {}

  /** The nonzero words of a table. */
  function Nonzero(w: seq<u32>): (n: nat) {
    if w == [] then 0 else Nonzero(w[1..]) + if w[0] == 0 then 0 else 1
  }

  function Total(d: seq<seq<u32>>): (n: nat) {
    if d == [] then 0 else Total(d[..|d| - 1]) + |d[|d| - 1]|
  }

  lemma {:induction false} NonzeroAreSplit(w: seq<u32>)
    ensures Nonzero(w) == |Split(w).cur| + Total(Split(w).done)
  {
    if w != [] {
      NonzeroAreSplit(w[1..]);
      var l := Split(w[1..]);
      assert (l.done + [l.cur])[..|l.done|] == l.done;
    }
  }

  /** A successful reader returns one offset for every nonzero word if and only if the table starts with
      a terminator, as its comment takes for granted; otherwise it silently returns fewer. */
  lemma {:induction false} EveryWordIsReturned(w: seq<u32>, text: u64, size: nat)
    requires Meaning(w, text, size).Success?
    ensures
      var r := Meaning(w, text, size).value;
      && w != [] && |r.relocs64| + |r.relocs32neg| + |r.relocs32| <= Nonzero(w)
      && (|r.relocs64| + |r.relocs32neg| + |r.relocs32| == Nonzero(w) <==> w[0] == 0)
  {
    hide Offsets, AllSites, IsSite, Nonzero;
    var d := Split(w).done;
    NonzeroAreSplit(w);
    NothingIsLeftOver(w);
    TotalOfFew(d);
    SplitNothing();
    hide Split;
  }

  lemma {:induction false} TotalOfFew(d: seq<seq<u32>>)
    ensures |d| == 2 ==> Total(d) == |d[0]| + |d[1]|
    ensures |d| == 3 ==> Total(d) == |d[0]| + |d[1]| + |d[2]|
  {
    if |d| == 3 { TotalOfFew(d[..2]); }
    if |d| == 2 { assert Total(d[..1]) == |d[0]|; }
  }

  /** An offset determines its word, so no two tables of sites share an offset list. */
  lemma {:induction false} OffsetsAreFaithful(x: u32, y: u32, text: u64, size: nat)
    requires IsSite(x, text, size) && IsSite(y, text, size)
    ensures SiteOffset(x, text) == SiteOffset(y, text) ==> x == y
    ensures SiteOffset(x, text) < size && (text + SiteOffset(x, text)) % U32_LIMIT == x
  {}

  // ---- the relocation section ----

  method ToSectionBytes(r: Relocs) returns (v: seq<byte>)
    ensures v == WordBytes(r.relocs64 + r.relocs32neg + r.relocs32)
  {
    var all := r.relocs64 + r.relocs32neg + r.relocs32;
    v := [];
    for i := 0 to |all|
      invariant v == WordBytes(all[..i])
    {
      WordBytesAppend(all[..i], all[i]);
      assert all[..i + 1] == all[..i] + [all[i]];
      v := v + Le32(all[i]);
    }
    assert all[..|all|] == all;
  }

  lemma {:induction false} WordBytesAppend(w: seq<u32>, v: u32)
    ensures WordBytes(w + [v]) == WordBytes(w) + Le32(v)
  {
    if w != [] {
      assert (w + [v])[1..] == w[1..] + [v];
      WordBytesAppend(w[1..], v);
    }
  }

  /** The three slices taken with the recorded counts. */
  function Slices(words: seq<u32>, c64: nat, c32n: nat, c32: nat): (r: Relocs)
    requires c64 + c32n + c32 == |words|
  {
    Relocs(words[c64 + c32n..], words[c64..c64 + c32n], words[..c64])
  }

  /** Slicing the section's words by the recorded counts returns the three lists. */
  lemma {:induction false} SectionRoundTrip(r: Relocs)
    ensures
      var words := WordsOf(WordBytes(r.relocs64 + r.relocs32neg + r.relocs32));
      && |words| == |r.relocs64| + |r.relocs32neg| + |r.relocs32|
      && Slices(words, |r.relocs64|, |r.relocs32neg|, |r.relocs32|) == r
  {
    WordsRoundTrip(r.relocs64 + r.relocs32neg + r.relocs32);
  }
}
