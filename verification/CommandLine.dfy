/** Recognizing the `bootconfig` kernel argument, and the early-console prefix. */
module CommandLine {
  import opened Outcomes
  import opened Words

  const QUOTE: byte := 0x22
  const EQUALS: byte := 0x3D
  const BOOTCONFIG: seq<byte> := [0x62, 0x6F, 0x6F, 0x74, 0x63, 0x6F, 0x6E, 0x66, 0x69, 0x67]
  const DASHES: seq<byte> := [0x2D, 0x2D]

  predicate IsSpace(c: byte) { c == 0x20 || 0x09 <= c <= 0x0D || c == 0xA0 }

  // ---- what the command line means ----

  /** The text before the first NUL. */
  function Text(s: seq<byte>): (t: seq<byte>)
    ensures t <= s && 0 !in t && (|t| < |s| ==> s[|t|] == 0)
  {
    if s == [] || s[0] == 0 then [] else [s[0]] + Text(s[1..])
  }

  /** An odd number of quotes precedes position `i`. */
  function InQuote(t: seq<byte>, i: nat): bool
    requires i <= |t|
  {
    i > 0 && (InQuote(t, i - 1) != (t[i - 1] == QUOTE))
  }

  /** A space outside quotes. */
  predicate Separates(t: seq<byte>, i: nat)
    requires i < |t|
  {
    IsSpace(t[i]) && !InQuote(t, i)
  }

  /** A parameter is a maximal run without separators. */
  ghost predicate IsParam(t: seq<byte>, lo: int, hi: int) {
    && 0 <= lo < hi <= |t| && (lo == 0 || Separates(t, lo - 1)) && (hi == |t| || Separates(t, hi))
    && forall i :: lo <= i < hi ==> !Separates(t, i)
  }

  function Param(t: seq<byte>, lo: int, hi: int): seq<byte> {
    if 0 <= lo <= hi <= |t| then t[lo..hi] else []
  }

  /** The first `=` after the first byte, or 0. */
  function EqualsAt(body: seq<byte>): (e: nat)
    ensures e == 0 <==> forall i :: 0 < i < |body| ==> body[i] != EQUALS
    ensures e > 0 ==> e < |body| && body[e] == EQUALS && forall i :: 0 < i < e ==> body[i] != EQUALS
  {
    if body == [] then 0 else
      var e := EqualsAt(body[..|body| - 1]);
      if e == 0 && |body| > 1 && body[|body| - 1] == EQUALS then |body| - 1 else e
  }

  function Body(param: seq<byte>): seq<byte> {
    if param != [] && param[0] == QUOTE then param[1..] else param
  }

  function Name(param: seq<byte>): seq<byte> {
    var body := Body(param);
    if EqualsAt(body) != 0 then body[..EqualsAt(body)]
    else if param != body && body != [] && body[|body| - 1] == QUOTE then body[..|body| - 1]
    else body
  }

  /** The bare `--` that ends the kernel's own parameters. */
  predicate EndsParams(param: seq<byte>) { EqualsAt(Body(param)) == 0 && Name(param) == DASHES }

  /** A parameter named `bootconfig` comes before the first bare `--`. */
  ghost predicate Requested(t: seq<byte>) {
    exists lo, hi :: IsParam(t, lo, hi) && Name(Param(t, lo, hi)) == BOOTCONFIG && Unended(t, lo)
  }

  ghost predicate Unended(t: seq<byte>, lo: int) {
    forall a, b :: IsParam(t, a, b) && a < lo ==> !EndsParams(Param(t, a, b))
  }

  // ---- the tokenizer ----

  /** The parameters that start before `pos` are neither wanted nor the end. */
  ghost predicate NothingBefore(t: seq<byte>, pos: nat) {
    forall a, b :: IsParam(t, a, b) && a < pos ==> Name(Param(t, a, b)) != BOOTCONFIG && !EndsParams(Param(t, a, b))
  }

  /** Positions at which the outer loop may stand. */
  ghost predicate AtBoundary(t: seq<byte>, pos: nat) {
    pos <= |t| && (pos < |t| ==> !InQuote(t, pos)) && (pos == 0 || pos == |t| || Separates(t, pos))
  }

  method SkipSpaces(t: seq<byte>, from: nat) returns (pos: nat)
    requires AtBoundary(t, from)
    ensures from <= pos <= |t|
    ensures forall i :: from <= i < pos ==> Separates(t, i)
    ensures pos < |t| ==> !IsSpace(t[pos]) && !InQuote(t, pos) && (pos == 0 || Separates(t, pos - 1))
  {
    pos := from;
    while pos < |t| && IsSpace(t[pos])
      invariant from <= pos <= |t|
      invariant pos < |t| ==> !InQuote(t, pos)
      invariant forall i :: from <= i < pos ==> Separates(t, i)
    {
      pos := pos + 1;
    }
  }

  /** Scans one parameter body from `start`: where it ends and where its first `=` is. */
  method ScanBody(t: seq<byte>, start: nat, quoted: bool) returns (end: nat, equals: nat)
    requires start <= |t| && InQuote(t, start) == quoted
    ensures start <= end <= |t|
    ensures end == |t| || Separates(t, end)
    ensures forall i :: start <= i < end ==> !Separates(t, i)
    ensures equals == EqualsAt(t[start..end])
  {
    hide EqualsAt;
    var inQuote := quoted;
    equals := 0;
    end := start;
    NoEquals();
    assert t[start..start] == [];
    while end < |t|
      invariant start <= end <= |t| && inQuote == InQuote(t, end)
      invariant forall i :: start <= i < end ==> !Separates(t, i)
      invariant equals == EqualsAt(t[start..end])
    {
      var c := t[end];
      if IsSpace(c) && !inQuote { return; }
      assert t[start..end + 1] == t[start..end] + [c];
      EqualsStep(t[start..end], c);
      if equals == 0 && c == EQUALS { equals := end - start; }
      if c == QUOTE { inQuote := !inQuote; }
      end := end + 1;
    }
  }

  lemma {:induction false} NoEquals()
    ensures EqualsAt([]) == 0
  {}

  lemma {:induction false} EqualsStep(body: seq<byte>, c: byte)
    ensures EqualsAt(body + [c]) == if EqualsAt(body) == 0 && c == EQUALS then |body| else EqualsAt(body)
  {
    assert (body + [c])[..|body|] == body;
  }

  method BootconfigRequested(line: seq<byte>) returns (r: bool)
    ensures r <==> Requested(Text(line))
  {
    hide Name, EndsParams, IsParam, AtBoundary;
    var t := Text(line);
    var pos := 0;
    LineStart(t);
    while true
      invariant AtBoundary(t, pos) && NothingBefore(t, pos)
      decreases |t| - pos
    {
      var from := pos;
      assert from <= |t| by { BoundaryInside(t, from); }
      pos := SkipSpaces(t, pos);
      SkippedNothing(t, from, pos);
      if pos == |t| {
        LineEnd(t);
        return false;
      }
      var quoted := t[pos] == QUOTE;
      var start := pos + if quoted then 1 else 0;
      assert InQuote(t, start) == quoted;
      var end, equals := ScanBody(t, start, quoted);
      assert !Separates(t, pos);
      ParamHere(t, pos, end);
      var body := t[start..end];
      var name := if equals == 0 then body else body[..equals];
      if quoted && equals == 0 && name != [] && name[|name| - 1] == QUOTE { name := name[..|name| - 1]; }
      NameOf(t, pos, end, body, name);
      assert Name(Param(t, pos, end)) == name && (EndsParams(Param(t, pos, end)) <==> equals == 0 && name == DASHES);
      if equals == 0 && name == DASHES {
        StopHere(t, pos, end);
        return false;
      }
      if name == BOOTCONFIG {
        FoundHere(t, pos, end);
        return true;
      }
      PassParam(t, pos, end);
      pos := end;
    }
  }

  lemma {:induction false} LineStart(t: seq<byte>)
    ensures AtBoundary(t, 0) && NothingBefore(t, 0)
  {}

  lemma {:induction false} BoundaryInside(t: seq<byte>, pos: nat)
    requires AtBoundary(t, pos)
    ensures pos <= |t|
  {}

  lemma {:induction false} SkippedNothing(t: seq<byte>, from: nat, pos: nat)
    requires NothingBefore(t, from) && from <= pos <= |t| && forall i :: from <= i < pos ==> Separates(t, i)
    ensures NothingBefore(t, pos)
  {
    hide Name, EndsParams, Separates;
    forall a, b | IsParam(t, a, b) && a < pos ensures a < from { assert !Separates(t, a); }
  }

  lemma {:induction false} LineEnd(t: seq<byte>)
    requires NothingBefore(t, |t|)
    ensures !Requested(t)
  {
    hide Name, EndsParams;
    forall a, b | IsParam(t, a, b) ensures a < |t| {}
  }

  lemma {:induction false} ParamHere(t: seq<byte>, pos: nat, end: nat)
    requires pos < |t| && pos <= end <= |t| && (pos == 0 || Separates(t, pos - 1)) && (end == |t| || Separates(t, end))
    requires forall i :: pos <= i < end ==> !Separates(t, i)
    requires !Separates(t, pos)
    ensures IsParam(t, pos, end) && AtBoundary(t, end)
  {}

  lemma {:induction false} ParamUnique(t: seq<byte>, lo: int, hi: int, a: int, b: int)
    requires IsParam(t, lo, hi) && IsParam(t, a, b) && lo <= a < hi
    ensures a == lo && b == hi
  {
    hide Separates;
  }

  lemma {:induction false} NameOf(t: seq<byte>, pos: nat, end: nat, body: seq<byte>, name: seq<byte>)
    requires pos < end <= |t| && body == t[pos + (if t[pos] == QUOTE then 1 else 0)..end]
    requires var e := EqualsAt(body);
      name == if e != 0 then body[..e] else if t[pos] == QUOTE && body != [] && body[|body| - 1] == QUOTE then body[..|body| - 1] else body
    ensures Name(Param(t, pos, end)) == name && Body(Param(t, pos, end)) == body
    ensures EndsParams(Param(t, pos, end)) <==> EqualsAt(body) == 0 && name == DASHES
  {
    var param := Param(t, pos, end);
    assert Body(param) == body;
    hide EqualsAt;
  }

  lemma {:induction false} StopHere(t: seq<byte>, pos: nat, end: nat)
    requires IsParam(t, pos, end) && NothingBefore(t, pos) && EndsParams(Param(t, pos, end))
    ensures !Requested(t)
  {
    hide IsParam, EqualsAt, Body;
    forall lo, hi | IsParam(t, lo, hi) && Unended(t, lo) ensures Name(Param(t, lo, hi)) != BOOTCONFIG {
      if lo == pos { SameParam(t, pos, end, hi); }
    }
  }

  lemma {:induction false} SameParam(t: seq<byte>, lo: int, hi: int, b: int)
    requires IsParam(t, lo, hi) && IsParam(t, lo, b)
    ensures b == hi
  {
    ParamUnique(t, lo, hi, lo, b);
  }

  lemma {:induction false} FoundHere(t: seq<byte>, pos: nat, end: nat)
    requires IsParam(t, pos, end) && NothingBefore(t, pos) && Name(Param(t, pos, end)) == BOOTCONFIG
    ensures Requested(t)
  {
    hide IsParam, Name, EndsParams;
  }

  lemma {:induction false} PassParam(t: seq<byte>, pos: nat, end: nat)
    requires IsParam(t, pos, end) && NothingBefore(t, pos) && Name(Param(t, pos, end)) != BOOTCONFIG && !EndsParams(Param(t, pos, end))
    ensures NothingBefore(t, end) && end > pos
  {
    hide Name, EndsParams;
    forall a, b | IsParam(t, a, b) && pos <= a < end ensures a == pos && b == end { ParamUnique(t, pos, end, a, b); }
    hide IsParam;
  }

  // ---- the early-console prefix ----

  const EARLYCON: seq<byte> := [0x65, 0x61, 0x72, 0x6C, 0x79, 0x63, 0x6F, 0x6E]

  /** A Unicode scalar value. */
  type scalar = c: nat | c < 0xD800 || 0xE000 <= c < 0x11_0000

  function Utf8(c: scalar): (b: seq<byte>)
    ensures forall i :: 0 <= i < |b| ==> b[i] == c < 0x80 || b[i] >= 0x80
  {
    if c < 0x80 then [c]
    else if c < 0x800 then [0xC0 + c / 0x40, 0x80 + c % 0x40]
    else if c < 0x1_0000 then [0xE0 + c / 0x1000, 0x80 + c / 0x40 % 0x40, 0x80 + c % 0x40]
    else [0xF0 + c / 0x4_0000, 0x80 + c / 0x1000 % 0x40, 0x80 + c / 0x40 % 0x40, 0x80 + c % 0x40]
  }

  function Encoded(s: seq<scalar>): seq<byte> {
    if s == [] then [] else Utf8(s[0]) + Encoded(s[1..])
  }

  /** The Unicode White_Space property. */
  predicate WhiteSpace(c: scalar) {
    0x09 <= c <= 0x0D || c in {0x20, 0x85, 0xA0, 0x1680, 0x2028, 0x2029, 0x202F, 0x205F, 0x3000} || 0x2000 <= c <= 0x200A
  }

  predicate Blank(s: seq<scalar>) { forall i :: 0 <= i < |s| ==> WhiteSpace(s[i]) }

  /** Some whitespace-separated word is `earlycon` or starts with `earlycon=`. */
  predicate HasEarlycon(s: seq<scalar>) {
    exists lo: nat, hi: nat :: lo < hi <= |s| && !WhiteSpace(s[lo]) && IsWord(s, lo, hi) && (s[lo..hi] == EARLYCON || EARLYCON + [EQUALS] <= s[lo..hi])
  }

  predicate IsWord(s: seq<scalar>, lo: nat, hi: nat)
    requires lo < hi <= |s|
  {
    && (lo == 0 || WhiteSpace(s[lo - 1])) && (hi == |s| || WhiteSpace(s[hi]))
    && forall i :: lo <= i < hi ==> !WhiteSpace(s[i])
  }

  function SerialEarlyconCmdline(serial: bool, line: seq<scalar>): seq<scalar> {
    if !serial || HasEarlycon(line) then line
    else if Blank(line) then EARLYCON
    else EARLYCON + [0x20] + line
  }

  lemma {:induction false} EncodedJoin(s: seq<scalar>, t: seq<scalar>)
    ensures Encoded(s + t) == Encoded(s) + Encoded(t)
  {
    hide Encoded, Utf8;
    EncodedStep(s);
    if s == [] {
      assert s + t == t && [] + Encoded(t) == Encoded(t);
    } else {
      EncodedJoin(s[1..], t);
      EncodedStep(s + t);
      assert (s + t)[1..] == s[1..] + t && (s + t)[0] == s[0];
      assert Utf8(s[0]) + Encoded(s[1..]) + Encoded(t) == Utf8(s[0]) + (Encoded(s[1..]) + Encoded(t));
    }
  }

  lemma {:induction false} EncodedStep(s: seq<scalar>)
    ensures Encoded(s) == if s == [] then [] else Utf8(s[0]) + Encoded(s[1..])
  {
    hide Utf8;
  }

  lemma {:induction false} EncodedAscii(s: seq<scalar>)
    requires forall i :: 0 <= i < |s| ==> s[i] < 0x80
    ensures Encoded(s) == s
  {
    if s != [] { EncodedAscii(s[1..]); }
  }

  lemma {:induction false} BlankHasNoLetters(s: seq<scalar>)
    requires Blank(s)
    ensures 0x62 !in Encoded(s)
  {
    if s != [] {
      BlankHasNoLetters(s[1..]);
      assert 0x62 !in Utf8(s[0]);
    }
  }

  /** A requested bootconfig has its letters in the text. */
  lemma {:induction false} RequestedHasLetters(t: seq<byte>)
    requires Requested(t)
    ensures 0x62 in t
  {
    hide IsParam, Name;
    var lo, hi :| IsParam(t, lo, hi) && Name(Param(t, lo, hi)) == BOOTCONFIG;
    ParamBounds(t, lo, hi);
    NameIsInside(Param(t, lo, hi));
    assert Name(Param(t, lo, hi))[0] in Param(t, lo, hi);
  }

  lemma {:induction false} NameIsInside(param: seq<byte>)
    ensures forall c :: c in Name(param) ==> c in param
  {}

  lemma {:induction false} TextJoin(p: seq<byte>, s: seq<byte>)
    requires 0 !in p
    ensures Text(p + s) == p + Text(s)
  {
    hide Text;
    if p == [] {
      assert p + s == s && p + Text(s) == Text(s);
    } else {
      assert p[0] in p;
      TextJoin(p[1..], s);
      TextStep(p + s);
      assert (p + s)[1..] == p[1..] + s && [p[0]] + p[1..] == p;
      assert [p[0]] + (p[1..] + Text(s)) == p + Text(s);
    }
  }

  lemma {:induction false} TextStep(s: seq<byte>)
    ensures s != [] && s[0] != 0 ==> Text(s) == [s[0]] + Text(s[1..])
  {}

  const PREFIX: seq<byte> := EARLYCON + [0x20]

  lemma {:induction false} ShiftedQuotes(t: seq<byte>, i: nat)
    requires i <= 9 + |t|
    ensures InQuote(PREFIX + t, i) == (i > 9 && InQuote(t, i - 9))
  {
    if i > 0 {
      ShiftedQuotes(t, i - 1);
      assert (PREFIX + t)[i - 1] == if i - 1 < 9 then PREFIX[i - 1] else t[i - 10];
    }
  }

  lemma {:induction false} ShiftedSeparators(t: seq<byte>, i: nat)
    requires i < 9 + |t|
    ensures Separates(PREFIX + t, i) <==> i == 8 || (i > 8 && Separates(t, i - 9))
  {
    ShiftedQuotes(t, i);
    assert (PREFIX + t)[i] == if i < 9 then PREFIX[i] else t[i - 9];
  }

  /** The parameters of the prefixed line: the prefix, and the old ones nine bytes later. */
  lemma {:induction false} ShiftedParams(t: seq<byte>, lo: int, hi: int)
    ensures IsParam(PREFIX + t, lo, hi) <==> (lo == 0 && hi == 8) || (lo >= 9 && IsParam(t, lo - 9, hi - 9))
    ensures lo >= 9 ==> Param(PREFIX + t, lo, hi) == Param(t, lo - 9, hi - 9)
  {
    hide Separates;
    var u := PREFIX + t;
    forall i | 0 <= i < |u| ensures Separates(u, i) <==> i == 8 || (i > 8 && Separates(t, i - 9)) { ShiftedSeparators(t, i); }
    assert |u| == 9 + |t| && Separates(u, 8);
    ShiftedRuns(t, u, lo, hi);
    if 9 <= lo <= hi <= |u| { assert u[lo..hi] == t[lo - 9..hi - 9]; }
  }

  /** Parameters move with the separators. */
  lemma {:induction false} ShiftedRuns(t: seq<byte>, u: seq<byte>, lo: int, hi: int)
    requires |u| == 9 + |t| && forall i :: 0 <= i < |u| ==> (Separates(u, i) <==> i == 8 || (i > 8 && Separates(t, i - 9)))
    ensures IsParam(u, lo, hi) <==> (lo == 0 && hi == 8) || (lo >= 9 && IsParam(t, lo - 9, hi - 9))
  {
    hide Separates;
    assert Separates(u, 8);
    if lo >= 9 && IsParam(u, lo, hi) {
      forall i | lo - 9 <= i < hi - 9 ensures !Separates(t, i) { assert !Separates(u, i + 9); }
    }
  }

  lemma {:induction false} PrefixIsNeutral(t: seq<byte>)
    ensures Requested(PREFIX + t) <==> Requested(t)
  {
    hide Name, EndsParams, IsParam, Param;
    var u := PREFIX + t;
    EarlyconIsOrdinary(t);
    if Requested(t) {
      var lo, hi :| IsParam(t, lo, hi) && Name(Param(t, lo, hi)) == BOOTCONFIG && Unended(t, lo);
      ShiftedParams(t, lo + 9, hi + 9);
      ParamBounds(t, lo, hi);
      forall a, b | IsParam(u, a, b) && a < lo + 9 ensures !EndsParams(Param(u, a, b)) {
        ShiftedParams(t, a, b);
        ParamBounds(u, a, b);
      }
      assert Unended(u, lo + 9);
    }
    if Requested(u) {
      var lo, hi :| IsParam(u, lo, hi) && Name(Param(u, lo, hi)) == BOOTCONFIG && Unended(u, lo);
      ShiftedParams(t, lo, hi);
      ParamBounds(u, lo, hi);
      forall a, b | IsParam(t, a, b) && a < lo - 9 ensures !EndsParams(Param(t, a, b)) {
        ShiftedParams(t, a + 9, b + 9);
        ParamBounds(t, a, b);
      }
      assert Unended(t, lo - 9);
    }
  }

  lemma {:induction false} ParamBounds(t: seq<byte>, lo: int, hi: int)
    requires IsParam(t, lo, hi)
    ensures 0 <= lo < hi <= |t|
  {}

  lemma {:induction false} EarlyconIsOrdinary(t: seq<byte>)
    ensures Param(PREFIX + t, 0, 8) == EARLYCON && Name(EARLYCON) != BOOTCONFIG && !EndsParams(EARLYCON)
  {
    assert (PREFIX + t)[0..8] == PREFIX[..8] == EARLYCON;
    assert EqualsAt(EARLYCON) == 0;
  }

  /** The early-console rewrite never changes whether bootconfig is requested. */
  lemma {:induction false} EarlyconKeepsBootconfig(serial: bool, line: seq<scalar>)
    ensures Requested(Text(Encoded(SerialEarlyconCmdline(serial, line)))) <==> Requested(Text(Encoded(line)))
  {
    hide Requested, HasEarlycon, Encoded, Text;
    if serial && !HasEarlycon(line) {
      EncodedAscii(PREFIX);
      EncodedAscii(EARLYCON);
      if Blank(line) {
        BlankHasNoLetters(line);
        var t := Text(Encoded(line));
        if Requested(t) { RequestedHasLetters(t); }
        TextJoin(EARLYCON, []);
        assert EARLYCON + [] == EARLYCON;
        assert Text(EARLYCON) == EARLYCON + Text([]);
        if Requested(Text(EARLYCON)) { RequestedHasLetters(EARLYCON); }
      } else {
        EncodedJoin(PREFIX, line);
        TextJoin(PREFIX, Encoded(line));
        PrefixIsNeutral(Text(Encoded(line)));
      }
    }
  }
}
