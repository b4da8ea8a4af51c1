/** The distance table, filled in place with 0 as the mark of an unwritten cell. */
module Slit {
  import opened Outcomes
  import opened Words
  import opened Buffers
  import opened AcpiCore
  import opened DeviceTree

  /** One cell triple of `distance-matrix`. */
  datatype Triple = Triple(from: u32, to: u32, val: u32)

  // ---- the input ----

  function Be32(b: seq<byte>): u32
    requires |b| == 4
  {
    var le := [b[3], b[2], b[1], b[0]];
    LeValueBound(le);
    WordLimits();
    LeValue(le)
  }

  predicate WholeTriples(raw: seq<byte>) { raw != [] && |raw| % 12 == 0 }

  function TripleAt(raw: seq<byte>, k: nat): Triple
    requires 12 * k + 12 <= |raw|
  {
    Triple(Be32(raw[12 * k..12 * k + 4]), Be32(raw[12 * k + 4..12 * k + 8]), Be32(raw[12 * k + 8..12 * k + 12]))
  }

  function Triples(raw: seq<byte>): (ts: seq<Triple>)
    ensures |ts| == |raw| / 12 && forall k :: 0 <= k < |ts| ==> ts[k] == TripleAt(raw, k)
  {
    seq<Triple>(|raw| / 12, k requires 0 <= k < |raw| / 12 => TripleAt(raw, k))
  }

  /** The first position of a domain. */
  function IndexOf(ids: seq<u32>, pd: u32): (i: Option<nat>)
    ensures i.Some? ==> i.value < |ids| && ids[i.value] == pd
    ensures i.None? <==> pd !in ids
  {
    if ids == [] then None
    else if ids[0] == pd then Some(0)
    else
      var i := IndexOf(ids[1..], pd);
      if i.None? then None else Some(i.value + 1)
  }

  predicate Known(ids: seq<u32>, t: Triple) { IndexOf(ids, t.from).Some? && IndexOf(ids, t.to).Some? }

  /** Known domains, an 8-bit distance of at least 10, and exactly 10 to itself. */
  predicate Good(ids: seq<u32>, t: Triple) {
    Known(ids, t) && t.val < U8_LIMIT && (if IndexOf(ids, t.from) == IndexOf(ids, t.to) then t.val == 10 else t.val >= 10)
  }

  /** The triple speaks about the pair `i`, `j`, in either direction. */
  predicate About(ids: seq<u32>, t: Triple, i: nat, j: nat) {
    Known(ids, t) && (
      || (IndexOf(ids, t.from).value == i && IndexOf(ids, t.to).value == j)
      || (IndexOf(ids, t.from).value == j && IndexOf(ids, t.to).value == i))
  }

  ghost predicate Agree(ids: seq<u32>, t: Triple, u: Triple) {
    forall i, j :: About(ids, t, i, j) && About(ids, u, i, j) ==> t.val == u.val
  }

  /** Every triple is good and no two disagree about a pair. */
  ghost predicate Accepted(ids: seq<u32>, ts: seq<Triple>) {
    (forall t :: t in ts ==> Good(ids, t)) && forall t, u :: t in ts && u in ts ==> Agree(ids, t, u)
  }

  // ---- the distances ----

  /** What the last triple about the pair says. */
  function Given(ids: seq<u32>, ts: seq<Triple>, i: nat, j: nat): (v: Option<u32>) {
    if ts == [] then None
    else if About(ids, ts[|ts| - 1], i, j) then Some(ts[|ts| - 1].val)
    else Given(ids, ts[..|ts| - 1], i, j)
  }

  function Distance(ids: seq<u32>, ts: seq<Triple>, i: nat, j: nat): nat {
    if i == j then 10 else if Given(ids, ts, i, j).Some? then Given(ids, ts, i, j).value else 20
  }

  lemma {:induction false} GivenIsSaid(ids: seq<u32>, ts: seq<Triple>, i: nat, j: nat)
    ensures Given(ids, ts, i, j).Some? ==> exists t :: t in ts && About(ids, t, i, j) && t.val == Given(ids, ts, i, j).value
    ensures Given(ids, ts, i, j).None? ==> forall t :: t in ts ==> !About(ids, t, i, j)
  {
    hide About;
    if ts != [] {
      GivenIsSaid(ids, ts[..|ts| - 1], i, j);
      assert ts == ts[..|ts| - 1] + [ts[|ts| - 1]];
    }
  }

  /** Under acceptance, every triple about a pair says the given distance. */
  lemma {:induction false} GivenIsUnique(ids: seq<u32>, ts: seq<Triple>, t: Triple, i: nat, j: nat)
    requires Accepted(ids, ts) && t in ts && About(ids, t, i, j)
    ensures Given(ids, ts, i, j) == Some(t.val)
  {
    hide About, Good;
    GivenIsSaid(ids, ts, i, j);
    var g := Given(ids, ts, i, j);
    if g.Some? {
      var u :| u in ts && About(ids, u, i, j) && u.val == g.value;
      assert Agree(ids, t, u);
    }
  }

  lemma {:induction false} GivenIsSymmetric(ids: seq<u32>, ts: seq<Triple>, i: nat, j: nat)
    ensures Given(ids, ts, i, j) == Given(ids, ts, j, i)
  {
    if ts != [] { GivenIsSymmetric(ids, ts[..|ts| - 1], i, j); }
  }

  /** The matrix is symmetric with 10 on the diagonal and one byte of at least 10 elsewhere; every
      triple holds in both directions and unmentioned pairs are 20. */
  lemma {:induction false} DistanceMeaning(ids: seq<u32>, ts: seq<Triple>, i: nat, j: nat)
    requires Accepted(ids, ts) && i < |ids| && j < |ids|
    ensures Distance(ids, ts, i, j) == Distance(ids, ts, j, i) && Distance(ids, ts, i, i) == 10
    ensures 10 <= Distance(ids, ts, i, j) < U8_LIMIT
    ensures forall t :: t in ts && About(ids, t, i, j) ==> Distance(ids, ts, i, j) == t.val
    ensures i != j && (forall t :: t in ts ==> !About(ids, t, i, j)) ==> Distance(ids, ts, i, j) == 20
  {
    hide About;
    GivenIsSymmetric(ids, ts, i, j);
    GivenIsSaid(ids, ts, i, j);
    forall t | t in ts && About(ids, t, i, j) ensures Distance(ids, ts, i, j) == t.val {
      GivenIsUnique(ids, ts, t, i, j);
      if i == j { SelfTriple(ids, t, i); }
    }
    if i != j && Given(ids, ts, i, j).Some? {
      var t :| t in ts && About(ids, t, i, j) && t.val == Given(ids, ts, i, j).value;
      assert Good(ids, t);
    }
  }

  lemma {:induction false} SelfTriple(ids: seq<u32>, t: Triple, i: nat)
    requires Good(ids, t) && About(ids, t, i, i)
    ensures t.val == 10
  {}

  /** The order and repetition of triples do not matter. */
  lemma {:induction false} OrderDoesNotMatter(ids: seq<u32>, ts: seq<Triple>, us: seq<Triple>, i: nat, j: nat)
    requires forall t :: t in ts <==> t in us
    ensures Accepted(ids, ts) <==> Accepted(ids, us)
    ensures Accepted(ids, ts) ==> Distance(ids, ts, i, j) == Distance(ids, us, i, j)
  {
    hide About, Good, Agree, Given;
    if Accepted(ids, ts) {
      GivenIsSaid(ids, ts, i, j);
      GivenIsSaid(ids, us, i, j);
      var g := Given(ids, ts, i, j);
      if g.Some? {
        var t :| t in ts && About(ids, t, i, j) && t.val == g.value;
        GivenIsUnique(ids, us, t, i, j);
      }
    }
  }

  // ---- the matrix in memory ----

  function Square(n: nat): nat { n * n }

  /** Row-major position. */
  function At(n: nat, i: nat, j: nat): nat { i * n + j }

  lemma {:induction false} AtInside(n: nat, i: nat, j: nat)
    requires i < n && j < n
    ensures At(n, i, j) < Square(n) && At(n, i, j) / n == i && At(n, i, j) % n == j
  {
    MulKeepsOrder(n, i + 1, n);
    assert n * (i + 1) == i * n + n && i * n == n * i;
    DivideUnique(At(n, i, j), n, i, j);
  }

  lemma {:induction false} EveryCell(n: nat, c: nat)
    requires c < Square(n)
    ensures n > 0 && c / n < n && c % n < n && At(n, c / n, c % n) == c
  {
    assert n > 0;
    var q := c / n;
    assert c == n * q + c % n && n * q == q * n;
    if q >= n { MulKeepsOrder(n, n, q); }
  }

  /** The cells after some triples: 10 on the diagonal, 0 where nothing was written. */
  function Cell(ids: seq<u32>, ts: seq<Triple>, i: nat, j: nat): nat {
    if i == j then 10 else if Given(ids, ts, i, j).Some? then Given(ids, ts, i, j).value else 0
  }

  function Matrix(ids: seq<u32>, ts: seq<Triple>): (m: seq<byte>)
    ensures |m| == Square(|ids|)
  {
    var n := |ids|;
    seq<byte>(Square(n), c requires 0 <= c < Square(n) =>
      assert n > 0;
      var d := Distance(ids, ts, c / n, c % n);
      if d < U8_LIMIT then d else 0)
  }

  /** The matrix holds the cells reached after some triples. */
  ghost predicate HoldsCells(m: seq<byte>, ids: seq<u32>, ts: seq<Triple>) {
    |m| == Square(|ids|) && forall c :: 0 <= c < |m| ==> m[c] == CellAt(ids, ts, |ids|, c)
  }

  /** Writing one cell of a matrix that lies in a buffer. */
  lemma {:induction false} PutCell(before: seq<byte>, base: nat, m: seq<byte>, c: nat, v: byte)
    requires base + |m| <= |before| && c < |m|
    ensures Put(before, base, m)[base + c := v] == Put(before, base, m[c := v])
  {}

  lemma {:induction false} PutSlice(b: seq<byte>, base: nat, n: nat)
    requires base + n <= |b|
    ensures Put(b, base, b[base..base + n]) == b
  {}

  lemma {:induction false} ReadCell(before: seq<byte>, base: nat, m: seq<byte>, c: nat)
    requires base + |m| <= |before| && c < |m|
    ensures Put(before, base, m)[base + c] == m[c]
  {}

  function CellAt(ids: seq<u32>, ts: seq<Triple>, n: nat, c: nat): nat {
    if n == 0 then 0 else Cell(ids, ts, c / n, c % n)
  }

  method ZeroMatrix(buf: array<byte>, base: nat, size: nat) returns (ghost m: seq<byte>)
    requires base + size <= buf.Length
    modifies buf
    ensures |m| == size && (forall c :: 0 <= c < size ==> m[c] == 0) && buf[..] == Put(old(buf[..]), base, m)
  {
    hide Put;
    ghost var before := buf[..];
    m := buf[base..base + size];
    PutSlice(before, base, size);
    for c := 0 to size
      invariant |m| == size && buf[..] == Put(before, base, m)
      invariant forall k :: 0 <= k < c ==> m[k] == 0
    {
      PutCell(before, base, m, c, 0);
      m := m[c := 0];
      buf[base + c] := 0;
    }
  }

  /** Zeros everywhere, then 10 along the diagonal. */
  method InitMatrix(buf: array<byte>, base: nat, ids: seq<u32>) returns (ghost m: seq<byte>)
    requires base + Square(|ids|) <= buf.Length
    modifies buf
    ensures HoldsCells(m, ids, []) && base + |m| <= buf.Length && buf[..] == Put(old(buf[..]), base, m)
  {
    hide Square, At, MarkedTo, Put, HoldsCells;
    var n := |ids|;
    ghost var before := buf[..];
    m := ZeroMatrix(buf, base, Square(n));
    NoneMarked(m, n);
    for i := 0 to n
      invariant |m| == Square(n) && buf[..] == Put(before, base, m)
      invariant MarkedTo(m, n, i)
    {
      AtInside(n, i, i);
      MarkOne(m, n, i);
      PutCell(before, base, m, At(n, i, i), 10);
      m := m[At(n, i, i) := 10];
      buf[base + At(n, i, i)] := 10;
    }
    AllMarked(m, ids);
  }

  /** The diagonal is marked as far as row `i`, and nothing else. */
  ghost predicate MarkedTo(m: seq<byte>, n: nat, i: nat) {
    |m| == Square(n) && forall c :: 0 <= c < |m| ==> m[c] == Diagonal(n, i, c)
  }

  lemma {:induction false} NoneMarked(m: seq<byte>, n: nat)
    requires |m| == Square(n) && forall c :: 0 <= c < |m| ==> m[c] == 0
    ensures MarkedTo(m, n, 0)
  {
    hide Square;
  }

  lemma {:induction false} MarkOne(m: seq<byte>, n: nat, i: nat)
    requires MarkedTo(m, n, i) && i < n
    ensures At(n, i, i) < |m| && MarkedTo(m[At(n, i, i) := 10], n, i + 1)
  {
    hide Square, At, Diagonal;
    AtInside(n, i, i);
    var marked := m[At(n, i, i) := 10];
    forall c: nat | c < |m| ensures marked[c] == Diagonal(n, i + 1, c) { DiagonalStep(n, i, c); }
  }

  lemma {:induction false} AllMarked(m: seq<byte>, ids: seq<u32>)
    requires MarkedTo(m, |ids|, |ids|)
    ensures HoldsCells(m, ids, [])
  {
    hide Square, Diagonal, CellAt;
    DiagonalIsCells(ids);
    forall c: nat | c < |m| ensures m[c] == CellAt(ids, [], |ids|, c) { assert m[c] == Diagonal(|ids|, |ids|, c); }
  }

  /** The diagonal as far as row `i`. */
  function Diagonal(n: nat, i: nat, c: nat): nat {
    if n > 0 && c / n == c % n && c / n < i then 10 else 0
  }

  lemma {:induction false} DiagonalStep(n: nat, i: nat, c: nat)
    requires i < n && c < Square(n)
    ensures Diagonal(n, i + 1, c) == if c == At(n, i, i) then 10 else Diagonal(n, i, c)
  {
    AtInside(n, i, i);
    EveryCell(n, c);
    hide Square, At;
  }

  lemma {:induction false} DiagonalIsCells(ids: seq<u32>)
    ensures forall c: nat :: c < Square(|ids|) ==> Diagonal(|ids|, |ids|, c) == CellAt(ids, [], |ids|, c)
  {
    var n := |ids|;
    forall c: nat | c < Square(n) ensures Diagonal(n, n, c) == CellAt(ids, [], n, c) { EveryCell(n, c); }
  }

  lemma {:induction false} NewTriple(ids: seq<u32>, ts: seq<Triple>, t: Triple, c: nat)
    requires Known(ids, t) && c < Square(|ids|)
    ensures
      var (n, i, j) := (|ids|, IndexOf(ids, t.from).value, IndexOf(ids, t.to).value);
      CellAt(ids, ts + [t], n, c) ==
        if i != j && (c == At(n, i, j) || c == At(n, j, i)) then t.val else CellAt(ids, ts, n, c)
  {
    var (n, i, j) := (|ids|, IndexOf(ids, t.from).value, IndexOf(ids, t.to).value);
    EveryCell(n, c);
    AtInside(n, i, j);
    AtInside(n, j, i);
    assert (ts + [t])[..|ts|] == ts;
    hide Square, At;
  }

  /** Whether a new triple may follow accepted ones: it is good and its pair is free or agrees. */
  lemma {:induction false} AcceptOneMore(ids: seq<u32>, ts: seq<Triple>, t: Triple)
    requires Accepted(ids, ts)
    ensures Accepted(ids, ts + [t]) <==>
      Good(ids, t) && (var (i, j) := (IndexOf(ids, t.from).value, IndexOf(ids, t.to).value);
                       i == j || Given(ids, ts, i, j).None? || Given(ids, ts, i, j).value == t.val)
  {
    hide Given;
    assert forall u :: u in ts + [t] <==> u in ts || u == t;
    if Good(ids, t) {
      var (i, j) := (IndexOf(ids, t.from).value, IndexOf(ids, t.to).value);
      assert About(ids, t, i, j);
      GivenIsSaid(ids, ts, i, j);
      if i == j || Given(ids, ts, i, j).None? || Given(ids, ts, i, j).value == t.val {
        forall u | u in ts ensures Agree(ids, t, u) && Agree(ids, u, t) { AgreesWithEarlier(ids, ts, t, u); }
        assert Agree(ids, t, t);
        hide Agree, Good;
      } else {
        var u :| u in ts && About(ids, u, i, j) && u.val == Given(ids, ts, i, j).value;
        assert !Agree(ids, t, u);
        hide Agree, Good;
      }
    }
  }

  lemma {:induction false} AgreesWithEarlier(ids: seq<u32>, ts: seq<Triple>, t: Triple, u: Triple)
    requires Accepted(ids, ts) && Good(ids, t) && u in ts
    requires var (i, j) := (IndexOf(ids, t.from).value, IndexOf(ids, t.to).value);
      i == j || Given(ids, ts, i, j).None? || Given(ids, ts, i, j).value == t.val
    ensures Agree(ids, t, u) && Agree(ids, u, t)
  {
    hide Given;
    var (i, j) := (IndexOf(ids, t.from).value, IndexOf(ids, t.to).value);
    GivenIsSaid(ids, ts, i, j);
    if About(ids, u, i, j) {
      GivenIsUnique(ids, ts, u, i, j);
      if i == j { SelfTriple(ids, u, i); }
    }
  }

  /** A prefix of accepted triples is accepted. */
  lemma {:induction false} AcceptedPrefix(ids: seq<u32>, ts: seq<Triple>, k: nat)
    requires k <= |ts| && Accepted(ids, ts)
    ensures Accepted(ids, ts[..k])
  {
    hide Good, Agree;
    assert forall t :: t in ts[..k] ==> t in ts;
  }

  /** Stores the triples one by one, rereading cells to detect disagreement. */
  method StoreTriples(buf: array<byte>, base: nat, ids: seq<u32>, ts: seq<Triple>, ghost before: seq<byte>, ghost m0: seq<byte>)
    returns (r: Result<(), DtbError>, ghost m: seq<byte>)
    requires HoldsCells(m0, ids, []) && base + |m0| <= |before| && buf[..] == Put(before, base, m0)
    modifies buf
    ensures r.Success? <==> Accepted(ids, ts)
    ensures r.Success? ==> HoldsCells(m, ids, ts) && base + |m| <= |before| && buf[..] == Put(before, base, m)
  {
    hide Square, At, IndexOf, About, Agree, Good, Accepted, CellAt, Given, Cell, HoldsCells, Put;
    m := m0;
    assert ts[..0] == [];
    NothingAccepted(ids);
    for k := 0 to |ts|
      invariant Accepted(ids, ts[..k]) && HoldsCells(m, ids, ts[..k])
      invariant base + |m| <= |before| && buf[..] == Put(before, base, m)
    {
      assert ts[..k + 1] == ts[..k] + [ts[k]];
      if Accepted(ids, ts) { AcceptedPrefix(ids, ts, k + 1); }
      var stored, m1 := StoreTriple(buf, base, ids, ts[k], before, ts[..k], m);
      if stored.Failure? { return Failure(Dtb), m; }
      m := m1;
    }
    assert ts[..|ts|] == ts;
    return Success(()), m;
  }

  /** One triple: checks it, compares both cells of its pair and sets them. */
  method StoreTriple(buf: array<byte>, base: nat, ids: seq<u32>, t: Triple, ghost before: seq<byte>, ghost ts: seq<Triple>, ghost m0: seq<byte>)
    returns (r: Result<(), DtbError>, ghost m: seq<byte>)
    requires Accepted(ids, ts) && HoldsCells(m0, ids, ts) && base + |m0| <= |before| && buf[..] == Put(before, base, m0)
    modifies buf
    ensures r.Success? <==> Accepted(ids, ts + [t])
    ensures r.Success? ==> HoldsCells(m, ids, ts + [t]) && |m| == |m0| && buf[..] == Put(before, base, m)
  {
    hide Square, At, IndexOf, About, Agree, Good, Accepted, CellAt, Given, Cell, HoldsCells, Put;
    m := m0;
    var n := |ids|;
    var from, to := IndexOf(ids, t.from), IndexOf(ids, t.to);
    AcceptOneMore(ids, ts, t);
    GoodParts(ids, t);
    if from.None? || to.None? { return Failure(Dtb), m; }
    if t.val >= U8_LIMIT { return Failure(Dtb), m; }
    var i, j := from.value, to.value;
    AtInside(n, i, j);
    AtInside(n, j, i);
    StoredTriple(ids, ts, t, m0);
    if i == j {
      if t.val != 10 { return Failure(Dtb), m; }
      return Success(()), m;
    }
    if t.val < 10 { return Failure(Dtb), m; }
    ReadCell(before, base, m, At(n, i, j));
    ReadCell(before, base, m, At(n, j, i));
    var ij, ji := buf[base + At(n, i, j)], buf[base + At(n, j, i)];
    CellsOfPair(ids, ts, m, i, j);
    if (ij != 0 && ij != t.val) || (ji != 0 && ji != t.val) { return Failure(Dtb), m; }
    PutCell(before, base, m, At(n, i, j), t.val);
    m := m[At(n, i, j) := t.val];
    buf[base + At(n, i, j)] := t.val;
    PutCell(before, base, m, At(n, j, i), t.val);
    m := m[At(n, j, i) := t.val];
    buf[base + At(n, j, i)] := t.val;
    return Success(()), m;
  }

  lemma {:induction false} StoredTriple(ids: seq<u32>, ts: seq<Triple>, t: Triple, m: seq<byte>)
    requires Known(ids, t) && HoldsCells(m, ids, ts) && t.val < U8_LIMIT
    ensures |m| == Square(|ids|)
    ensures
      var (n, i, j) := (|ids|, IndexOf(ids, t.from).value, IndexOf(ids, t.to).value);
      && At(n, i, j) < |m| && At(n, j, i) < |m|
      && HoldsCells(if i == j then m else m[At(n, i, j) := t.val][At(n, j, i) := t.val], ids, ts + [t])
  {
    hide Square, IndexOf, At, CellAt;
    var (n, i, j) := (|ids|, IndexOf(ids, t.from).value, IndexOf(ids, t.to).value);
    AtInside(n, i, j);
    AtInside(n, j, i);
    forall c: nat | c < Square(n)
      ensures CellAt(ids, ts + [t], n, c) == if i != j && (c == At(n, i, j) || c == At(n, j, i)) then t.val else CellAt(ids, ts, n, c)
    {
      NewTriple(ids, ts, t, c);
    }
  }

  lemma {:induction false} NothingAccepted(ids: seq<u32>)
    ensures Accepted(ids, [])
  {}

  lemma {:induction false} GoodParts(ids: seq<u32>, t: Triple)
    ensures Known(ids, t) <==> IndexOf(ids, t.from).Some? && IndexOf(ids, t.to).Some?
    ensures Good(ids, t) <==>
      Known(ids, t) && t.val < U8_LIMIT && (if IndexOf(ids, t.from).value == IndexOf(ids, t.to).value then t.val == 10 else t.val >= 10)
  {}

  /** Both cells of a pair hold the given distance, or the mark. */
  lemma {:induction false} CellsOfPair(ids: seq<u32>, ts: seq<Triple>, m: seq<byte>, i: nat, j: nat)
    requires i < |ids| && j < |ids| && i != j && Accepted(ids, ts) && HoldsCells(m, ids, ts)
    ensures
      var (n, g) := (|ids|, Given(ids, ts, i, j));
      && At(n, i, j) < |m| && At(n, j, i) < |m| && m[At(n, i, j)] == m[At(n, j, i)]
      && (m[At(n, i, j)] == 0 <==> g.None?) && (g.Some? ==> m[At(n, i, j)] == g.value)
  {
    hide Square, About, Agree, At, Given;
    var n := |ids|;
    AtInside(n, i, j);
    AtInside(n, j, i);
    GivenIsSymmetric(ids, ts, i, j);
    GivenIsSaid(ids, ts, i, j);
  }

  /** Cells still marked get the default. */
  method FillDefaults(buf: array<byte>, base: nat, ids: seq<u32>, ts: seq<Triple>, ghost before: seq<byte>, ghost m0: seq<byte>)
    requires HoldsCells(m0, ids, ts) && Accepted(ids, ts) && base + |m0| <= |before| && buf[..] == Put(before, base, m0)
    modifies buf
    ensures base + Square(|ids|) <= |before| && buf[..] == Put(before, base, Matrix(ids, ts))
  {
    hide Square, At, Accepted, CellAt, Put, Matrix;
    var n := |ids|;
    ghost var m := m0;
    for c := 0 to Square(n)
      invariant |m| == Square(n) && buf[..] == Put(before, base, m)
      invariant forall k :: 0 <= k < Square(n) ==> m[k] == if k < c && m0[k] == 0 then 20 else m0[k]
    {
      ReadCell(before, base, m, c);
      if buf[base + c] == 0 {
        PutCell(before, base, m, c, 20);
        m := m[c := 20];
        buf[base + c] := 20;
      }
    }
    forall c | 0 <= c < Square(n) ensures m[c] == Matrix(ids, ts)[c] { DefaultCell(ids, ts, c); }
    assert m == Matrix(ids, ts);
  }

  lemma {:induction false} DefaultCell(ids: seq<u32>, ts: seq<Triple>, c: nat)
    requires c < Square(|ids|) && Accepted(ids, ts)
    ensures Matrix(ids, ts)[c] == if CellAt(ids, ts, |ids|, c) == 0 then 20 else CellAt(ids, ts, |ids|, c)
  {
    var n := |ids|;
    EveryCell(n, c);
    DistanceMeaning(ids, ts, c / n, c % n);
    GivenIsSaid(ids, ts, c / n, c % n);
    hide About, Agree, Given;
  }

  // ---- the table ----

  const SLIT: seq<byte> := [0x53, 0x4C, 0x49, 0x54]

  function SlitBody(ids: seq<u32>, ts: seq<Triple>): (b: seq<byte>)
    requires |ids| < U64_LIMIT
    ensures |b| == 8 + Square(|ids|)
  {
    Le64(|ids|) + Matrix(ids, ts)
  }

  ghost predicate SlitAccepted(ids: seq<u32>, d: Distances) {
    d.Matrix? && WholeTriples(d.raw) && Accepted(ids, Triples(d.raw))
  }

  /** Initializes, stores and completes the matrix. */
  method FillMatrix(buf: array<byte>, base: nat, ids: seq<u32>, d: Distances) returns (r: Result<(), DtbError>)
    requires base + Square(|ids|) <= buf.Length
    modifies buf
    ensures r.Success? <==> SlitAccepted(ids, d)
    ensures r.Success? ==> d.Matrix? && buf[..] == Put(old(buf[..]), base, Matrix(ids, Triples(d.raw)))
  {
    hide Square, Matrix, Accepted, HoldsCells, Triples, WholeTriples, Put;
    ghost var before := buf[..];
    ghost var m := InitMatrix(buf, base, ids);
    if !d.Matrix? { return Failure(Dtb); }
    if !WholeTriples(d.raw) { return Failure(Dtb); }
    var ts := Triples(d.raw);
    var stored, m1 := StoreTriples(buf, base, ids, ts, before, m);
    if stored.Failure? { return stored; }
    FillDefaults(buf, base, ids, ts, before, m1);
    return Success(());
  }

  /** What is checked when the slot has no room for the matrix: the triples one by one, but not that they agree. */
  ghost predicate SlitLenient(ids: seq<u32>, d: Distances) {
    d.Matrix? && WholeTriples(d.raw) && forall t :: t in Triples(d.raw) ==> Good(ids, t)
  }

  method CheckTriples(ids: seq<u32>, ts: seq<Triple>) returns (ok: bool)
    ensures ok <==> forall t :: t in ts ==> Good(ids, t)
  {
    for k := 0 to |ts|
      invariant forall i :: 0 <= i < k ==> Good(ids, ts[i])
    {
      if !Good(ids, ts[k]) {
        assert ts[k] in ts;
        return false;
      }
    }
    return true;
  }

  /** Writes the table. A slot too small for the matrix is not refused: its cells are skipped silently, and
      with them the check for disagreement. */
  method EmitSlit(buf: array<byte>, s: Slot, oem: OemIdentity, ids: seq<u32>, d: Distances) returns (r: Result<(), DtbError>)
    requires s.offset + s.len <= buf.Length && |ids| < U64_LIMIT
    modifies buf
    ensures r.Success? <==>
      SDT_HEADER_SIZE + 8 <= s.len < U32_LIMIT && if SDT_HEADER_SIZE + 8 + Square(|ids|) <= s.len then SlitAccepted(ids, d) else SlitLenient(ids, d)
    ensures r.Success? && s.len == SDT_HEADER_SIZE + 8 + Square(|ids|) ==>
      var t := MakeTable(SLIT, 1, oem, SlitBody(ids, Triples(d.raw)));
      d.Matrix? && t.Some? && Stored(old(buf[..]), buf[..], s, t.value)
  {
    hide Square, Writing, Then, NewTrace, SdtHeader, MakeTable, Stored, Le64, Matrix, SlitAccepted, Triples, WholeTriples, Put, Good;
    ghost var before := buf[..];
    TraceSlot(before, s);
    ghost var w := NewTrace(before, s, 0);
    var p :- WriteTableHeader(buf, s, SLIT, 1, oem, Le64(|ids|));
    ghost var acc := SdtHeader(SLIT, s.len, 1, oem) + Le64(|ids|);
    ghost var middle := buf[..];
    WritingBounds(middle, Then(w, acc), p);
    if p + Square(|ids|) > s.len {
      if !d.Matrix? { return Failure(Dtb); }
      if !WholeTriples(d.raw) { return Failure(Dtb); }
      var ok := CheckTriples(ids, Triples(d.raw));
      if !ok { return Failure(Dtb); }
      r := SetSdtChecksum(buf, s);
      return;
    }
    var filled :- FillMatrix(buf, s.offset + p, ids, d);
    ghost var ts := Triples(d.raw);
    WriteMore(middle, Then(w, acc), p, Matrix(ids, ts));
    JoinThen(w, acc, Matrix(ids, ts));
    assert acc + Matrix(ids, ts) == SdtHeader(SLIT, s.len, 1, oem) + SlitBody(ids, ts);
    r := SealTable(buf, s, before, SLIT, 1, oem, SlitBody(ids, ts), s.len);
  }

  /** The stored matrix holds the distances in row order. */
  lemma {:induction false} MatrixCells(ids: seq<u32>, ts: seq<Triple>, i: nat, j: nat)
    requires Accepted(ids, ts) && i < |ids| && j < |ids|
    ensures At(|ids|, i, j) < |Matrix(ids, ts)| && Matrix(ids, ts)[At(|ids|, i, j)] == Distance(ids, ts, i, j)
  {
    AtInside(|ids|, i, j);
    DistanceMeaning(ids, ts, i, j);
    hide Square, At, Distance;
  }
}
