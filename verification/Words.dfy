/** Machine words: bytes, little-endian encodings, power-of-two alignment. */
module Words {
  type byte = x: int | 0 <= x < 0x100

  const U8_LIMIT := 0x100
  const U16_LIMIT := 0x1_0000
  const U32_LIMIT := 0x1_0000_0000
  const U64_LIMIT := 0x1_0000_0000_0000_0000

  function Pow256(n: nat): (p: nat)
    ensures p > 0
  {
    if n == 0 then 1 else 0x100 * Pow256(n - 1)
  }

  /** The low `n` bytes of `v`, least significant first. */
  function LeBytes(v: nat, n: nat): (s: seq<byte>)
    ensures |s| == n
  {
    if n == 0 then [] else [v % 0x100] + LeBytes(v / 0x100, n - 1)
  }

  function LeValue(s: seq<byte>): nat {
    if s == [] then 0 else s[0] + 0x100 * LeValue(s[1..])
  }

  lemma {:induction false} LeValueBound(s: seq<byte>)
    ensures LeValue(s) < Pow256(|s|)
  {
    if s != [] { LeValueBound(s[1..]); }
  }

  /** Encoding keeps the value modulo the width. */
  lemma {:induction false} LeRoundTrip(v: nat, n: nat)
    ensures v < Pow256(n) ==> LeValue(LeBytes(v, n)) == v
  {
    if n > 0 && v < Pow256(n) {
      LeRoundTrip(v / 0x100, n - 1);
      assert LeBytes(v, n)[1..] == LeBytes(v / 0x100, n - 1);
    }
  }

  lemma {:induction false} LeBytesOfValue(s: seq<byte>)
    ensures LeBytes(LeValue(s), |s|) == s
  {
    if s != [] {
      LeBytesOfValue(s[1..]);
      assert LeValue(s) / 0x100 == LeValue(s[1..]);
    }
  }

  function Le16(v: nat): (s: seq<byte>) ensures |s| == 2 { LeBytes(v, 2) }
  function Le32(v: nat): (s: seq<byte>) ensures |s| == 4 { LeBytes(v, 4) }
  function Le64(v: nat): (s: seq<byte>) ensures |s| == 8 { LeBytes(v, 8) }

  /** Each fixed-width encoding keeps the values that fit. */
  lemma {:induction false} FixedWidthRoundTrip(v: nat)
    ensures v < U16_LIMIT ==> LeValue(Le16(v)) == v
    ensures v < U32_LIMIT ==> LeValue(Le32(v)) == v
    ensures v < U64_LIMIT ==> LeValue(Le64(v)) == v
  {
    WordLimits();
    LeRoundTrip(v, 2);
    LeRoundTrip(v, 4);
    LeRoundTrip(v, 8);
    hide LeBytes, LeValue;
  }

  lemma {:induction false} WordLimits()
    ensures Pow256(1) == U8_LIMIT && Pow256(2) == U16_LIMIT && Pow256(4) == U32_LIMIT && Pow256(8) == U64_LIMIT
  {
    assert Pow256(2) == 0x100 * Pow256(1);
    assert Pow256(4) == 0x100 * (0x100 * Pow256(2));
    assert Pow256(6) == 0x100 * (0x100 * Pow256(4));
    assert Pow256(8) == 0x100 * (0x100 * Pow256(6));
  }

  function Pow2(k: nat): (p: nat)
    ensures p > 0
  {
    if k == 0 then 1 else 2 * Pow2(k - 1)
  }

  lemma {:induction false} Pow2Split(k: nat, m: nat)
    requires k <= m
    ensures Pow2(m) == Pow2(k) * Pow2(m - k)
    decreases m
  {
    if k < m { Pow2Split(k, m - 1); }
  }

  lemma {:induction false} MulKeepsOrder(a: nat, x: int, y: int)
    ensures x <= y ==> a * x <= a * y
    ensures a > 0 && a * x < a * y ==> x < y
  {
    if x <= y { assert a * (y - x) >= 0; }
  }

  lemma {:induction false} DivideUnique(v: int, a: nat, q: int, r: nat)
    requires r < a && v == a * q + r
    ensures v / a == q && v % a == r
  {
    assert a * (v / a - q) == r - v % a;
    MulKeepsOrder(a, v / a - q, -1);
    MulKeepsOrder(a, 1, v / a - q);
  }

  lemma {:induction false} MultipleHasNoRemainder(a: nat, q: int)
    requires a > 0
    ensures (a * q) % a == 0 && (a * q) / a == q
  {
    DivideUnique(a * q, a, q, 0);
  }

  /** A power of two a 64-bit address can be aligned to. */
  ghost predicate PowerOfTwo(a: nat) {
    exists k: nat :: k < 64 && a == Pow2(k)
  }

  lemma {:induction false} Pow2Grows(j: nat, k: nat)
    ensures j < k ==> Pow2(j) < Pow2(k)
  {
    if j < k { Pow2Grows(j, k - 1); }
  }

  lemma {:induction false} PowersDivide(a: nat, b: nat)
    requires PowerOfTwo(a) && PowerOfTwo(b) && a <= b
    ensures b % a == 0
  {
    var j: nat :| j < 64 && a == Pow2(j);
    var k: nat :| k < 64 && b == Pow2(k);
    Pow2Grows(k, j);
    Pow2Split(j, k);
    MultipleHasNoRemainder(a, Pow2(k - j));
  }

  lemma {:induction false} Pow2Of64()
    ensures Pow2(64) == U64_LIMIT && Pow2(63) == 0x8000_0000_0000_0000
    ensures Pow2(21) == 0x20_0000
  {
    assert Pow2(8) == 0x100 && Pow2(5) == 32;
    assert Pow2(64) == 2 * Pow2(63);
    hide Pow2;
    Pow2Split(8, 16);
    Pow2Split(16, 21);
    Pow2Split(16, 32);
    Pow2Split(32, 64);
  }

  lemma {:induction false} PowerDividesWord(a: nat)
    requires PowerOfTwo(a)
    ensures 0 < a < U64_LIMIT && U64_LIMIT % a == 0
  {
    var k: nat :| k < 64 && a == Pow2(k);
    Pow2Of64();
    hide Pow2;
    Pow2Split(k, 64);
    MultipleHasNoRemainder(a, Pow2(64 - k));
    Pow2Grows(k, 64);
  }

  /** `v & !(a - 1)` for a power of two `a`. */
  function AlignDown(v: nat, a: nat): (r: nat)
    requires a > 0
  {
    v - v % a
  }

  /** The least multiple of `a` at or above `v`. */
  function AlignUp(v: nat, a: nat): (r: nat)
    requires a > 0
  {
    AlignDown(v + (a - 1), a)
  }

  lemma {:induction false} MultiplesApart(a: nat, m: nat, n: nat)
    requires a > 0 && m % a == 0 && n % a == 0 && m < n
    ensures m + a <= n
  {
    assert m == a * (m / a) && n == a * (n / a);
    MulKeepsOrder(a, m / a, n / a);
    MulKeepsOrder(a, m / a + 1, n / a);
    assert a * (m / a + 1) == m + a;
  }

  lemma {:induction false} AlignDownIsGreatest(v: nat, a: nat)
    requires a > 0
    ensures AlignDown(v, a) % a == 0 && AlignDown(v, a) <= v < AlignDown(v, a) + a
    ensures forall m: nat :: m % a == 0 && m <= v ==> m <= AlignDown(v, a)
  {
    assert v - v % a == a * (v / a);
    MultipleHasNoRemainder(a, v / a);
    forall m: nat | m % a == 0 && m <= v ensures m <= AlignDown(v, a) {
      if AlignDown(v, a) < m { MultiplesApart(a, AlignDown(v, a), m); }
    }
  }

  lemma {:induction false} AlignUpIsLeast(v: nat, a: nat)
    requires a > 0
    ensures AlignUp(v, a) % a == 0 && v <= AlignUp(v, a) < v + a
    ensures forall m: nat :: m % a == 0 && v <= m ==> AlignUp(v, a) <= m
  {
    var up := AlignUp(v, a);
    AlignDownIsGreatest(v + (a - 1), a);
    forall m: nat | m % a == 0 && v <= m ensures up <= m {
      if m < up { MultiplesApart(a, m, up); }
    }
  }

  lemma {:induction false} MultipleOfMultiple(v: nat, a: nat, g: nat)
    requires 0 < g && 0 < a && a % g == 0 && v % a == 0
    ensures v % g == 0
  {
    assert v == a * (v / a) && a == g * (a / g);
    assert v == g * ((a / g) * (v / a));
    MultipleHasNoRemainder(g, (a / g) * (v / a));
  }
}
