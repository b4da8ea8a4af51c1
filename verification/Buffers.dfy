/** Writing byte runs into a fixed buffer. */
module Buffers {
  import opened Words

  /** `b` with `s` written at `at`. */
  function Put(b: seq<byte>, at: nat, s: seq<byte>): (r: seq<byte>)
    requires at + |s| <= |b|
    ensures |r| == |b| && r[at..at + |s|] == s
    ensures r[..at] == b[..at] && r[at + |s|..] == b[at + |s|..]
  {
    b[..at] + s + b[at + |s|..]
  }

  /** Two adjacent writes are one. */
  lemma {:induction false} PutAdjacent(b: seq<byte>, at: nat, s: seq<byte>, t: seq<byte>)
    requires at + |s| + |t| <= |b|
    ensures Put(Put(b, at, s), at + |s|, t) == Put(b, at, s + t)
  {}

  /** Buffers that agree outside `x..y` agree on every slice outside it. */
  lemma {:induction false} SliceOutside(r: seq<byte>, b: seq<byte>, x: nat, y: nat, lo: nat, hi: nat)
    requires |r| == |b| && x <= y <= |b| && lo <= hi <= |b| && (y <= lo || hi <= x)
    requires r[..x] == b[..x] && r[y..] == b[y..]
    ensures r[lo..hi] == b[lo..hi]
  {
    forall k | lo <= k < hi ensures r[k] == b[k] {
      if k < x {
        assert r[..x][k] == b[..x][k];
      } else {
        assert r[y..][k - y] == b[y..][k - y];
      }
    }
  }

  function Zeros(n: nat): (z: seq<byte>)
    ensures |z| == n && forall i :: 0 <= i < n ==> z[i] == 0
  {
    seq(n, _ => 0)
  }

  /** The slice copy of the standard library. */
  method WriteAt(buf: array<byte>, at: nat, bytes: seq<byte>)
    requires at + |bytes| <= buf.Length
    modifies buf
    ensures buf[..] == Put(old(buf[..]), at, bytes)
  {
    forall i | 0 <= i < |bytes| { buf[at + i] := bytes[i]; }
    assert forall i :: 0 <= i < buf.Length ==> buf[..][i] == Put(old(buf[..]), at, bytes)[i];
  }
}
