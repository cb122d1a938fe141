/**
 Bytes and fixed-width unsigned integers as subsets of the integers.
 */
module Bytes {
  type byte = x: int | 0 <= x < 0x100

  type uint32 = x: int | 0 <= x < 0x1_0000_0000

  type uint64 = x: int | 0 <= x < 0x1_0000_0000_0000_0000

  type bytes = seq<byte>

  /** A text literal as bytes. */
  function Ascii(s: string): bytes {
    seq(|s|, i requires 0 <= i < |s| => (s[i] as int) % 0x100)
  }

  lemma {:induction false} AsciiIs(s: string)
    requires forall i :: 0 <= i < |s| ==> (s[i] as int) < 0x80
    ensures |Ascii(s)| == |s| && forall i :: 0 <= i < |s| ==> Ascii(s)[i] == s[i] as int
  {
  }

  /** `s` with the bytes of `d` laid over it from position `at` on; what sticks out is cut off. */
  function Overlay(s: bytes, at: nat, d: bytes): (r: bytes)
    ensures |r| == |s|
  {
    seq(|s|, p requires 0 <= p < |s| => if at <= p < at + |d| then d[p - at] else s[p])
  }

  function Zeros(n: nat): (r: bytes)
    ensures |r| == n
    ensures forall p :: 0 <= p < n ==> r[p] == 0
  {
    seq(n, _ => 0)
  }

  lemma {:induction false} OverlayAt(s: bytes, at: nat, d: bytes, p: nat)
    requires p < |s|
    ensures Overlay(s, at, d)[p] == if at <= p < at + |d| then d[p - at] else s[p]
  {
  }

  // Laying bytes over a concatenation touches only the part they lie on.
  lemma {:induction false} OverlayLeft(a: bytes, b: bytes, at: nat, d: bytes)
    requires at + |d| <= |a|
    ensures Overlay(a + b, at, d) == Overlay(a, at, d) + b
  {
  }

  lemma {:induction false} OverlayRight(a: bytes, b: bytes, at: nat, d: bytes)
    ensures Overlay(a + b, |a| + at, d) == a + Overlay(b, at, d)
  {
  }

  // The range just overlaid reads back as what was laid there.
  lemma {:induction false} OverlayReads(s: bytes, at: nat, d: bytes)
    requires at + |d| <= |s|
    ensures Overlay(s, at, d)[at..at + |d|] == d
  {
  }

  // A range that the overlay does not touch keeps its bytes.
  lemma {:induction false} OverlayKeeps(s: bytes, at: nat, d: bytes, lo: nat, hi: nat)
    requires lo <= hi <= |s|
    requires hi <= at || at + |d| <= lo
    ensures Overlay(s, at, d)[lo..hi] == s[lo..hi]
  {
  }

  // A chunk laid right behind a block that is already in place extends the block.
  lemma {:induction false} OverlayExtends(s: bytes, at: nat, d: bytes, m: nat, n: nat)
    requires m <= n <= |d| && at + n <= |s|
    requires s[at..at + m] == d[..m]
    ensures Overlay(s, at + m, d[m..n])[at..at + n] == d[..n]
  {
    var r := Overlay(s, at + m, d[m..n]);
    forall p | 0 <= p < n
      ensures r[at..at + n][p] == d[..n][p]
    {
      if p < m {
        assert s[at..at + m][p] == d[..m][p];
      }
    }
  }

  /** The first `off` bytes of `data`, the rest from `before`. */
  function Mixed(data: bytes, before: bytes, off: nat): (r: bytes)
    requires off <= |data| == |before|
    ensures |r| == |before|
  {
    data[..off] + before[off..]
  }

  lemma {:induction false} MixedEnds(d: bytes, e: bytes, off: nat)
    requires off <= |d| == |e|
    ensures Mixed(d, e, 0) == e && Mixed(d, e, |d|) == d
    ensures d == e ==> Mixed(d, e, off) == d
  {
  }

  // A chunk laid into a block that is replaced from the front moves the joint between new and old on.
  lemma {:induction false} OverlaySplices(s: bytes, at: nat, d: bytes, e: bytes, m: nat, n: nat)
    requires m <= n <= |d| == |e| && at + |d| <= |s|
    requires s[at..at + |d|] == Mixed(d, e, m)
    ensures Overlay(s, at + m, d[m..n])[at..at + |d|] == Mixed(d, e, n)
  {
    var r := Overlay(s, at + m, d[m..n]);
    forall p | 0 <= p < |d|
      ensures r[at..at + |d|][p] == Mixed(d, e, n)[p]
    {
      assert s[at..at + |d|][p] == Mixed(d, e, m)[p];
    }
  }

  lemma {:induction false} OverlayNone(s: bytes, at: nat)
    ensures Overlay(s, at, []) == s
  {
  }

  // Two adjacent chunks of one block, laid one after the other, are the longer chunk laid once.
  lemma {:induction false} OverlayAdjacent(s: bytes, at: nat, d: bytes, m: nat, n: nat)
    requires m <= n <= |d|
    ensures Overlay(Overlay(s, at, d[..m]), at + m, d[m..n]) == Overlay(s, at, d[..n])
  {
  }
}
