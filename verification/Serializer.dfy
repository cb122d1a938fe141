/**
 The 32-bit big-endian byte order of util/serializer.h. The `|` of shifted bytes there joins
 disjoint bits, which is a sum.
 */
module Serializer {
  import opened Bytes

  /** `writeBE32`. */
  function BE32(v: uint32): (r: bytes)
    ensures |r| == 4
  {
    [v / 0x100_0000, v / 0x1_0000 % 0x100, v / 0x100 % 0x100, v % 0x100]
  }

  function FromBE16(b0: byte, b1: byte): nat {
    b1 + b0 * 0x100
  }

  /** `readBE32`, from two halves. */
  function FromBE32(b0: byte, b1: byte, b2: byte, b3: byte): uint32 {
    FromBE16(b2, b3) + FromBE16(b0, b1) * 0x1_0000
  }

  function ReadBE32(s: bytes, at: nat): uint32
    requires at + 4 <= |s|
  {
    FromBE32(s[at], s[at + 1], s[at + 2], s[at + 3])
  }

  /** The most significant byte comes first. */
  lemma {:induction false} BE32Value(v: uint32)
    ensures var r := BE32(v); v == 0x100_0000 * (r[0] as int) + 0x1_0000 * (r[1] as int) + 0x100 * (r[2] as int) + r[3]
    ensures BE32(0x0102_0304) == [1, 2, 3, 4]
  {
    BE32RoundTrip(v);
  }

  /** Reading what was written. */
  lemma {:induction false} BE32RoundTrip(v: uint32)
    ensures var r := BE32(v); FromBE32(r[0], r[1], r[2], r[3]) == v
  {
    var q1 := v / 0x100;
    var q2 := v / 0x1_0000;
    var q3 := v / 0x100_0000;
    assert v == 0x100 * q1 + v % 0x100;
    assert q1 == 0x100 * q2 + q1 % 0x100 by { Nested(v, 0x100); }
    assert q2 == 0x100 * q3 + q2 % 0x100 by { Nested(v, 0x1_0000); }
  }

  // Two divisions by powers of 256, one after the other.
  lemma {:induction false} Nested(v: nat, b: nat)
    requires b == 0x100 || b == 0x1_0000
    ensures (v / b) / 0x100 == v / (0x100 * b)
  {
    if b == 0x100 {
      assert (v / 0x100) / 0x100 == v / 0x1_0000;
    } else {
      assert (v / 0x1_0000) / 0x100 == v / 0x100_0000;
    }
  }

  lemma {:induction false} Quotients(b0: byte, b1: byte, b2: byte, b3: byte)
    ensures var v := FromBE32(b0, b1, b2, b3);
            v / 0x100_0000 == b0 && v / 0x1_0000 == b0 * 0x100 + b1 && v / 0x100 == b0 * 0x1_0000 + b1 * 0x100 + b2
  {
  }

  /** Writing what was read. */
  lemma {:induction false} BE32Bytes(b0: byte, b1: byte, b2: byte, b3: byte)
    ensures BE32(FromBE32(b0, b1, b2, b3)) == [b0, b1, b2, b3]
  {
    Quotients(b0, b1, b2, b3);
  }

  lemma {:induction false} BE32At(v: uint32, pre: bytes, post: bytes)
    ensures ReadBE32(pre + BE32(v) + post, |pre|) == v
  {
    var s := pre + BE32(v) + post;
    BE32RoundTrip(v);
    assert s[|pre|..|pre| + 4] == BE32(v);
    assert forall k :: 0 <= k < 4 ==> s[|pre| + k] == BE32(v)[k];
  }
}
