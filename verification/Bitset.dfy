/**
 The bitset of util/bitset.h: one bit per piece in a byte array that has one *byte* per piece.
 The class agrees with a plain mathematical set of indices, and its word-stepping count agrees
 with the cardinality of that set up to the one byte it reads past the end.
 */
module Bitset {
  import opened Popcount

  /** `1 << k`, as the byte masks of the source. */
  function Mask(k: nat): bv8
    requires k < 8
  {
    match k
    case 0 => 0x01
    case 1 => 0x02
    case 2 => 0x04
    case 3 => 0x08
    case 4 => 0x10
    case 5 => 0x20
    case 6 => 0x40
    case _ => 0x80
  }

  // The byte operations of `test`, `set`, `clear` and `toggle`.
  function And(b: bv8, m: bv8): bv8 { b & m }

  function Or(b: bv8, m: bv8): bv8 { b | m }

  function AndNot(b: bv8, m: bv8): bv8 { b & !m }

  function Xor(b: bv8, m: bv8): bv8 { b ^ m }

  predicate BitOf(b: bv8, k: nat)
    requires k < 8
  {
    And(b, Mask(k)) != 0
  }

  lemma {:induction false} MasksDisjoint(k: nat, j: nat)
    requires k < 8 && j < 8 && k != j
    ensures And(Mask(k), Mask(j)) == 0
  {
  }

  lemma {:induction false} OtherBitsOr(b: bv8, m: bv8, n: bv8)
    requires And(m, n) == 0
    ensures And(Or(b, m), n) == And(b, n)
  {
  }

  lemma {:induction false} OtherBitsAndNot(b: bv8, m: bv8, n: bv8)
    requires And(m, n) == 0
    ensures And(AndNot(b, m), n) == And(b, n)
  {
  }

  lemma {:induction false} OtherBitsXor(b: bv8, m: bv8, n: bv8)
    requires And(m, n) == 0
    ensures And(Xor(b, m), n) == And(b, n)
  {
  }

  lemma {:induction false} SameBit(b: bv8, k: nat)
    requires k < 8
    ensures BitOf(Or(b, Mask(k)), k)
    ensures !BitOf(AndNot(b, Mask(k)), k)
    ensures BitOf(Xor(b, Mask(k)), k) <==> !BitOf(b, k)
  {
  }

  lemma {:induction false} BitOfIs(b: bv8, k: nat)
    requires k < 8
    ensures BitOf(b, k) <==> And(b, Mask(k)) != 0
  {
    hide Mask, And;
  }

  // Setting, clearing and flipping bit k leaves the other bits of the byte alone.
  lemma {:induction false} MaskOps(b: bv8, k: nat, j: nat)
    requires k < 8 && j < 8
    ensures BitOf(Or(b, Mask(k)), j) <==> (j == k || BitOf(b, j))
    ensures BitOf(AndNot(b, Mask(k)), j) <==> (j != k && BitOf(b, j))
    ensures BitOf(Xor(b, Mask(k)), j) <==> ((j != k) == BitOf(b, j))
  {
    hide *;
    if j == k {
      SameBit(b, k);
    } else {
      MasksDisjoint(k, j);
      OtherBitsOr(b, Mask(k), Mask(j));
      OtherBitsAndNot(b, Mask(k), Mask(j));
      OtherBitsXor(b, Mask(k), Mask(j));
      BitOfIs(b, j);
      BitOfIs(Or(b, Mask(k)), j);
      BitOfIs(AndNot(b, Mask(k)), j);
      BitOfIs(Xor(b, Mask(k)), j);
    }
  }

  // `b ^ ((-v ^ b) & mask)` writes bit k of b and nothing else: with all ones it sets the bit, ...
  lemma {:induction false} AssignOne(b: bv8, m: bv8)
    ensures Blend(b, 0xff, m) == Or(b, m)
  {
  }

  // ... with zero it clears it.
  lemma {:induction false} AssignZero(b: bv8, m: bv8)
    ensures Blend(b, 0, m) == AndNot(b, m)
  {
  }

  function Blend(b: bv8, allBits: bv8, m: bv8): bv8 {
    b ^ ((allBits ^ b) & m)
  }

  lemma {:induction false} BlendWrites(b: bv8, v: bool, k: nat, j: nat)
    requires k < 8 && j < 8
    ensures BitOf(Blend(b, if v then 0xff else 0, Mask(k)), j) == if j == k then v else BitOf(b, j)
  {
    hide *;
    MaskOps(b, k, j);
    if v {
      AssignOne(b, Mask(k));
    } else {
      AssignZero(b, Mask(k));
    }
  }

  // ---------- Bytes as sets of bit positions ----------

  predicate InBits(s: seq<bv8>, i: nat)
  {
    i / 8 < |s| && BitOf(s[i / 8], i % 8)
  }

  ghost function SetOf(s: seq<bv8>): set<nat> {
    set i: nat | i < 8 * |s| && InBits(s, i)
  }

  ghost function SetBelow(s: seq<bv8>, m: nat): set<nat> {
    set i: nat | i < m && InBits(s, i)
  }

  function Count8(b: bv8): nat {
    ByteCount(b as bv64)
  }

  function ByteTotal(s: seq<bv8>): nat {
    if s == [] then 0 else ByteTotal(s[..|s| - 1]) + Count8(s[|s| - 1])
  }

  function BitNat(b: bv8, k: nat): nat
    requires k < 8
  {
    if BitOf(b, k) then 1 else 0
  }

  lemma {:induction false} LowBitOfByte(b: bv8)
    ensures LowBit(b as bv64) == BitNat(b, 0) && LowBit((b as bv64) >> 1) == BitNat(b, 1)
    ensures LowBit((b as bv64) >> 2) == BitNat(b, 2) && LowBit((b as bv64) >> 3) == BitNat(b, 3)
    ensures LowBit((b as bv64) >> 4) == BitNat(b, 4) && LowBit((b as bv64) >> 5) == BitNat(b, 5)
    ensures LowBit((b as bv64) >> 6) == BitNat(b, 6) && LowBit((b as bv64) >> 7) == BitNat(b, 7)
  {
  }

  lemma {:induction false} Count8Bits(b: bv8)
    ensures Count8(b) == BitNat(b, 0) + BitNat(b, 1) + BitNat(b, 2) + BitNat(b, 3)
                         + BitNat(b, 4) + BitNat(b, 5) + BitNat(b, 6) + BitNat(b, 7)
  {
    LowBitOfByte(b);
    hide LowBit, BitNat;
  }

  lemma {:induction false} SetBelowStep(s: seq<bv8>, m: nat)
    ensures |SetBelow(s, m + 1)| == |SetBelow(s, m)| + if InBits(s, m) then 1 else 0
  {
    if InBits(s, m) {
      assert SetBelow(s, m + 1) == SetBelow(s, m) + {m};
    } else {
      assert SetBelow(s, m + 1) == SetBelow(s, m);
    }
  }

  lemma {:induction false} InByte(s: seq<bv8>, k: nat, j: nat)
    requires k < |s| && j < 8
    ensures InBits(s, 8 * k + j) <==> BitOf(s[k], j)
  {
    assert (8 * k + j) / 8 == k && (8 * k + j) % 8 == j;
  }

  lemma {:induction false} SetBelowByteStep(s: seq<bv8>, k: nat, j: nat)
    requires k < |s| && j < 8
    ensures |SetBelow(s, 8 * k + j + 1)| == |SetBelow(s, 8 * k + j)| + BitNat(s[k], j)
  {
    SetBelowStep(s, 8 * k + j);
    InByte(s, k, j);
    hide BitOf, InBits, SetBelow;
  }

  lemma {:induction false} SetBelowByte(s: seq<bv8>, k: nat)
    requires k < |s|
    ensures |SetBelow(s, 8 * k + 8)| == |SetBelow(s, 8 * k)| + Count8(s[k])
  {
    hide *;
    Count8Bits(s[k]);
    SetBelowByteStep(s, k, 0);
    SetBelowByteStep(s, k, 1);
    SetBelowByteStep(s, k, 2);
    SetBelowByteStep(s, k, 3);
    SetBelowByteStep(s, k, 4);
    SetBelowByteStep(s, k, 5);
    SetBelowByteStep(s, k, 6);
    SetBelowByteStep(s, k, 7);
  }

  lemma {:induction false} TotalBelow(s: seq<bv8>, k: nat)
    requires k <= |s|
    ensures ByteTotal(s[..k]) == |SetBelow(s, 8 * k)|
  {
    hide Count8, InBits;
    if k == 0 {
      assert SetBelow(s, 0) == {};
    } else {
      TotalBelow(s, k - 1);
      SetBelowByte(s, k - 1);
      assert s[..k][..k - 1] == s[..k - 1];
    }
  }

  /** Adding up the bytes counts the elements of the set. */
  lemma {:induction false} TotalIsCardinality(s: seq<bv8>)
    ensures ByteTotal(s) == |SetOf(s)|
  {
    TotalBelow(s, |s|);
    assert s[..|s|] == s;
    assert SetBelow(s, 8 * |s|) == SetOf(s);
  }

  // ---------- Words read from memory ----------

  // `*(uint64_t *)src` on a little-endian machine; the narrower reads leave the high bytes zero.
  function Load(b0: bv8, b1: bv8, b2: bv8, b3: bv8, b4: bv8, b5: bv8, b6: bv8, b7: bv8): bv64 {
    (b0 as bv64) | ((b1 as bv64) << 8) | ((b2 as bv64) << 16) | ((b3 as bv64) << 24)
    | ((b4 as bv64) << 32) | ((b5 as bv64) << 40) | ((b6 as bv64) << 48) | ((b7 as bv64) << 56)
  }

  lemma {:induction false} LoadLanes(b0: bv8, b1: bv8, b2: bv8, b3: bv8, b4: bv8, b5: bv8, b6: bv8, b7: bv8)
    ensures var w := Load(b0, b1, b2, b3, b4, b5, b6, b7);
            && Lane(w, 0) == b0 as bv64 && Lane(w, 1) == b1 as bv64
            && Lane(w, 2) == b2 as bv64 && Lane(w, 3) == b3 as bv64
            && Lane(w, 4) == b4 as bv64 && Lane(w, 5) == b5 as bv64
            && Lane(w, 6) == b6 as bv64 && Lane(w, 7) == b7 as bv64
  {
  }

  lemma {:induction false} LowBitLane(w: word, k: nat)
    requires k < 8
    ensures LowBit(Down(w, k)) == LowBit(Lane(w, k))
    ensures LowBit(Down(w, k) >> 1) == LowBit(Lane(w, k) >> 1)
    ensures LowBit(Down(w, k) >> 2) == LowBit(Lane(w, k) >> 2)
    ensures LowBit(Down(w, k) >> 3) == LowBit(Lane(w, k) >> 3)
    ensures LowBit(Down(w, k) >> 4) == LowBit(Lane(w, k) >> 4)
    ensures LowBit(Down(w, k) >> 5) == LowBit(Lane(w, k) >> 5)
    ensures LowBit(Down(w, k) >> 6) == LowBit(Lane(w, k) >> 6)
    ensures LowBit(Down(w, k) >> 7) == LowBit(Lane(w, k) >> 7)
  {
    hide Down;
  }

  lemma {:induction false} ByteCountLane(w: word, k: nat)
    requires k < 8
    ensures ByteCount(Down(w, k)) == ByteCount(Lane(w, k))
  {
    LowBitLane(w, k);
    hide Down, Lane, LowBit;
  }

  lemma {:induction false} PopcntLoad(b0: bv8, b1: bv8, b2: bv8, b3: bv8, b4: bv8, b5: bv8, b6: bv8, b7: bv8)
    ensures Popcnt(Load(b0, b1, b2, b3, b4, b5, b6, b7))
         == Count8(b0) + Count8(b1) + Count8(b2) + Count8(b3) + Count8(b4) + Count8(b5) + Count8(b6) + Count8(b7)
  {
    hide Load, Lane, Down, ByteCount, Ones, Popcnt;
    var w := Load(b0, b1, b2, b3, b4, b5, b6, b7);
    PopcntCountsOnes(w);
    OnesOfWord(w);
    LoadLanes(b0, b1, b2, b3, b4, b5, b6, b7);
    forall k: nat | k < 8
      ensures ByteCount(Down(w, k)) == ByteCount(Lane(w, k))
    {
      ByteCountLane(w, k);
    }
  }

  lemma {:induction false} OnlyZeroIsEmpty(b: bv8)
    ensures Count8(b) == 0 <==> b == 0
  {
    Count8Bits(b);
    hide Count8;
    if b == 0 {
      assert forall k: nat | k < 8 :: !BitOf(b, k);
    } else {
      NonZeroHasBit(b);
    }
  }

  lemma {:induction false} NonZeroHasBit(b: bv8)
    requires b != 0
    ensures BitOf(b, 0) || BitOf(b, 1) || BitOf(b, 2) || BitOf(b, 3)
         || BitOf(b, 4) || BitOf(b, 5) || BitOf(b, 6) || BitOf(b, 7)
  {
  }

  lemma {:induction false} ZeroByte()
    ensures Count8(0) == 0
  {
  }

  lemma {:induction false} TotalOfNone(s: seq<bv8>)
    ensures ByteTotal(s[..0]) == 0
  {
  }

  lemma {:induction false} TotalStep(s: seq<bv8>, k: nat)
    requires k < |s|
    ensures ByteTotal(s[..k + 1]) == ByteTotal(s[..k]) + Count8(s[k])
  {
    hide Count8;
    assert s[..k + 1][..k] == s[..k];
  }

  lemma {:induction false} TotalStep2(s: seq<bv8>, k: nat)
    requires k + 2 <= |s|
    ensures ByteTotal(s[..k + 2]) == ByteTotal(s[..k]) + Count8(s[k]) + Count8(s[k + 1])
  {
    hide *;
    TotalStep(s, k);
    TotalStep(s, k + 1);
  }

  lemma {:induction false} TotalStep4(s: seq<bv8>, k: nat)
    requires k + 4 <= |s|
    ensures ByteTotal(s[..k + 4])
         == ByteTotal(s[..k]) + Count8(s[k]) + Count8(s[k + 1]) + Count8(s[k + 2]) + Count8(s[k + 3])
  {
    hide *;
    TotalStep2(s, k);
    TotalStep2(s, k + 2);
  }

  lemma {:induction false} TotalStep8(s: seq<bv8>, k: nat)
    requires k + 8 <= |s|
    ensures ByteTotal(s[..k + 8])
         == ByteTotal(s[..k]) + Count8(s[k]) + Count8(s[k + 1]) + Count8(s[k + 2]) + Count8(s[k + 3])
            + Count8(s[k + 4]) + Count8(s[k + 5]) + Count8(s[k + 6]) + Count8(s[k + 7])
  {
    hide *;
    TotalStep4(s, k);
    TotalStep4(s, k + 4);
  }

  lemma {:induction false} CountStep8(s: seq<bv8>, k: nat)
    requires k + 8 <= |s|
    ensures ByteTotal(s[..k]) + Popcnt(Load(s[k], s[k + 1], s[k + 2], s[k + 3], s[k + 4], s[k + 5], s[k + 6], s[k + 7]))
         == ByteTotal(s[..k + 8])
  {
    hide *;
    PopcntLoad(s[k], s[k + 1], s[k + 2], s[k + 3], s[k + 4], s[k + 5], s[k + 6], s[k + 7]);
    TotalStep8(s, k);
  }

  lemma {:induction false} CountStep4(s: seq<bv8>, k: nat)
    requires k + 4 <= |s|
    ensures ByteTotal(s[..k]) + Popcnt(Load(s[k], s[k + 1], s[k + 2], s[k + 3], 0, 0, 0, 0)) == ByteTotal(s[..k + 4])
  {
    hide *;
    PopcntLoad(s[k], s[k + 1], s[k + 2], s[k + 3], 0, 0, 0, 0);
    ZeroByte();
    TotalStep4(s, k);
  }

  lemma {:induction false} CountStep2(s: seq<bv8>, k: nat)
    requires k + 2 <= |s|
    ensures ByteTotal(s[..k]) + Popcnt(Load(s[k], s[k + 1], 0, 0, 0, 0, 0, 0)) == ByteTotal(s[..k + 2])
  {
    hide *;
    PopcntLoad(s[k], s[k + 1], 0, 0, 0, 0, 0, 0);
    ZeroByte();
    TotalStep2(s, k);
  }

  // What an in-range write to one bit does to the set.
  lemma {:induction false} WriteBit(before: seq<bv8>, after: seq<bv8>, i: nat, v: bool)
    requires i < 8 * |before| == 8 * |after|
    requires after == before[i / 8 := after[i / 8]]
    requires forall j: nat | j < 8 :: BitOf(after[i / 8], j) == if j == i % 8 then v else BitOf(before[i / 8], j)
    ensures SetOf(after) == if v then SetOf(before) + {i} else SetOf(before) - {i}
  {
    hide BitOf;
    forall j: nat | j < 8 * |before|
      ensures InBits(after, j) == if j == i then v else InBits(before, j)
    {
    }
  }

  class Bitset {
    const bits: array<bv8>

    /** `construct`: one zeroed byte per requested bit. */
    constructor (size: nat)
      ensures bits.Length == size && fresh(bits)
      ensures Members() == {}
    {
      bits := new bv8[size](_ => 0);
      new;
      forall i: nat | i < 8 * size
        ensures !InBits(bits[..], i)
      {
        ZeroBit(i % 8);
      }
    }

    static lemma {:induction false} ZeroBit(k: nat)
      requires k < 8
      ensures !BitOf(0, k)
    {
    }

    /** The set of indices whose bit is one: the meaning of the object. */
    ghost function Members(): set<nat>
      reads bits
    {
      SetOf(bits[..])
    }

    /** `test`. */
    function Test(i: nat): (r: bool)
      requires i < 8 * bits.Length
      reads bits
      ensures r <==> i in Members()
    {
      assert bits[..][i / 8] == bits[i / 8];
      BitOf(bits[i / 8], i % 8)
    }

    method Set(i: nat)
      requires i < 8 * bits.Length
      modifies bits
      ensures Members() == old(Members()) + {i}
    {
      hide Mask, BitOf, Or, SetOf;
      ghost var before := bits[..];
      bits[i / 8] := Or(bits[i / 8], Mask(i % 8));
      assert bits[..] == before[i / 8 := bits[i / 8]];
      forall j: nat | j < 8
        ensures BitOf(bits[i / 8], j) == if j == i % 8 then true else BitOf(before[i / 8], j)
      {
        MaskOps(before[i / 8], i % 8, j);
      }
      WriteBit(before, bits[..], i, true);
    }

    method Clear(i: nat)
      requires i < 8 * bits.Length
      modifies bits
      ensures Members() == old(Members()) - {i}
    {
      hide Mask, BitOf, AndNot, SetOf;
      ghost var before := bits[..];
      bits[i / 8] := AndNot(bits[i / 8], Mask(i % 8));
      assert bits[..] == before[i / 8 := bits[i / 8]];
      forall j: nat | j < 8
        ensures BitOf(bits[i / 8], j) == if j == i % 8 then false else BitOf(before[i / 8], j)
      {
        MaskOps(before[i / 8], i % 8, j);
      }
      WriteBit(before, bits[..], i, false);
    }

    method Toggle(i: nat)
      requires i < 8 * bits.Length
      modifies bits
      ensures Members() == if i in old(Members()) then old(Members()) - {i} else old(Members()) + {i}
    {
      hide Mask, BitOf, Xor, SetOf;
      ghost var before := bits[..];
      ghost var v := !Test(i);
      bits[i / 8] := Xor(bits[i / 8], Mask(i % 8));
      assert bits[..] == before[i / 8 := bits[i / 8]];
      assert before[i / 8] == before[..][i / 8];
      forall j: nat | j < 8
        ensures BitOf(bits[i / 8], j) == if j == i % 8 then v else BitOf(before[i / 8], j)
      {
        MaskOps(before[i / 8], i % 8, j);
      }
      WriteBit(before, bits[..], i, v);
    }

    /** `set(i, v)`: the branch-free assignment of one bit. */
    method Assign(i: nat, v: bool)
      requires i < 8 * bits.Length
      modifies bits
      ensures Members() == if v then old(Members()) + {i} else old(Members()) - {i}
    {
      hide Mask, BitOf, Blend, SetOf;
      ghost var before := bits[..];
      bits[i / 8] := Blend(bits[i / 8], if v then 0xff else 0, Mask(i % 8));
      assert bits[..] == before[i / 8 := bits[i / 8]];
      forall j: nat | j < 8
        ensures BitOf(bits[i / 8], j) == if j == i % 8 then v else BitOf(before[i / 8], j)
      {
        BlendWrites(before[i / 8], v, i % 8, j);
      }
      WriteBit(before, bits[..], i, v);
    }

    // The byte at `k`; `past` is whatever lies in memory just after the array.
    function At(k: nat, past: bv8): (b: bv8)
      requires k <= bits.Length
      reads bits
      ensures b == (bits[..] + [past])[k]
    {
      if k < bits.Length then bits[k] else past
    }

    lemma {:induction false} MembersTotal()
      ensures ByteTotal(bits[..]) == |Members()|
    {
      TotalIsCardinality(bits[..]);
    }

    /**
     `count`: steps of eight, four and two bytes. Every step is taken when all but one of its
     bytes are left, so an odd array is read one byte past its end and the set bits of that
     byte are counted too.
     */
    method Count(past: bv8) returns (n: nat)
      ensures n == |Members()| + if bits.Length % 2 == 1 then Count8(past) else 0
      ensures n == |Members()| <==> bits.Length % 2 == 0 || past == 0
    {
      hide *;
      ghost var mem := bits[..] + [past];
      TotalOfNone(mem);
      n := 0;
      var src, dst := 0, bits.Length;
      while src + 7 <= dst
        invariant src <= dst + 1 && src % 2 == 0
        invariant n == ByteTotal(mem[..src])
      {
        n := n + Popcnt(Load(At(src, past), At(src + 1, past), At(src + 2, past), At(src + 3, past),
                             At(src + 4, past), At(src + 5, past), At(src + 6, past), At(src + 7, past)));
        CountStep8(mem, src);
        src := src + 8;
      }
      OnlyZeroIsEmpty(past);
      if src + 3 <= dst {
        n := n + Popcnt(Load(At(src, past), At(src + 1, past), At(src + 2, past), At(src + 3, past), 0, 0, 0, 0));
        CountStep4(mem, src);
        src := src + 4;
      }
      if src + 1 <= dst {
        n := n + Popcnt(Load(At(src, past), At(src + 1, past), 0, 0, 0, 0, 0, 0));
        CountStep2(mem, src);
        src := src + 2;
      }
      if src < dst {
        // The two-byte step has consumed the last byte: the source's one-byte step is never reached.
        assert false;
      }
      assert mem[..dst] == bits[..];
      TotalStep(mem, dst);
      MembersTotal();
    }
  }
}
