/**
 The population count of util/bitset.h: a branch-free SWAR ("SIMD within a register") sum
 over a 64-bit word, and the proof that it counts the set bits of every word.

 Every arithmetic step has a name, and the lemmas that combine steps hide the definitions:
 the solver then argues by congruence and meets 64-bit adders only in the leaf lemmas.
 */
module Popcount {

  type word = bv64

  /** The lowest bit of `v`, as a number. */
  function LowBit(v: word): nat {
    if v & 1 == 1 then 1 else 0
  }

  /** The number of set bits among the `n` lowest bits of `v`: the meaning of the count. */
  function Ones(v: word, n: nat): nat {
    if n == 0 then 0 else LowBit(v) + Ones(v >> 1, n - 1)
  }

  function Plus(a: word, b: word): word { a + b }

  function Minus(a: word, b: word): word { a - b }

  function Odd(v: word): word { (v >> 1) & 0x5555555555555555 }

  function Even(v: word): word { v & 0x5555555555555555 }

  // From two-bit counts to byte counts: the second line and the first half of the third line.
  function ByteSums(pairs: word): word {
    var nibbles := (pairs & 0x3333333333333333) + ((pairs >> 2) & 0x3333333333333333);
    (nibbles + (nibbles >> 4)) & 0x0F0F0F0F0F0F0F0F
  }

  function MulC(x: word): word { x * 0x0101010101010101 }

  function Shr56(x: word): word { x >> 56 }

  /** The three lines of `popcnt`. */
  function PopcntWord(v: word): word {
    Shr56(MulC(ByteSums(Minus(v, Odd(v)))))
  }

  function Popcnt(v: word): (n: nat) {
    PopcntWord(v) as nat
  }

  // ---------- First line: v minus its odd bits is the sum of the odd and the even bits ----------

  function Join(odd: word, even: word): word { odd * 2 + even }

  function BitPairs(v: word): word { Plus(Odd(v), Even(v)) }

  lemma {:induction false} SplitOddEven(v: word)
    ensures v == Join(Odd(v), Even(v))
  {
  }

  lemma {:induction false} JoinIs(odd: word, even: word)
    ensures Join(odd, even) == odd * 2 + even
  {
  }

  lemma {:induction false} MinusOddRaw(odd: word, even: word)
    ensures Minus(odd * 2 + even, odd) == Plus(odd, even)
  {
  }

  lemma {:induction false} MinusOdd(odd: word, even: word)
    ensures Minus(Join(odd, even), odd) == Plus(odd, even)
  {
    hide *;
    JoinIs(odd, even);
    MinusOddRaw(odd, even);
  }

  lemma {:induction false} BitPairsIs(v: word)
    ensures BitPairs(v) == Plus(Odd(v), Even(v))
  {
    hide Plus, Odd, Even;
  }

  lemma {:induction false} FirstLine(v: word)
    ensures Minus(v, Odd(v)) == BitPairs(v)
  {
    hide *;
    BitPairsIs(v);
    SplitOddEven(v);
    MinusOdd(Odd(v), Even(v));
  }

  // ---------- Each byte lane of ByteSums counts one byte of v ----------

  function ByteOnes(v: word): word {
    (v & 1) + ((v >> 1) & 1) + ((v >> 2) & 1) + ((v >> 3) & 1) + ((v >> 4) & 1) + ((v >> 5) & 1)
    + ((v >> 6) & 1) + ((v >> 7) & 1)
  }

  // The word moved down by k bytes.
  function Down(x: word, k: nat): word
    requires k < 8
  {
    match k
    case 0 => x
    case 1 => x >> 8
    case 2 => x >> 16
    case 3 => x >> 24
    case 4 => x >> 32
    case 5 => x >> 40
    case 6 => x >> 48
    case _ => x >> 56
  }

  function Lane(x: word, k: nat): word
    requires k < 8
  {
    Down(x, k) & 0xff
  }

  lemma {:induction false} LanesLow(v: word)
    ensures Lane(ByteSums(BitPairs(v)), 0) == ByteOnes(v)
    ensures Lane(ByteSums(BitPairs(v)), 1) == ByteOnes(v >> 8)
    ensures Lane(ByteSums(BitPairs(v)), 2) == ByteOnes(v >> 16)
    ensures Lane(ByteSums(BitPairs(v)), 3) == ByteOnes(v >> 24)
  {
  }

  lemma {:induction false} LanesHigh(v: word)
    ensures Lane(ByteSums(BitPairs(v)), 4) == ByteOnes(v >> 32)
    ensures Lane(ByteSums(BitPairs(v)), 5) == ByteOnes(v >> 40)
    ensures Lane(ByteSums(BitPairs(v)), 6) == ByteOnes(v >> 48)
    ensures Lane(ByteSums(BitPairs(v)), 7) == ByteOnes(v >> 56)
  {
  }

  lemma {:induction false} DownIs(v: word)
    ensures Down(v, 0) == v && Down(v, 1) == v >> 8 && Down(v, 2) == v >> 16 && Down(v, 3) == v >> 24
    ensures Down(v, 4) == v >> 32 && Down(v, 5) == v >> 40 && Down(v, 6) == v >> 48 && Down(v, 7) == v >> 56
  {
  }

  lemma {:induction false} LaneCounts(v: word, k: nat)
    requires k < 8
    ensures Lane(ByteSums(BitPairs(v)), k) == ByteOnes(Down(v, k))
  {
    hide *;
    DownIs(v);
    LanesLow(v);
    LanesHigh(v);
  }

  lemma {:induction false} ByteOnesAtMostEight(v: word)
    ensures ByteOnes(v) <= 8
  {
  }

  // ---------- The multiplication adds the eight lanes into the top byte ----------

  function Spread(b0: word, b1: word, b2: word, b3: word, b4: word, b5: word, b6: word, b7: word): word {
    b0 + b1 * 0x100 + b2 * 0x10000 + b3 * 0x1000000 + b4 * 0x100000000 + b5 * 0x10000000000
    + b6 * 0x1000000000000 + b7 * 0x100000000000000
  }

  lemma {:induction false} LaneSplit(x: word)
    ensures x == Spread(Lane(x, 0), Lane(x, 1), Lane(x, 2), Lane(x, 3), Lane(x, 4), Lane(x, 5), Lane(x, 6), Lane(x, 7))
  {
  }

  lemma {:induction false} SpreadIs(b0: word, b1: word, b2: word, b3: word, b4: word, b5: word, b6: word, b7: word)
    ensures Spread(b0, b1, b2, b3, b4, b5, b6, b7)
         == b0 + b1 * 0x100 + b2 * 0x10000 + b3 * 0x1000000 + b4 * 0x100000000 + b5 * 0x10000000000
            + b6 * 0x1000000000000 + b7 * 0x100000000000000
  {
  }

  lemma {:induction false} MulSpreadsRaw(b0: word, b1: word, b2: word, b3: word, b4: word, b5: word, b6: word, b7: word)
    ensures MulC(b0 + b1 * 0x100 + b2 * 0x10000 + b3 * 0x1000000 + b4 * 0x100000000 + b5 * 0x10000000000
                 + b6 * 0x1000000000000 + b7 * 0x100000000000000)
         == Spread(b0, b0 + b1, b0 + b1 + b2, b0 + b1 + b2 + b3, b0 + b1 + b2 + b3 + b4, b0 + b1 + b2 + b3 + b4 + b5,
                   b0 + b1 + b2 + b3 + b4 + b5 + b6, b0 + b1 + b2 + b3 + b4 + b5 + b6 + b7)
  {
  }

  lemma {:induction false} PlusIs(a: word, b: word)
    ensures Plus(a, b) == a + b
  {
  }

  // The running sums in named form are the plain sums.
  lemma {:induction false} PartialSum2(b0: word, b1: word, b2: word)
    ensures Plus(b0 + b1, b2) == b0 + b1 + b2
  {
  }

  lemma {:induction false} PartialSum3(b0: word, b1: word, b2: word, b3: word)
    ensures Plus(b0 + b1 + b2, b3) == b0 + b1 + b2 + b3
  {
  }

  lemma {:induction false} PartialSum4(b0: word, b1: word, b2: word, b3: word, b4: word)
    ensures Plus(b0 + b1 + b2 + b3, b4) == b0 + b1 + b2 + b3 + b4
  {
  }

  lemma {:induction false} PartialSum5(b0: word, b1: word, b2: word, b3: word, b4: word, b5: word)
    ensures Plus(b0 + b1 + b2 + b3 + b4, b5) == b0 + b1 + b2 + b3 + b4 + b5
  {
  }

  lemma {:induction false} PartialSum6(b0: word, b1: word, b2: word, b3: word, b4: word, b5: word, b6: word)
    ensures Plus(b0 + b1 + b2 + b3 + b4 + b5, b6) == b0 + b1 + b2 + b3 + b4 + b5 + b6
  {
  }

  lemma {:induction false} PartialSum7(b0: word, b1: word, b2: word, b3: word, b4: word, b5: word, b6: word, b7: word)
    ensures Plus(b0 + b1 + b2 + b3 + b4 + b5 + b6, b7) == b0 + b1 + b2 + b3 + b4 + b5 + b6 + b7
  {
  }

  function Sum8(b0: word, b1: word, b2: word, b3: word, b4: word, b5: word, b6: word, b7: word): word {
    Plus(Plus(Plus(Plus(Plus(Plus(Plus(b0, b1), b2), b3), b4), b5), b6), b7)
  }

  lemma {:induction false} Sum8Is(b0: word, b1: word, b2: word, b3: word, b4: word, b5: word, b6: word, b7: word)
    ensures Sum8(b0, b1, b2, b3, b4, b5, b6, b7)
         == Plus(Plus(Plus(Plus(Plus(Plus(Plus(b0, b1), b2), b3), b4), b5), b6), b7)
  {
    hide Plus;
  }

  lemma {:induction false} MulSpreads(b0: word, b1: word, b2: word, b3: word, b4: word, b5: word, b6: word, b7: word)
    ensures MulC(Spread(b0, b1, b2, b3, b4, b5, b6, b7))
         == Spread(b0, Plus(b0, b1), Plus(Plus(b0, b1), b2), Plus(Plus(Plus(b0, b1), b2), b3),
                   Plus(Plus(Plus(Plus(b0, b1), b2), b3), b4), Plus(Plus(Plus(Plus(Plus(b0, b1), b2), b3), b4), b5),
                   Plus(Plus(Plus(Plus(Plus(Plus(b0, b1), b2), b3), b4), b5), b6),
                   Sum8(b0, b1, b2, b3, b4, b5, b6, b7))
  {
    hide *;
    SpreadIs(b0, b1, b2, b3, b4, b5, b6, b7);
    MulSpreadsRaw(b0, b1, b2, b3, b4, b5, b6, b7);
    PlusIs(b0, b1);
    PartialSum2(b0, b1, b2);
    PartialSum3(b0, b1, b2, b3);
    PartialSum4(b0, b1, b2, b3, b4);
    PartialSum5(b0, b1, b2, b3, b4, b5);
    PartialSum6(b0, b1, b2, b3, b4, b5, b6);
    PartialSum7(b0, b1, b2, b3, b4, b5, b6, b7);
    Sum8Is(b0, b1, b2, b3, b4, b5, b6, b7);
  }

  lemma {:induction false} TopLane(s0: word, s1: word, s2: word, s3: word, s4: word, s5: word, s6: word, s7: word)
    requires s0 <= 0x7f && s1 <= 0x7f && s2 <= 0x7f && s3 <= 0x7f
    requires s4 <= 0x7f && s5 <= 0x7f && s6 <= 0x7f && s7 <= 0x7f
    ensures Shr56(Spread(s0, s1, s2, s3, s4, s5, s6, s7)) == s7
  {
  }

  lemma {:induction false} PlusBound(a: word, m: word, b: word)
    requires a <= m <= 0x70 && b <= 8
    ensures Plus(a, b) <= m + 8
  {
  }

  lemma {:induction false} TopLaneOfSums(b0: word, b1: word, b2: word, b3: word, b4: word, b5: word, b6: word, b7: word,
                      s1: word, s2: word, s3: word, s4: word, s5: word, s6: word, s7: word)
    requires b0 <= 8 && b1 <= 8 && b2 <= 8 && b3 <= 8 && b4 <= 8 && b5 <= 8 && b6 <= 8 && b7 <= 8
    requires s1 == Plus(b0, b1) && s2 == Plus(s1, b2) && s3 == Plus(s2, b3) && s4 == Plus(s3, b4)
    requires s5 == Plus(s4, b5) && s6 == Plus(s5, b6) && s7 == Plus(s6, b7)
    ensures Shr56(Spread(b0, s1, s2, s3, s4, s5, s6, s7)) == s7
  {
    hide *;
    PlusBound(b0, 8, b1);
    PlusBound(s1, 16, b2);
    PlusBound(s2, 24, b3);
    PlusBound(s3, 32, b4);
    PlusBound(s4, 40, b5);
    PlusBound(s5, 48, b6);
    PlusBound(s6, 56, b7);
    TopLane(b0, s1, s2, s3, s4, s5, s6, s7);
  }

  lemma {:induction false} MulAddsLanes(b0: word, b1: word, b2: word, b3: word, b4: word, b5: word, b6: word, b7: word)
    requires b0 <= 8 && b1 <= 8 && b2 <= 8 && b3 <= 8 && b4 <= 8 && b5 <= 8 && b6 <= 8 && b7 <= 8
    ensures Shr56(MulC(Spread(b0, b1, b2, b3, b4, b5, b6, b7))) == Sum8(b0, b1, b2, b3, b4, b5, b6, b7)
  {
    hide *;
    MulSpreads(b0, b1, b2, b3, b4, b5, b6, b7);
    Sum8Is(b0, b1, b2, b3, b4, b5, b6, b7);
    TopLaneOfSums(b0, b1, b2, b3, b4, b5, b6, b7,
                  Plus(b0, b1), Plus(Plus(b0, b1), b2), Plus(Plus(Plus(b0, b1), b2), b3),
                  Plus(Plus(Plus(Plus(b0, b1), b2), b3), b4), Plus(Plus(Plus(Plus(Plus(b0, b1), b2), b3), b4), b5),
                  Plus(Plus(Plus(Plus(Plus(Plus(b0, b1), b2), b3), b4), b5), b6),
                  Sum8(b0, b1, b2, b3, b4, b5, b6, b7));
  }

  lemma {:induction false} PopcntWordIs(v: word)
    ensures PopcntWord(v) == Shr56(MulC(ByteSums(Minus(v, Odd(v)))))
  {
    hide Shr56, MulC, ByteSums, Minus, Odd;
  }

  // The count of a word is the sum of the counts of its bytes.
  lemma {:induction false} PopcntAddsBytes(v: word)
    ensures PopcntWord(v)
         == Sum8(ByteOnes(Down(v, 0)), ByteOnes(Down(v, 1)), ByteOnes(Down(v, 2)), ByteOnes(Down(v, 3)),
                 ByteOnes(Down(v, 4)), ByteOnes(Down(v, 5)), ByteOnes(Down(v, 6)), ByteOnes(Down(v, 7)))
  {
    hide *;
    PopcntWordIs(v);
    FirstLine(v);
    forall k: nat | k < 8
      ensures Lane(ByteSums(BitPairs(v)), k) == ByteOnes(Down(v, k)) && ByteOnes(Down(v, k)) <= 8
    {
      LaneCounts(v, k);
      ByteOnesAtMostEight(Down(v, k));
    }
    var x := ByteSums(BitPairs(v));
    LaneSplit(x);
    MulAddsLanes(Lane(x, 0), Lane(x, 1), Lane(x, 2), Lane(x, 3), Lane(x, 4), Lane(x, 5), Lane(x, 6), Lane(x, 7));
  }

  // ---------- From word sums to numbers ----------

  function FromNat(k: nat): word {
    if k == 0 then 0 else Plus(1, FromNat(k - 1))
  }

  lemma {:induction false} SuccAsNat(x: word)
    requires x <= 64
    ensures Plus(1, x) as nat == x as nat + 1
  {
  }

  lemma {:induction false} SmallAsNat(x: word)
    requires x as nat <= 63
    ensures x <= 64
  {
  }

  lemma {:induction false} FromNatValue(k: nat)
    requires k <= 64
    ensures FromNat(k) as nat == k
  {
    if k == 0 {
    } else {
      hide Plus;
      FromNatValue(k - 1);
      SmallAsNat(FromNat(k - 1));
      SuccAsNat(FromNat(k - 1));
    }
  }

  lemma {:induction false} PlusTail(a: word, b: word, c: word)
    ensures Plus(a, b + c) == a + b + c
  {
  }

  lemma {:induction false} PlusAssociates(a: word, b: word, c: word)
    ensures Plus(Plus(a, b), c) == Plus(a, Plus(b, c))
  {
    hide *;
    PlusIs(a, b);
    PlusIs(b, c);
    PartialSum2(a, b, c);
    PlusTail(a, b, c);
  }

  lemma {:induction false} PlusZero(q: word)
    ensures Plus(0, q) == q
  {
  }

  lemma {:induction false} OnePlusZero()
    ensures Plus(1, 0) == 1
  {
  }

  lemma {:induction false} FromNatAdds(a: nat, b: nat)
    ensures Plus(FromNat(a), FromNat(b)) == FromNat(a + b)
  {
    hide Plus;
    if a == 0 {
      PlusZero(FromNat(b));
    } else {
      FromNatAdds(a - 1, b);
      PlusAssociates(1, FromNat(a - 1), FromNat(b));
    }
  }

  lemma {:induction false} BitFromNat(v: word)
    ensures v & 1 == FromNat(LowBit(v))
  {
    OnePlusZero();
    LowBitIsBit(v);
    hide Plus;
    assert FromNat(1) == Plus(1, FromNat(0));
  }

  lemma {:induction false} LowBitIsBit(v: word)
    ensures v & 1 == 0 || v & 1 == 1
  {
  }

  function ByteCount(v: word): nat {
    LowBit(v) + LowBit(v >> 1) + LowBit(v >> 2) + LowBit(v >> 3)
    + LowBit(v >> 4) + LowBit(v >> 5) + LowBit(v >> 6) + LowBit(v >> 7)
  }

  lemma {:induction false} Sum8FromNat(n0: nat, n1: nat, n2: nat, n3: nat, n4: nat, n5: nat, n6: nat, n7: nat)
    ensures Sum8(FromNat(n0), FromNat(n1), FromNat(n2), FromNat(n3), FromNat(n4), FromNat(n5), FromNat(n6), FromNat(n7))
         == FromNat(n0 + n1 + n2 + n3 + n4 + n5 + n6 + n7)
  {
    hide *;
    Sum8Is(FromNat(n0), FromNat(n1), FromNat(n2), FromNat(n3), FromNat(n4), FromNat(n5), FromNat(n6), FromNat(n7));
    FromNatAdds(n0, n1);
    FromNatAdds(n0 + n1, n2);
    FromNatAdds(n0 + n1 + n2, n3);
    FromNatAdds(n0 + n1 + n2 + n3, n4);
    FromNatAdds(n0 + n1 + n2 + n3 + n4, n5);
    FromNatAdds(n0 + n1 + n2 + n3 + n4 + n5, n6);
    FromNatAdds(n0 + n1 + n2 + n3 + n4 + n5 + n6, n7);
  }

  lemma {:induction false} ByteOnesIs(v: word)
    ensures ByteOnes(v) == Sum8(v & 1, (v >> 1) & 1, (v >> 2) & 1, (v >> 3) & 1,
                                (v >> 4) & 1, (v >> 5) & 1, (v >> 6) & 1, (v >> 7) & 1)
  {
  }

  lemma {:induction false} ByteOnesCounts(v: word)
    ensures ByteOnes(v) == FromNat(ByteCount(v))
  {
    hide ByteOnes, FromNat, LowBit, Plus, Sum8;
    ByteOnesIs(v);
    BitFromNat(v);
    BitFromNat(v >> 1);
    BitFromNat(v >> 2);
    BitFromNat(v >> 3);
    BitFromNat(v >> 4);
    BitFromNat(v >> 5);
    BitFromNat(v >> 6);
    BitFromNat(v >> 7);
    Sum8FromNat(LowBit(v), LowBit(v >> 1), LowBit(v >> 2), LowBit(v >> 3),
                LowBit(v >> 4), LowBit(v >> 5), LowBit(v >> 6), LowBit(v >> 7));
  }

  function Shr8(v: word): word { v >> 8 }

  lemma {:induction false} OnesByByte(v: word, n: nat)
    ensures Ones(v, n + 8) == ByteCount(v) + Ones(Shr8(v), n)
  {
    hide LowBit;
    assert Ones(v, n + 8) == LowBit(v) + LowBit(v >> 1) + Ones(v >> 2, n + 6);
    assert Ones(v >> 2, n + 6) == LowBit(v >> 2) + LowBit(v >> 3) + Ones(v >> 4, n + 4);
    assert Ones(v >> 4, n + 4) == LowBit(v >> 4) + LowBit(v >> 5) + Ones(v >> 6, n + 2);
    assert Ones(v >> 6, n + 2) == LowBit(v >> 6) + LowBit(v >> 7) + Ones(v >> 8, n);
  }

  lemma {:induction false} ShiftTwice(v: word)
    ensures Shr8(v) == v >> 8 && Shr8(v >> 8) == v >> 16 && Shr8(v >> 16) == v >> 24 && Shr8(v >> 24) == v >> 32
    ensures Shr8(v >> 32) == v >> 40 && Shr8(v >> 40) == v >> 48 && Shr8(v >> 48) == v >> 56
  {
  }

  lemma {:induction false} DownTwice(v: word, k: nat)
    requires k < 7
    ensures Shr8(Down(v, k)) == Down(v, k + 1)
  {
    hide *;
    DownIs(v);
    ShiftTwice(v);
  }

  // The set bits of a word, byte by byte from byte k on.
  function BytesFrom(v: word, k: nat): nat
    requires k <= 8
    decreases 8 - k
  {
    if k == 8 then 0 else ByteCount(Down(v, k)) + BytesFrom(v, k + 1)
  }

  lemma {:induction false} OnesFromByte(v: word, k: nat)
    requires k < 8
    ensures Ones(Down(v, k), 64 - 8 * k) == BytesFrom(v, k)
    decreases 8 - k
  {
    hide ByteCount, Down, LowBit, Shr8;
    OnesByByte(Down(v, k), 56 - 8 * k);
    if k < 7 {
      DownTwice(v, k);
      OnesFromByte(v, k + 1);
    }
  }

  lemma {:induction false} OnesOfWord(v: word)
    ensures Ones(v, 64) == ByteCount(Down(v, 0)) + ByteCount(Down(v, 1)) + ByteCount(Down(v, 2)) + ByteCount(Down(v, 3))
                           + ByteCount(Down(v, 4)) + ByteCount(Down(v, 5)) + ByteCount(Down(v, 6)) + ByteCount(Down(v, 7))
  {
    DownIs(v);
    hide ByteCount, Down, LowBit, Ones;
    OnesFromByte(v, 0);
    assert BytesFrom(v, 6) == ByteCount(Down(v, 6)) + ByteCount(Down(v, 7));
    assert BytesFrom(v, 4) == ByteCount(Down(v, 4)) + ByteCount(Down(v, 5)) + BytesFrom(v, 6);
    assert BytesFrom(v, 2) == ByteCount(Down(v, 2)) + ByteCount(Down(v, 3)) + BytesFrom(v, 4);
  }

  lemma {:induction false} OnesBound(v: word, n: nat)
    ensures Ones(v, n) <= n
  {
    if n == 0 {
    } else {
      OnesBound(v >> 1, n - 1);
    }
  }

  lemma {:induction false} PopcntAsNat(v: word)
    ensures Popcnt(v) == PopcntWord(v) as nat
  {
    hide PopcntWord;
  }

  /** The SWAR sum is the number of set bits, for every 64-bit word. */
  lemma {:induction false} PopcntCountsOnes(v: word)
    ensures Popcnt(v) == Ones(v, 64)
  {
    hide *;
    PopcntAsNat(v);
    PopcntAddsBytes(v);
    forall k: nat | k < 8
      ensures ByteOnes(Down(v, k)) == FromNat(ByteCount(Down(v, k)))
    {
      ByteOnesCounts(Down(v, k));
    }
    Sum8FromNat(ByteCount(Down(v, 0)), ByteCount(Down(v, 1)), ByteCount(Down(v, 2)), ByteCount(Down(v, 3)),
                ByteCount(Down(v, 4)), ByteCount(Down(v, 5)), ByteCount(Down(v, 6)), ByteCount(Down(v, 7)));
    OnesOfWord(v);
    OnesBound(v, 64);
    FromNatValue(Ones(v, 64));
  }
}
