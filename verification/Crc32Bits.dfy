// The checksum seen bit by bit: the bit-serial register, its agreement with the
// bytewise one, and the detection of every error burst of 32 bits or fewer.
module Crc32Bits {
  import opened Crc32Table
  import opened Crc32
  import T = Crc32Theorems

  type Bits = seq<bool>

  // ----- bits in the order of transmission: least significant first -----

  function Odd(x: bv32): bool {
    x & 1 == 1
  }

  function Half(x: bv32): bv32 {
    x >> 1
  }

  function BitsOfWord(x: bv32, n: nat): (bits: Bits)
    ensures |bits| == n
    decreases n, x
  {
    if n == 0 then [] else [Odd(x)] + BitsOfWord(Half(x), n - 1)
  }

  function ByteBits(b: bv8): (bits: Bits)
    ensures |bits| == 8
  {
    BitsOfWord(Word(b), 8)
  }

  function BitsOf(data: Bytes): (bits: Bits)
    ensures |bits| == 8 * |data|
  {
    if data == [] then []
    else BitsOf(data[..|data| - 1]) + ByteBits(data[|data| - 1])
  }

  /** The word whose low bits are the given ones. */
  function WordOf(bits: Bits): bv32 {
    if bits == [] then 0 else Prepend(bits[0], WordOf(bits[1..]))
  }

  function Prepend(bit: bool, x: bv32): bv32 {
    Xor(Unit(bit), x << 1)
  }

  function Unit(bit: bool): bv32 {
    if bit then 1 else 0
  }

  /** All bits from position n upward. */
  function HighMask(n: nat): bv32
    decreases n
  {
    if n == 0 then ALL_ONES else HighMask(n - 1) << 1
  }

  predicate FitsIn(x: bv32, n: nat) {
    x & HighMask(n) == 0
  }

  lemma MaskNext(n: nat) returns (m: bv32)
    ensures m == HighMask(n) && HighMask(n + 1) == m << 1
  {
    m := HighMask(n);
  }

  lemma PrependFits(bit: bool, x: bv32, n: nat)
    requires FitsIn(x, n)
    ensures FitsIn(Prepend(bit, x), n + 1)
  {
    hide HighMask, Prepend;
    var m := MaskNext(n);
    PrependMask(bit, x, m);
  }

  lemma PrependMask(bit: bool, x: bv32, m: bv32)
    requires x & m == 0
    ensures Prepend(bit, x) & (m << 1) == 0
  {
    if bit {
      OddMask(x, m);
    } else {
      EvenMask(x, m);
    }
  }

  lemma OddMask(x: bv32, m: bv32)
    requires x & m == 0
    ensures (1 ^ (x << 1)) & (m << 1) == 0
  {
  }

  lemma EvenMask(x: bv32, m: bv32)
    requires x & m == 0
    ensures (0 ^ (x << 1)) & (m << 1) == 0
  {
  }

  lemma {:induction false} WordOfFits(bits: Bits)
    ensures FitsIn(WordOf(bits), |bits|)
    decreases |bits|
  {
    hide Prepend, FitsIn;
    if bits == [] {
      ZeroFits(0);
    } else {
      WordOfFits(bits[1..]);
      PrependFits(bits[0], WordOf(bits[1..]), |bits| - 1);
    }
  }

  lemma ZeroFits(n: nat)
    ensures FitsIn(0, n)
  {
  }

  lemma HalfFits(x: bv32, n: nat)
    requires n > 0 && FitsIn(x, n)
    ensures FitsIn(Half(x), n - 1)
  {
    hide HighMask, Half;
    var m := MaskNext(n - 1);
    HalfMask(x, m);
  }

  lemma HalfMask(x: bv32, m: bv32)
    requires x & (m << 1) == 0
    ensures Half(x) & m == 0
  {
  }

  lemma Rejoin(x: bv32)
    ensures Prepend(Odd(x), Half(x)) == x
  {
    if Odd(x) {
      RejoinOdd(x);
    } else {
      RejoinEven(x);
    }
  }

  lemma RejoinOdd(x: bv32)
    requires x & 1 == 1
    ensures 1 ^ ((x >> 1) << 1) == x
  {
  }

  lemma RejoinEven(x: bv32)
    requires x & 1 != 1
    ensures 0 ^ ((x >> 1) << 1) == x
  {
  }

  lemma {:induction false} FitsMore(x: bv32, n: nat)
    requires FitsIn(x, n)
    ensures FitsIn(x, n + 1)
    decreases n
  {
    hide FitsIn, Half, Odd, Prepend;
    if n == 0 {
      NothingFitsInZero(x);
      ZeroFits(1);
    } else {
      HalfFits(x, n);
      FitsMore(Half(x), n - 1);
      PrependFits(Odd(x), Half(x), n);
      Rejoin(x);
    }
  }

  lemma NothingFitsInZero(x: bv32)
    requires FitsIn(x, 0)
    ensures x == 0
  {
  }

  lemma {:induction false} TopClear(x: bv32, n: nat)
    requires n <= 31 && FitsIn(x, n)
    ensures x & 0x80000000 == 0
    decreases 31 - n
  {
    if n == 31 {
      assert HighMask(8) == 0xFFFFFF00;
      assert HighMask(16) == 0xFFFF0000;
      assert HighMask(24) == 0xFF000000;
      assert HighMask(31) == 0x80000000;
    } else {
      hide FitsIn;
      FitsMore(x, n);
      TopClear(x, n + 1);
    }
  }

  lemma PrependParts(bit: bool, x: bv32)
    requires x & 0x80000000 == 0
    ensures Odd(Prepend(bit, x)) == bit && Half(Prepend(bit, x)) == x
  {
    if bit {
      PrependOne(x);
    } else {
      PrependZero(x);
    }
  }

  lemma PrependOne(x: bv32)
    requires x & 0x80000000 == 0
    ensures (1 ^ (x << 1)) & 1 == 1 && (1 ^ (x << 1)) >> 1 == x
  {
  }

  lemma PrependZero(x: bv32)
    requires x & 0x80000000 == 0
    ensures (0 ^ (x << 1)) & 1 != 1 && (0 ^ (x << 1)) >> 1 == x
  {
  }

  /** Up to 32 bits can be read back from the word that holds them. */
  lemma {:induction false} WordHoldsBits(bits: Bits)
    requires |bits| <= 32
    ensures BitsOfWord(WordOf(bits), |bits|) == bits
    decreases |bits|
  {
    hide Odd, Half, Prepend, FitsIn;
    if bits != [] {
      var rest := WordOf(bits[1..]);
      WordHoldsBits(bits[1..]);
      WordOfFits(bits[1..]);
      TopClear(rest, |bits| - 1);
      PrependParts(bits[0], rest);
    }
  }

  lemma {:induction false} BitsHoldWord(x: bv32, n: nat)
    requires FitsIn(x, n)
    ensures WordOf(BitsOfWord(x, n)) == x
    decreases n
  {
    hide Odd, Half, Prepend, FitsIn;
    if n == 0 {
      NothingFitsInZero(x);
    } else {
      HalfFits(x, n);
      BitsHoldWord(Half(x), n - 1);
      Rejoin(x);
      assert BitsOfWord(x, n)[1..] == BitsOfWord(Half(x), n - 1);
    }
  }

  // ----- the register, fed a bit at a time -----

  function FeedBit(s: bv32, bit: bool): bv32 {
    BitStep(Xor(s, Unit(bit)))
  }

  /** The bit-serial reference: one division step to a message bit. */
  function Feed(s: bv32, bits: Bits): bv32
    decreases |bits|
  {
    if bits == [] then s else Feed(FeedBit(s, bits[0]), bits[1..])
  }

  lemma {:induction false} FeedConcat(s: bv32, a: Bits, b: Bits)
    ensures Feed(s, a + b) == Feed(Feed(s, a), b)
    decreases |a|
  {
    hide FeedBit;
    if a == [] {
      assert a + b == b;
    } else {
      assert (a + b)[1..] == a[1..] + b;
      FeedConcat(FeedBit(s, a[0]), a[1..], b);
    }
  }

  lemma FeedBitInjective(s: bv32, t: bv32, bit: bool)
    requires s != t
    ensures FeedBit(s, bit) != FeedBit(t, bit)
  {
    hide BitStep, Xor, BitUnstep;
    T.XorCancels(s, t, Unit(bit));
    BitStepInvertible(Xor(s, Unit(bit)));
    BitStepInvertible(Xor(t, Unit(bit)));
  }

  lemma {:induction false} FeedInjective(s: bv32, t: bv32, bits: Bits)
    requires s != t
    ensures Feed(s, bits) != Feed(t, bits)
    decreases |bits|
  {
    hide FeedBit;
    if bits != [] {
      FeedBitInjective(s, t, bits[0]);
      FeedInjective(FeedBit(s, bits[0]), FeedBit(t, bits[0]), bits[1..]);
    }
  }

  lemma ShiftedStep(x: bv32)
    requires x & 0x80000000 == 0
    ensures BitStep(x << 1) == x
  {
  }

  lemma StepOverPrepended(s: bv32, bit: bool, x: bv32)
    requires x & 0x80000000 == 0
    ensures BitStep(Xor(s, Prepend(bit, x))) == Xor(FeedBit(s, bit), x)
  {
    hide Xor, BitStep;
    var shifted := x << 1;
    ShiftedStep(x);
    T.XorLaws(s, Unit(bit), shifted);
    BitStepLinear(Xor(s, Unit(bit)), shifted);
  }

  /** Feeding at most 32 bits is adding their word to the register and stepping that often. */
  lemma {:induction false} FeedIsSteps(s: bv32, bits: Bits)
    requires |bits| <= 32
    ensures Feed(s, bits) == Steps(Xor(s, WordOf(bits)), |bits|)
    decreases |bits|
  {
    hide FeedBit, Xor, BitStep, Prepend, FitsIn;
    if bits == [] {
      T.XorLaws(s, s, s);
    } else {
      var rest := WordOf(bits[1..]);
      WordOfFits(bits[1..]);
      TopClear(rest, |bits| - 1);
      StepOverPrepended(s, bits[0], rest);
      FeedIsSteps(FeedBit(s, bits[0]), bits[1..]);
    }
  }

  lemma ByteFits(b: bv8)
    ensures FitsIn(Word(b), 8)
  {
    assert HighMask(8) == 0xFFFFFF00;
  }

  lemma FeedByte(s: bv32, b: bv8)
    ensures Feed(s, ByteBits(b)) == Steps(Xor(s, Word(b)), 8)
  {
    hide Feed, Steps, Xor, FitsIn, Word, BitsOfWord, WordOf;
    ByteFits(b);
    BitsHoldWord(Word(b), 8);
    FeedIsSteps(s, ByteBits(b));
  }

  /** The bytewise register is the bit-serial one. */
  lemma {:induction false} AbsorbIsFeed(s: bv32, data: Bytes)
    ensures Absorb(s, data) == Feed(s, BitsOf(data))
    decreases |data|
  {
    hide Steps, Xor, Word, ByteBits, Feed;
    if data == [] {
      FeedNothing(s);
    } else {
      var n := |data| - 1;
      AbsorbIsFeed(s, data[..n]);
      FeedConcat(s, BitsOf(data[..n]), ByteBits(data[n]));
      FeedByte(Absorb(s, data[..n]), data[n]);
    }
  }

  lemma FeedNothing(s: bv32)
    ensures Feed(s, []) == s
  {
  }

  // ----- error bursts -----

  lemma {:induction false} BitsOfInjective(a: Bytes, b: Bytes)
    requires |a| == |b| && BitsOf(a) == BitsOf(b)
    ensures a == b
    decreases |a|
  {
    hide ByteBits;
    if a != [] {
      var n := |a| - 1;
      var p, q := BitsOf(a[..n]), BitsOf(b[..n]);
      assert BitsOf(a)[..8 * n] == p && BitsOf(b)[..8 * n] == q;
      assert BitsOf(a)[8 * n..] == ByteBits(a[n]) && BitsOf(b)[8 * n..] == ByteBits(b[n]);
      BitsOfInjective(a[..n], b[..n]);
      ByteBitsInjective(a[n], b[n]);
      assert a == a[..n] + [a[n]] && b == b[..n] + [b[n]];
    }
  }

  lemma ByteBitsInjective(x: bv8, y: bv8)
    requires ByteBits(x) == ByteBits(y)
    ensures x == y
  {
    hide FitsIn, BitsOfWord, WordOf;
    ByteFits(x);
    ByteFits(y);
    BitsHoldWord(Word(x), 8);
    BitsHoldWord(Word(y), 8);
    Narrow(x, y);
  }

  lemma Narrow(x: bv8, y: bv8)
    requires Word(x) == Word(y)
    ensures x == y
  {
  }

  lemma WindowInjective(s: bv32, v: Bits, w: Bits)
    requires |v| == |w| <= 32 && v != w
    ensures Feed(s, v) != Feed(s, w)
  {
    hide Feed, Steps, Xor, BitsOfWord, WordOf;
    WordHoldsBits(v);
    WordHoldsBits(w);
    FeedIsSteps(s, v);
    FeedIsSteps(s, w);
    T.XorCancels(WordOf(v), WordOf(w), s);
    T.XorLaws(WordOf(v), s, s);
    T.XorLaws(WordOf(w), s, s);
    StepsInjective(Xor(s, WordOf(v)), Xor(s, WordOf(w)), |v|);
  }

  lemma ComplementInjective(s: bv32, t: bv32)
    requires s != t
    ensures Xor(s, ALL_ONES) != Xor(t, ALL_ONES)
  {
    T.XorCancels(s, t, ALL_ONES);
  }

  /** Two different messages of one length that agree outside a window of 32 bits never collide. */
  lemma BurstDetected(a: Bytes, b: Bytes, start: nat)
    requires |a| == |b| && a != b
    requires forall i :: 0 <= i < 8 * |a| && !(start <= i < start + 32) ==> BitsOf(a)[i] == BitsOf(b)[i]
    ensures Crc(a) != Crc(b)
  {
    hide Feed, Absorb, Xor, BitsOf, Crc;
    var x, y := BitsOf(a), BitsOf(b);
    if x == y {
      BitsOfInjective(a, b);
    }
    var v, w := Splice(x, y, start);
    SplicedFeedsDiffer(ALL_ONES, x[..start], v, w, x[start + |v|..]);
    CrcsDiffer(a, b);
  }

  lemma CrcsDiffer(a: Bytes, b: Bytes)
    requires Feed(ALL_ONES, BitsOf(a)) != Feed(ALL_ONES, BitsOf(b))
    ensures Crc(a) != Crc(b)
  {
    hide Feed, Absorb, Xor, BitsOf;
    AbsorbIsFeed(ALL_ONES, a);
    AbsorbIsFeed(ALL_ONES, b);
    ComplementInjective(Absorb(ALL_ONES, a), Absorb(ALL_ONES, b));
  }

  lemma Splice(x: Bits, y: Bits, start: nat) returns (v: Bits, w: Bits)
    requires |x| == |y| && x != y
    requires forall i :: 0 <= i < |x| && !(start <= i < start + 32) ==> x[i] == y[i]
    ensures |v| == |w| <= 32 && v != w && start + |v| <= |x|
    ensures x == x[..start] + (v + x[start + |v|..])
    ensures y == x[..start] + (w + x[start + |v|..])
  {
    assert start < |x|;
    var end := if start + 32 <= |x| then start + 32 else |x|;
    v, w := x[start..end], y[start..end];
    assert x == x[..start] + (v + x[end..]);
    assert y == x[..start] + (w + x[end..]);
  }

  lemma SplicedFeedsDiffer(s: bv32, prefix: Bits, v: Bits, w: Bits, suffix: Bits)
    requires |v| == |w| <= 32 && v != w
    ensures Feed(s, prefix + (v + suffix)) != Feed(s, prefix + (w + suffix))
  {
    hide Feed;
    var t := Feed(s, prefix);
    FeedConcat(s, prefix, v + suffix);
    FeedConcat(s, prefix, w + suffix);
    FeedConcat(t, v, suffix);
    FeedConcat(t, w, suffix);
    WindowInjective(t, v, w);
    FeedInjective(Feed(t, v), Feed(t, w), suffix);
  }
}
