// The checksum as the standards state it: a remainder of long division of
// polynomials over GF(2), written as coefficient sequences, highest power first.
module Crc32Division {
  import opened Crc32Table
  import opened Crc32
  import opened Crc32Bits

  /** The powers in the generator X^32+X^26+X^23+X^22+X^16+X^12+X^11+X^10+X^8+X^7+X^5+X^4+X^2+X+1. */
  predicate HasPower(k: int) {
    k in {0, 1, 2, 4, 5, 7, 8, 10, 11, 12, 16, 22, 23, 26, 32}
  }

  function Generator(): (g: Bits)
    ensures |g| == 33
  {
    seq(33, i requires 0 <= i < 33 => HasPower(32 - i))
  }

  /** Subtract g, aligned with the leading coefficients of d. */
  function SubtractLeading(d: Bits, g: Bits): (r: Bits)
    requires |g| <= |d|
    ensures |r| == |d|
  {
    seq(|d|, i requires 0 <= i < |d| => if i < |g| then d[i] != g[i] else d[i])
  }

  /** Schoolbook long division: cancel leading terms until 32 coefficients are left. */
  function Remainder(d: Bits): Bits
    decreases |d|
  {
    if |d| <= 32 then d
    else if d[0] then Remainder(SubtractLeading(d, Generator())[1..])
    else Remainder(d[1..])
  }

  function Zeros(n: nat): (z: Bits)
    ensures |z| == n
  {
    seq(n, i => false)
  }

  function Ones(n: nat): (z: Bits)
    ensures |z| == n
  {
    seq(n, i => true)
  }

  function Complemented(b: Bits): (r: Bits)
    ensures |r| == |b|
  {
    seq(|b|, i requires 0 <= i < |b| => !b[i])
  }

  // ----- coefficients of register words -----

  lemma OddXor(x: bv32, y: bv32)
    ensures Odd(Xor(x, y)) == (Odd(x) != Odd(y))
    ensures Half(Xor(x, y)) == Xor(Half(x), Half(y))
  {
  }

  lemma {:induction false} BitsOfXor(x: bv32, y: bv32, n: nat)
    ensures BitsOfWord(Xor(x, y), n) == SubtractLeading(BitsOfWord(x, n), BitsOfWord(y, n))
    decreases n
  {
    hide Odd, Half, Xor;
    if n > 0 {
      OddXor(x, y);
      BitsOfXor(Half(x), Half(y), n - 1);
    }
  }

  lemma {:induction false} LeadingZero(x: bv32, n: nat)
    requires FitsIn(x, n)
    ensures BitsOfWord(x, n + 1) == BitsOfWord(x, n) + [false]
    decreases n
  {
    hide Odd, Half, FitsIn;
    if n == 0 {
      NothingFitsInZero(x);
      assert Odd(0) == false by { ZeroIsEven(); }
      assert BitsOfWord(x, 1) == [false] + BitsOfWord(Half(x), 0);
    } else {
      HalfFits(x, n);
      LeadingZero(Half(x), n - 1);
    }
  }

  lemma ZeroIsEven()
    ensures Odd(0) == false
  {
  }

  lemma HalfFitsInWord(x: bv32)
    ensures FitsIn(Half(x), 31)
  {
    assert HighMask(8) == 0xFFFFFF00;
    assert HighMask(16) == 0xFFFF0000;
    assert HighMask(24) == 0xFF000000;
    assert HighMask(31) == 0x80000000;
  }

  /** Halving the word drops the leading coefficient and appends a zero. */
  lemma BitsOfHalf(x: bv32)
    ensures BitsOfWord(Half(x), 32) == BitsOfWord(x, 32)[1..] + [false]
  {
    hide Odd, Half, FitsIn;
    HalfFitsInWord(x);
    LeadingZero(Half(x), 31);
  }

  // ----- the register after n bits is the remainder so far -----

  /** One step of the division when the leading coefficient is bit and register combined. */
  lemma BitsOfStep(s: bv32)
    ensures BitsOfWord(BitStep(s), 32)
         == if Odd(s) then SubtractLeading(BitsOfWord(s, 32)[1..] + [false], Generator()[1..])
            else BitsOfWord(s, 32)[1..] + [false]
  {
    hide BitsOfWord;
    BitsOfHalf(s);
    StepIsHalf(s);
    GeneratorIsPolynomial();
    BitsOfXor(Half(s), POLYNOMIAL, 32);
  }

  lemma StepIsHalf(s: bv32)
    ensures BitStep(s) == if Odd(s) then Xor(Half(s), POLYNOMIAL) else Half(s)
  {
  }

  lemma BitsOfUnit(s: bv32, bit: bool)
    ensures Odd(Xor(s, Unit(bit))) == (Odd(s) != bit)
    ensures BitsOfWord(Xor(s, Unit(bit)), 32)[1..] == BitsOfWord(s, 32)[1..]
  {
    hide BitsOfWord, Odd, Half, Xor;
    UnitHalves(s, bit);
    BitsTail(s);
    BitsTail(Xor(s, Unit(bit)));
  }

  lemma BitsTail(x: bv32)
    ensures BitsOfWord(x, 32)[1..] == BitsOfWord(Half(x), 31)
    ensures BitsOfWord(x, 32)[0] == Odd(x)
  {
    hide Odd, Half;
  }

  lemma UnitHalves(s: bv32, bit: bool)
    ensures Odd(Xor(s, Unit(bit))) == (Odd(s) != bit)
    ensures Half(Xor(s, Unit(bit))) == Half(s)
  {
  }

  lemma {:induction false} RegisterIsRemainder(s: bv32, bits: Bits)
    ensures Remainder(SubtractLeading(bits + Zeros(32), BitsOfWord(s, 32))) == BitsOfWord(Feed(s, bits), 32)
    decreases |bits|
  {
    hide FeedBit, BitsOfWord;
    var r := BitsOfWord(s, 32);
    var d := SubtractLeading(bits + Zeros(32), r);
    if bits == [] {
      assert d == r;
    } else {
      var s' := FeedBit(s, bits[0]);
      var r' := BitsOfWord(s', 32);
      var rest := bits[1..] + Zeros(32);
      DivisionStep(s, bits[0], rest);
      assert bits + Zeros(32) == [bits[0]] + rest;
      RegisterIsRemainder(s', bits[1..]);
    }
  }

  lemma DivisionStep(s: bv32, bit: bool, rest: Bits)
    requires |rest| >= 32
    ensures var d := SubtractLeading([bit] + rest, BitsOfWord(s, 32));
            var d' := SubtractLeading(rest, BitsOfWord(FeedBit(s, bit), 32));
            d' == if d[0] then SubtractLeading(d, Generator())[1..] else d[1..]
  {
    hide BitsOfWord, Xor, BitStep, Odd;
    var x := Xor(s, Unit(bit));
    BitsOfUnit(s, bit);
    BitsOfStep(x);
    BitsTail(s);
  }

  /** The constant that the register is stepped with is the generator that the source's comment spells out. */
  lemma GeneratorIsPolynomial()
    ensures Generator()[1..] == BitsOfWord(POLYNOMIAL, 32)
  {
    hide BitsOfWord;
    PolynomialBits();
    GeneratorCoefficients();
  }

  const COEFFICIENTS: Bits := [false, false, false, false, false, true, false, false,
          true, true, false, false, false, false, false, true,
          false, false, false, true, true, true, false, true,
          true, false, true, true, false, true, true, true]

  lemma GeneratorCoefficients()
    ensures Generator()[1..] == COEFFICIENTS
  {
    assert |COEFFICIENTS| == 32;
  }

  function Halves(x: bv32, n: nat): bv32
    decreases n, x
  {
    if n == 0 then x else Halves(Half(x), n - 1)
  }

  lemma {:induction false} BitsSplit(x: bv32, m: nat, n: nat)
    ensures BitsOfWord(x, m + n) == BitsOfWord(x, m) + BitsOfWord(Halves(x, m), n)
    decreases m
  {
    hide Odd, Half;
    if m > 0 {
      BitsSplit(Half(x), m - 1, n);
    }
  }

  lemma PolynomialBits()
    ensures BitsOfWord(POLYNOMIAL, 32) == COEFFICIENTS
  {
    hide BitsOfWord, Halves;
    PolynomialByte0();
    PolynomialByte1();
    PolynomialByte2();
    PolynomialByte3();
    BitsSplit(0xEDB88320, 8, 24);
    BitsSplit(0xEDB883, 8, 16);
    BitsSplit(0xEDB8, 8, 8);
  }

  lemma PolynomialByte0()
    ensures BitsOfWord(0xEDB88320, 8) == [false, false, false, false, false, true, false, false]
    ensures Halves(0xEDB88320, 8) == 0xEDB883
  {
  }

  lemma PolynomialByte1()
    ensures BitsOfWord(0xEDB883, 8) == [true, true, false, false, false, false, false, true]
    ensures Halves(0xEDB883, 8) == 0xEDB8
  {
  }

  lemma PolynomialByte2()
    ensures BitsOfWord(0xEDB8, 8) == [false, false, false, true, true, true, false, true]
    ensures Halves(0xEDB8, 8) == 0xED
  {
  }

  lemma PolynomialByte3()
    ensures BitsOfWord(0xED, 8) == [true, false, true, true, false, true, true, true]
  {
  }

  /** The checksum complements the remainder of the message, its first 32 bits complemented and 32 zeros appended. */
  lemma CrcIsComplementedRemainder(data: Bytes)
    ensures BitsOfWord(Crc(data), 32)
         == Complemented(Remainder(SubtractLeading(BitsOf(data) + Zeros(32), Ones(32))))
  {
    hide Feed, Absorb, Xor, BitsOfWord, Remainder;
    AbsorbIsFeed(ALL_ONES, data);
    RegisterIsRemainder(ALL_ONES, BitsOf(data));
    OnesBits();
    BitsOfXor(Absorb(ALL_ONES, data), ALL_ONES, 32);
  }

  lemma OnesBits()
    ensures BitsOfWord(ALL_ONES, 32) == Ones(32)
  {
    hide BitsOfWord, Halves;
    OnesByte0();
    OnesByte1();
    OnesByte2();
    OnesByte3();
    BitsSplit(0xFFFFFFFF, 8, 24);
    BitsSplit(0xFFFFFF, 8, 16);
    BitsSplit(0xFFFF, 8, 8);
  }

  const ONE_BYTE: Bits := [true, true, true, true, true, true, true, true]

  lemma OnesByte0()
    ensures BitsOfWord(0xFFFFFFFF, 8) == ONE_BYTE
    ensures Halves(0xFFFFFFFF, 8) == 0xFFFFFF
  {
  }

  lemma OnesByte1()
    ensures BitsOfWord(0xFFFFFF, 8) == ONE_BYTE
    ensures Halves(0xFFFFFF, 8) == 0xFFFF
  {
  }

  lemma OnesByte2()
    ensures BitsOfWord(0xFFFF, 8) == ONE_BYTE
    ensures Halves(0xFFFF, 8) == 0xFF
  {
  }

  lemma OnesByte3()
    ensures BitsOfWord(0xFF, 8) == ONE_BYTE
  {
  }
}
