// What the checksum guarantees as an algebra: it is affine, and a message and four
// bytes leave the fixed residue exactly when the bytes are the message's checksum.
module Crc32Theorems {
  import opened Crc32Table
  import opened Crc32

  // ----- addition of polynomials -----

  lemma XorLaws(a: bv32, b: bv32, c: bv32)
    ensures Xor(Xor(a, b), c) == Xor(a, Xor(b, c))
    ensures Xor(a, b) == Xor(b, a)
    ensures Xor(a, 0) == a
    ensures Xor(Xor(a, b), b) == a
  {
  }

  lemma XorSwap(a: bv32, b: bv32, c: bv32, d: bv32)
    ensures Xor(Xor(a, b), Xor(c, d)) == Xor(Xor(a, c), Xor(b, d))
  {
    hide Xor;
    XorLaws(a, b, Xor(c, d));
    XorLaws(b, c, d);
    XorLaws(c, b, d);
    XorLaws(a, c, Xor(b, d));
  }

  // ----- affinity -----

  function XorByte(x: bv8, y: bv8): bv8 {
    x ^ y
  }

  function XorBytes(a: Bytes, b: Bytes): (r: Bytes)
    requires |a| == |b|
    ensures |r| == |a|
  {
    seq(|a|, i requires 0 <= i < |a| => XorByte(a[i], b[i]))
  }

  lemma WidenXor(x: bv8, y: bv8)
    ensures Word(XorByte(x, y)) == Xor(Word(x), Word(y))
  {
  }

  lemma {:induction false} AbsorbLinear(s: bv32, t: bv32, a: Bytes, b: Bytes)
    requires |a| == |b|
    ensures Absorb(Xor(s, t), XorBytes(a, b)) == Xor(Absorb(s, a), Absorb(t, b))
    decreases |a|
  {
    hide Xor, Steps, XorBytes, XorByte, Absorb, Word;
    if a == [] {
      assert XorBytes(a, b) == [];
      AbsorbNothing(s);
      AbsorbNothing(t);
      AbsorbNothing(Xor(s, t));
    } else {
      var n := |a| - 1;
      AbsorbLinear(s, t, a[..n], b[..n]);
      XorBytesLast(a, b);
      AbsorbLast(s, a);
      AbsorbLast(t, b);
      AbsorbLast(Xor(s, t), XorBytes(a, b));
      AbsorbLinearByte(Absorb(s, a[..n]), Absorb(t, b[..n]), a[n], b[n]);
    }
  }

  lemma AbsorbNothing(s: bv32)
    ensures Absorb(s, []) == s
  {
  }

  lemma AbsorbLast(s: bv32, data: Bytes)
    requires data != []
    ensures Absorb(s, data) == Steps(Xor(Absorb(s, data[..|data| - 1]), Word(data[|data| - 1])), 8)
  {
    hide Xor, Steps, Word;
  }

  lemma XorBytesLast(a: Bytes, b: Bytes)
    requires |a| == |b| > 0
    ensures var n := |a| - 1;
            XorBytes(a, b)[..n] == XorBytes(a[..n], b[..n]) && XorBytes(a, b)[n] == XorByte(a[n], b[n])
  {
  }

  lemma AbsorbLinearByte(s: bv32, t: bv32, x: bv8, y: bv8)
    ensures Steps(Xor(Xor(s, t), Word(XorByte(x, y))), 8)
         == Xor(Steps(Xor(s, Word(x)), 8), Steps(Xor(t, Word(y)), 8))
  {
    hide Xor, Steps, Word, XorByte;
    WidenXor(x, y);
    XorSwap(s, t, Word(x), Word(y));
    StepsLinear(Xor(s, Word(x)), Xor(t, Word(y)), 8);
  }

  /** The checksum of a three-way exclusive or is the exclusive or of the three checksums. */
  lemma CrcAffine(a: Bytes, b: Bytes, c: Bytes)
    requires |a| == |b| == |c|
    ensures Crc(XorBytes(XorBytes(a, b), c)) == Xor(Xor(Crc(a), Crc(b)), Crc(c))
  {
    hide Xor, Absorb;
    AbsorbLinear(ALL_ONES, ALL_ONES, a, b);
    AbsorbLinear(Xor(ALL_ONES, ALL_ONES), ALL_ONES, XorBytes(a, b), c);
    TripleComplement(Absorb(ALL_ONES, a), Absorb(ALL_ONES, b), Absorb(ALL_ONES, c));
  }

  lemma TripleComplement(x: bv32, y: bv32, z: bv32)
    ensures Xor(Xor(ALL_ONES, ALL_ONES), ALL_ONES) == ALL_ONES
    ensures Xor(Xor(Xor(x, y), z), ALL_ONES) == Xor(Xor(Xor(x, ALL_ONES), Xor(y, ALL_ONES)), Xor(z, ALL_ONES))
  {
  }

  // ----- the residue of a checksummed message -----

  /** The 32-bit word that four bytes hold, least significant byte first. */
  function LittleEndian(t: Bytes): bv32
    requires |t| == 4
  {
    Xor(Xor(Xor(t[0] as bv32, t[1] as bv32 << 8), t[2] as bv32 << 16), t[3] as bv32 << 24)
  }

  lemma {:induction false} AbsorbConcat(s: bv32, a: Bytes, b: Bytes)
    ensures Absorb(s, a + b) == Absorb(Absorb(s, a), b)
    decreases |b|
  {
    hide Steps, Xor;
    if b == [] {
      assert a + b == a;
    } else {
      var n := |b| - 1;
      assert (a + b)[..|a + b| - 1] == a + b[..n];
      AbsorbConcat(s, a, b[..n]);
    }
  }

  /** A byte fed after n steps could as well have been added, shifted, before them. */
  lemma PushByte(y: bv32, n: nat, b: bv32, shifted: bv32)
    requires Steps(shifted, n) == b
    ensures Steps(Xor(Steps(y, n), b), 8) == Steps(Xor(y, shifted), n + 8)
  {
    hide Steps, Xor;
    StepsLinear(y, shifted, n);
    StepsAdd(Xor(y, shifted), n, 8);
  }

  lemma ShiftedByte(b: bv8)
    ensures Steps(b as bv32 << 8, 8) == b as bv32
  {
    hide Steps;
    HighBytesShift(b as bv32 << 8, b as bv32);
  }

  lemma ShiftedTwice(b: bv8)
    ensures Steps(b as bv32 << 16, 16) == b as bv32
  {
    hide Steps;
    ShiftedByte(b);
    HighBytesShift(b as bv32 << 16, b as bv32 << 8);
    StepsAdd(b as bv32 << 16, 8, 8);
  }

  lemma ShiftedThrice(b: bv8)
    ensures Steps(b as bv32 << 24, 24) == b as bv32
  {
    hide Steps;
    ShiftedTwice(b);
    HighBytesShift(b as bv32 << 24, b as bv32 << 16);
    StepsAdd(b as bv32 << 24, 8, 16);
  }

  lemma AbsorbOne(s: bv32, b: bv8)
    ensures Absorb(s, [b]) == Steps(Xor(s, Word(b)), 8)
  {
    hide Steps, Xor, Word;
    assert [b][..0] == [];
    assert Absorb(s, []) == s;
  }

  lemma AbsorbFour(s: bv32, t: Bytes)
    requires |t| == 4
    ensures Absorb(s, t) == Steps(Xor(s, LittleEndian(t)), 32)
  {
    hide Steps, Xor, LittleEndian, Absorb;
    var y0 := Xor(s, t[0] as bv32);
    var y1 := Xor(y0, t[1] as bv32 << 8);
    var y2 := Xor(y1, t[2] as bv32 << 16);
    var y3 := Xor(y2, t[3] as bv32 << 24);
    assert t == (([t[0]] + [t[1]]) + [t[2]]) + [t[3]];
    AbsorbConcat(s, ([t[0]] + [t[1]]) + [t[2]], [t[3]]);
    AbsorbConcat(s, [t[0]] + [t[1]], [t[2]]);
    AbsorbConcat(s, [t[0]], [t[1]]);
    AbsorbOne(s, t[0]);
    AbsorbNext(Absorb(s, [t[0]]), y0, 8, t[1], t[1] as bv32 << 8) by { ShiftedByte(t[1]); }
    AbsorbNext(Absorb(s, [t[0]] + [t[1]]), y1, 16, t[2], t[2] as bv32 << 16) by { ShiftedTwice(t[2]); }
    AbsorbNext(Absorb(s, ([t[0]] + [t[1]]) + [t[2]]), y2, 24, t[3], t[3] as bv32 << 24) by { ShiftedThrice(t[3]); }
    GatherWord(s, t);
  }

  lemma AbsorbNext(s: bv32, y: bv32, n: nat, b: bv8, shifted: bv32)
    requires s == Steps(y, n)
    requires Steps(shifted, n) == b as bv32
    ensures Absorb(s, [b]) == Steps(Xor(y, shifted), n + 8)
  {
    hide Steps, Xor;
    AbsorbOne(s, b);
    PushByte(y, n, b as bv32, shifted);
  }

  lemma GatherWord(s: bv32, t: Bytes)
    requires |t| == 4
    ensures Xor(Xor(Xor(Xor(s, t[0] as bv32), t[1] as bv32 << 8), t[2] as bv32 << 16), t[3] as bv32 << 24)
         == Xor(s, LittleEndian(t))
  {
  }

  const RESIDUE: bv32 := 0x2144DF1C

  /** A message and four more bytes leave the fixed residue exactly when those bytes are its checksum. */
  lemma ResidueIffChecksum(data: Bytes, t: Bytes)
    requires |t| == 4
    ensures Crc(data + t) == RESIDUE <==> LittleEndian(t) == Crc(data)
  {
    hide Steps, Xor, LittleEndian, Absorb;
    var r := Absorb(ALL_ONES, data);
    AbsorbConcat(ALL_ONES, data, t);
    AbsorbFour(r, t);
    var x := Xor(r, LittleEndian(t));
    ResidueConstant(x);
    CancelOnes(r, LittleEndian(t));
  }

  lemma ResidueConstant(x: bv32)
    ensures Xor(Steps(x, 32), ALL_ONES) == RESIDUE <==> x == ALL_ONES
  {
    hide Steps, Xor;
    OnesRemainder();
    if x != ALL_ONES {
      StepsInjective(x, ALL_ONES, 32);
      XorCancels(Steps(x, 32), Steps(ALL_ONES, 32), ALL_ONES);
    }
  }

  lemma OnesRemainder()
    ensures Xor(Steps(ALL_ONES, 32), ALL_ONES) == RESIDUE
  {
    hide Steps;
    OnesFirstByte();
    OnesSecondByte();
    OnesThirdByte();
    OnesFourthByte();
    StepsAdd(0xFFFFFFFF, 8, 24);
    StepsAdd(0x2DFD1072, 8, 16);
    StepsAdd(0xBE26ED00, 8, 8);
  }

  lemma OnesFirstByte()
    ensures Steps(0xFFFFFFFF, 8) == 0x2DFD1072
  {
  }

  lemma OnesSecondByte()
    ensures Steps(0x2DFD1072, 8) == 0xBE26ED00
  {
  }

  lemma OnesThirdByte()
    ensures Steps(0xBE26ED00, 8) == 0x00BE26ED
  {
  }

  lemma OnesFourthByte()
    ensures Steps(0x00BE26ED, 8) == 0xDEBB20E3
  {
  }

  lemma XorCancels(a: bv32, b: bv32, c: bv32)
    requires a != b
    ensures Xor(a, c) != Xor(b, c)
  {
    XorLaws(a, c, c);
    XorLaws(b, c, c);
  }

  lemma CancelOnes(r: bv32, w: bv32)
    ensures Xor(r, w) == ALL_ONES <==> w == Xor(r, ALL_ONES)
  {
    XorLaws(w, r, r);
    XorLaws(ALL_ONES, r, r);
    XorLaws(r, w, r);
    XorLaws(r, ALL_ONES, r);
  }
}
