// The checksum loop of dshowserver/crc32.c and what it computes: the CRC-32 of
// ITU-T V.42 section 8.1.1.6.2 and RFC 1952 section 8.
module Crc32 {
  import opened Crc32Table

  type Bytes = seq<bv8>

  // ----- the register, fed a byte at a time -----

  /** The register after absorbing data, eight division steps to a byte. */
  function Absorb(s: bv32, data: Bytes): bv32 {
    if data == [] then s
    else Steps(Xor(Absorb(s, data[..|data| - 1]), Word(data[|data| - 1])), 8)
  }

  function Word(b: bv8): bv32 {
    b as bv32
  }

  const ALL_ONES: bv32 := 0xFFFFFFFF

  /** The checksum: initial value all ones, final complement. */
  function Crc(data: Bytes): bv32 {
    Xor(Absorb(ALL_ONES, data), ALL_ONES)
  }

  /** One pass of the loop body. */
  function TableStep(s: bv32, b: bv8): bv32 {
    Xor(s >> 8, Entry(b ^ ((s & 0xFF) as bv8)))
  }

  /** The table-driven loop. */
  method ComputeCrc32(data: Bytes) returns (crc: bv32)
    ensures crc == Crc(data)
  {
    hide TableStep, Steps, Xor;
    var register: bv32 := 0xFFFFFFFF;
    for i := 0 to |data|
      invariant register == Absorb(ALL_ONES, data[..i])
    {
      TableStepIsEightSteps(register, data[i]);
      assert data[..i + 1][..i] == data[..i];
      register := TableStep(register, data[i]);
    }
    assert data[..|data|] == data;
    Complement(register);
    crc := !register;
  }

  lemma Complement(s: bv32)
    ensures !s == Xor(s, ALL_ONES)
  {
  }

  // ----- linearity of the division steps -----

  lemma BitStepLinear(a: bv32, b: bv32)
    ensures BitStep(Xor(a, b)) == Xor(BitStep(a), BitStep(b))
  {
    BitStepLinearWords(a, b);
  }

  lemma BitStepLinearWords(a: bv32, b: bv32)
    ensures BitStep(a ^ b) == BitStep(a) ^ BitStep(b)
  {
    assert (a ^ b) & 1 == (a & 1) ^ (b & 1);
    assert (a ^ b) >> 1 == (a >> 1) ^ (b >> 1);
    LowBit(a);
    LowBit(b);
    XorShuffle(a >> 1, b >> 1, POLYNOMIAL);
  }

  lemma LowBit(a: bv32)
    ensures a & 1 == 0 || a & 1 == 1
  {
  }

  lemma XorShuffle(a: bv32, b: bv32, p: bv32)
    ensures (a ^ p) ^ b == (a ^ b) ^ p
    ensures a ^ (b ^ p) == (a ^ b) ^ p
    ensures (a ^ p) ^ (b ^ p) == a ^ b
  {
  }

  lemma {:induction false} StepsLinear(a: bv32, b: bv32, n: nat)
    ensures Steps(Xor(a, b), n) == Xor(Steps(a, n), Steps(b, n))
    decreases n
  {
    hide BitStep, Xor;
    if n > 0 {
      BitStepLinear(a, b);
      StepsLinear(BitStep(a), BitStep(b), n - 1);
    }
  }

  /** The table lookup replaces eight steps: the high bytes only shift, the low byte is looked up. */
  lemma TableStepIsEightSteps(s: bv32, b: bv8)
    ensures TableStep(s, b) == Steps(Xor(s, Word(b)), 8)
  {
    hide Steps, Entry, BitStep, Xor;
    var high, low := SplitWord(s, b);
    EntryIsEightSteps(low);
    StepsLinear(high, low as bv32, 8);
  }

  lemma SplitWord(s: bv32, b: bv8) returns (high: bv32, low: bv8)
    ensures low == b ^ ((s & 0xFF) as bv8)
    ensures Xor(s, b as bv32) == Xor(high, low as bv32)
    ensures Steps(high, 8) == s >> 8
  {
    hide Steps, Xor;
    var top;
    high, low := SplitByte(s, b);
    top := SplitHigh(s, high);
    HighBytesShift(high, top);
  }

  lemma SplitByte(s: bv32, b: bv8) returns (high: bv32, low: bv8)
    ensures high == s & 0xFFFFFF00 && low == b ^ ((s & 0xFF) as bv8)
    ensures Xor(s, b as bv32) == Xor(high, low as bv32)
  {
    high, low := s & 0xFFFFFF00, b ^ ((s & 0xFF) as bv8);
  }

  lemma SplitHigh(s: bv32, high: bv32) returns (top: bv32)
    requires high == s & 0xFFFFFF00
    ensures high & 0xFF == 0 && top == high >> 8 && top == s >> 8
  {
    top := s >> 8;
  }

  ghost predicate Leads(s: bv32, n: nat, t: bv32) {
    Steps(s, n) == t
  }

  lemma LeadsOn(s: bv32, m: nat, t: bv32, n: nat, u: bv32)
    requires Leads(s, m, t) && Leads(t, n, u)
    ensures Leads(s, m + n, u)
  {
    StepsAdd(s, m, n);
  }

  lemma HighBytesShift(h: bv32, shifted: bv32)
    requires h & 0xFF == 0 && shifted == h >> 8
    ensures Steps(h, 8) == shifted
  {
    var half := NibbleSteps(h);
    assert half & 0xF == 0;
    var whole := NibbleSteps(half);
    assert whole == shifted;
    assert Leads(h, 8, shifted) by {
      LeadsOn(h, 4, half, 4, whole);
    }
  }

  lemma NibbleSteps(h: bv32) returns (shifted: bv32)
    requires h & 0xF == 0
    ensures shifted == h >> 4 && Leads(h, 4, shifted)
  {
    hide Leads;
    var half := EvenSteps(h);
    assert half & 3 == 0;
    shifted := EvenSteps(half);
    LeadsOn(h, 2, half, 2, shifted);
  }

  lemma EvenSteps(h: bv32) returns (shifted: bv32)
    requires h & 3 == 0
    ensures shifted == h >> 2 && Leads(h, 2, shifted)
  {
    hide Leads;
    var half := EvenStep(h);
    assert half & 1 == 0;
    shifted := EvenStep(half);
    LeadsOn(h, 1, half, 1, shifted);
  }

  lemma EvenStep(h: bv32) returns (shifted: bv32)
    requires h & 1 == 0
    ensures shifted == h >> 1 && Leads(h, 1, shifted)
  {
    shifted := h >> 1;
    assert BitStep(h) == shifted;
    assert Steps(shifted, 0) == shifted;
  }

  lemma {:induction false} StepsAdd(s: bv32, m: nat, n: nat)
    ensures Steps(s, m + n) == Steps(Steps(s, m), n)
    decreases m
  {
    hide BitStep;
    if m > 0 {
      StepsAdd(BitStep(s), m - 1, n);
    }
  }

  // ----- the steps are a bijection -----

  function BitUnstep(s: bv32): bv32 {
    if s & 0x80000000 == 0 then s << 1 else ((s ^ POLYNOMIAL) << 1) | 1
  }

  /** A division step can be undone, so it loses nothing. */
  lemma BitStepInvertible(s: bv32)
    ensures BitUnstep(BitStep(s)) == s
  {
    if s & 1 == 1 {
      OddUndone(s);
    } else {
      EvenUndone(s);
    }
  }

  lemma OddUndone(s: bv32)
    requires s & 1 == 1
    ensures ((s >> 1) ^ POLYNOMIAL) & 0x80000000 != 0
    ensures ((((s >> 1) ^ POLYNOMIAL) ^ POLYNOMIAL) << 1) | 1 == s
  {
  }

  lemma EvenUndone(s: bv32)
    requires s & 1 != 1
    ensures (s >> 1) & 0x80000000 == 0 && (s >> 1) << 1 == s
  {
  }

  lemma {:induction false} StepsInjective(a: bv32, b: bv32, n: nat)
    requires a != b
    ensures Steps(a, n) != Steps(b, n)
    decreases n
  {
    hide BitStep, BitUnstep;
    if n > 0 {
      BitStepInvertible(a);
      BitStepInvertible(b);
      StepsInjective(BitStep(a), BitStep(b), n - 1);
    }
  }

  /** The other way round: every register value is the outcome of a step. */
  lemma BitUnstepInvertible(s: bv32)
    ensures BitStep(BitUnstep(s)) == s
  {
    if s & 0x80000000 == 0 {
      EvenRedone(s);
    } else {
      OddRedone(s);
    }
  }

  lemma EvenRedone(s: bv32)
    requires s & 0x80000000 == 0
    ensures (s << 1) & 1 != 1 && (s << 1) >> 1 == s
  {
  }

  lemma OddRedone(s: bv32)
    requires s & 0x80000000 != 0
    ensures (((s ^ POLYNOMIAL) << 1) | 1) & 1 == 1
    ensures ((((s ^ POLYNOMIAL) << 1) | 1) >> 1) ^ POLYNOMIAL == s
  {
  }

  lemma {:induction false} StepsOnto(s: bv32, n: nat) returns (p: bv32)
    ensures Steps(p, n) == s
    decreases n
  {
    hide BitStep, BitUnstep;
    if n == 0 {
      p := s;
    } else {
      var q := StepsOnto(s, n - 1);
      BitUnstepInvertible(q);
      p := BitUnstep(q);
    }
  }

  /** Any number of steps is a bijection: every register value comes from exactly one. */
  lemma StepsBijective(s: bv32, n: nat) returns (p: bv32)
    ensures forall q :: Steps(q, n) == s <==> q == p
  {
    p := StepsOnto(s, n);
    forall q | q != p ensures Steps(q, n) != s {
      StepsInjective(q, p, n);
    }
  }
}
