// Base relocation of a loaded PE image: do_relocations of loader/pe_image.c
// walks the blocks of the .reloc stream, which lies in the image it patches.
module Relocation {
  import opened MachineWords

  const REL_HIGH := 1
  const REL_LOW := 2
  const REL_HIGHLOW := 3

  /** One relocation: its type and the image offset it applies to. */
  datatype Fixup = Fixup(kind: nat, at: nat)

  // ----- little-endian access -----

  function Word16(m: seq<Byte>, at: nat): (w: nat)
    requires at + 2 <= |m|
    ensures w < HALF
  {
    m[at] as int + 256 * m[at + 1] as int
  }

  function Word32(m: seq<Byte>, at: nat): (w: nat)
    requires at + 4 <= |m|
    ensures w < WORD
  {
    Word16(m, at) + HALF * Word16(m, at + 2)
  }

  function Put16(m: seq<Byte>, at: nat, w: nat): (r: seq<Byte>)
    requires at + 2 <= |m| && w < HALF
    ensures |r| == |m|
  {
    m[at := w % 256][at + 1 := w / 256]
  }

  function Put32(m: seq<Byte>, at: nat, w: nat): (r: seq<Byte>)
    requires at + 4 <= |m| && w < WORD
    ensures |r| == |m|
  {
    Put16(Put16(m, at, w % HALF), at + 2, w / HALF)
  }

  // ----- one relocation -----

  /** How many bytes a relocation of this type touches. */
  function Width(f: Fixup): nat {
    if f.kind == REL_HIGHLOW then 4 else if f.kind == REL_HIGH || f.kind == REL_LOW then 2 else 0
  }

  function Modulus(f: Fixup): (n: nat)
    ensures n > 0
  {
    if f.kind == REL_HIGHLOW then WORD else if f.kind == REL_HIGH || f.kind == REL_LOW then HALF else 1
  }

  predicate Fits(f: Fixup, size: nat) {
    f.at + Width(f) <= size
  }

  function Value(m: seq<Byte>, f: Fixup): (v: nat)
    requires Fits(f, |m|)
    ensures v < Modulus(f)
  {
    if Width(f) == 4 then Word32(m, f.at) else if Width(f) == 2 then Word16(m, f.at) else 0
  }

  function Put(m: seq<Byte>, f: Fixup, v: nat): (r: seq<Byte>)
    requires Fits(f, |m|) && v < Modulus(f)
    ensures |r| == |m|
  {
    if Width(f) == 4 then Put32(m, f.at, v) else if Width(f) == 2 then Put16(m, f.at, v) else m
  }

  /** What a relocation adds: all of delta, its high half, its low half, or nothing. */
  function Amount(f: Fixup, delta: nat): nat {
    if f.kind == REL_HIGHLOW then delta
    else if f.kind == REL_HIGH then delta / HALF
    else if f.kind == REL_LOW then delta % HALF
    else 0
  }

  function Patch(m: seq<Byte>, f: Fixup, delta: nat): (r: seq<Byte>)
    requires Fits(f, |m|)
    ensures |r| == |m|
  {
    Put(m, f, (Value(m, f) + Amount(f, delta)) % Modulus(f))
  }

  predicate Covers(f: Fixup, x: nat) {
    f.at <= x < f.at + Width(f)
  }

  lemma Put16Reads(m: seq<Byte>, at: nat, w: nat)
    requires at + 2 <= |m| && w < HALF
    ensures Word16(Put16(m, at, w), at) == w
    ensures forall x :: 0 <= x < |m| && !(at <= x < at + 2) ==> Put16(m, at, w)[x] == m[x]
  {
  }

  lemma PutReads(m: seq<Byte>, f: Fixup, v: nat)
    requires Fits(f, |m|) && v < Modulus(f)
    ensures Value(Put(m, f, v), f) == v
    ensures forall x: nat :: x < |m| && !Covers(f, x) ==> Put(m, f, v)[x] == m[x]
  {
    if Width(f) == 4 {
      var m1 := Put16(m, f.at, v % HALF);
      Put16Reads(m, f.at, v % HALF);
      Put16Reads(m1, f.at + 2, v / HALF);
      hide Put16;
    } else if Width(f) == 2 {
      Put16Reads(m, f.at, v);
      hide Put16;
    }
  }

  /** A site's bytes and its value determine each other. */
  lemma ValueIsBytes(m: seq<Byte>, n: seq<Byte>, f: Fixup)
    requires Fits(f, |m|) && |n| == |m|
    ensures Value(m, f) == Value(n, f) <==> forall x: nat :: Covers(f, x) ==> m[x] == n[x]
  {
    if Width(f) == 4 {
      Word16IsBytes(m, n, f.at);
      Word16IsBytes(m, n, f.at + 2);
      assert Value(m, f) == Value(n, f) ==> Word16(m, f.at) == Word16(n, f.at) && Word16(m, f.at + 2) == Word16(n, f.at + 2);
      assert Covers(f, f.at) && Covers(f, f.at + 1) && Covers(f, f.at + 2) && Covers(f, f.at + 3);
    } else if Width(f) == 2 {
      Word16IsBytes(m, n, f.at);
      assert Covers(f, f.at) && Covers(f, f.at + 1);
    }
  }

  lemma Word16IsBytes(m: seq<Byte>, n: seq<Byte>, at: nat)
    requires at + 2 <= |m| == |n|
    ensures Word16(m, at) == Word16(n, at) <==> m[at] == n[at] && m[at + 1] == n[at + 1]
  {
  }

  // ----- a list of relocations -----

  predicate AllFit(fs: seq<Fixup>, size: nat) {
    forall i :: 0 <= i < |fs| ==> Fits(fs[i], size)
  }

  predicate Disjoint(fs: seq<Fixup>) {
    forall i, j :: 0 <= i < j < |fs| ==> Apart(fs[i], fs[j])
  }

  predicate Apart(f: Fixup, g: Fixup) {
    f.at + Width(f) <= g.at || g.at + Width(g) <= f.at || Width(f) == 0 || Width(g) == 0
  }

  function PatchAll(m: seq<Byte>, fs: seq<Fixup>, delta: nat): (r: seq<Byte>)
    requires AllFit(fs, |m|)
    ensures |r| == |m|
    decreases |fs|
  {
    if fs == [] then m
    else
      assert AllFit(fs[..|fs| - 1], |m|);
      Patch(PatchAll(m, fs[..|fs| - 1], delta), fs[|fs| - 1], delta)
  }

  lemma PatchEffect(m: seq<Byte>, f: Fixup, delta: nat)
    requires Fits(f, |m|)
    ensures Value(Patch(m, f, delta), f) == (Value(m, f) + Amount(f, delta)) % Modulus(f)
    ensures forall x: nat :: x < |m| && !Covers(f, x) ==> Patch(m, f, delta)[x] == m[x]
  {
    PutReads(m, f, (Value(m, f) + Amount(f, delta)) % Modulus(f));
  }

  /** A relocation elsewhere leaves this site's value alone. */
  lemma PatchApart(m: seq<Byte>, f: Fixup, g: Fixup, delta: nat)
    requires Fits(f, |m|) && Fits(g, |m|) && Apart(f, g)
    ensures Value(Patch(m, g, delta), f) == Value(m, f)
  {
    PatchEffect(m, g, delta);
    ValueIsBytes(Patch(m, g, delta), m, f);
    assert forall x: nat :: Covers(f, x) ==> !Covers(g, x);
  }

  /** With disjoint sites every site gets its own amount added, modulo its own width, whatever the order. */
  lemma {:induction false} PatchAllValue(m: seq<Byte>, fs: seq<Fixup>, delta: nat, i: nat)
    requires AllFit(fs, |m|) && Disjoint(fs) && i < |fs|
    ensures Value(PatchAll(m, fs, delta), fs[i]) == (Value(m, fs[i]) + Amount(fs[i], delta)) % Modulus(fs[i])
    decreases |fs|
  {
    var n := |fs| - 1;
    var rest := fs[..n];
    PatchAllLast(m, fs, delta);
    var before := PatchAll(m, rest, delta);
    if i < n {
      PatchAllValue(m, rest, delta, i);
      assert rest[i] == fs[i];
      hide Value, Patch, Amount, Modulus, Disjoint, PatchAll;
      PatchApart(before, fs[i], fs[n], delta);
    } else {
      hide Value, Patch, Amount, Modulus, Disjoint, PatchAll;
      PatchEffect(before, fs[n], delta);
      PatchAllApart(m, rest, delta, fs[n]);
    }
  }

  lemma PatchAllLast(m: seq<Byte>, fs: seq<Fixup>, delta: nat)
    requires AllFit(fs, |m|) && Disjoint(fs) && fs != []
    ensures var n := |fs| - 1;
            && AllFit(fs[..n], |m|) && Disjoint(fs[..n])
            && PatchAll(m, fs, delta) == Patch(PatchAll(m, fs[..n], delta), fs[n], delta)
            && (forall i :: 0 <= i < n ==> Apart(fs[i], fs[n]) && Apart(fs[..n][i], fs[n]))
  {
    hide Patch;
  }

  lemma {:induction false} PatchAllApart(m: seq<Byte>, fs: seq<Fixup>, delta: nat, f: Fixup)
    requires AllFit(fs, |m|) && Fits(f, |m|)
    requires forall i :: 0 <= i < |fs| ==> Apart(fs[i], f)
    ensures Value(PatchAll(m, fs, delta), f) == Value(m, f)
    decreases |fs|
  {
    if fs != [] {
      var n := |fs| - 1;
      PatchAllApart(m, fs[..n], delta, f);
      hide Value, Patch;
      PatchApart(PatchAll(m, fs[..n], delta), f, fs[n], delta);
    }
  }

  /** No byte outside the sites changes. */
  lemma {:induction false} PatchAllElsewhere(m: seq<Byte>, fs: seq<Fixup>, delta: nat, x: nat)
    requires AllFit(fs, |m|) && x < |m|
    requires forall i :: 0 <= i < |fs| ==> !Covers(fs[i], x)
    ensures PatchAll(m, fs, delta)[x] == m[x]
    decreases |fs|
  {
    if fs != [] {
      var n := |fs| - 1;
      PatchAllElsewhere(m, fs[..n], delta, x);
      hide Value, Patch, Covers;
      PatchEffect(PatchAll(m, fs[..n], delta), fs[n], delta);
    }
  }

  /** Two images that agree outside the sites and in the value at every site are the same image. */
  lemma SameImage(m: seq<Byte>, n: seq<Byte>, fs: seq<Fixup>)
    requires |m| == |n| && AllFit(fs, |m|)
    requires forall i :: 0 <= i < |fs| ==> Value(m, fs[i]) == Value(n, fs[i])
    requires forall x: nat :: x < |m| && (forall i :: 0 <= i < |fs| ==> !Covers(fs[i], x)) ==> m[x] == n[x]
    ensures m == n
  {
    hide Value, Covers;
    forall x: nat | x < |m| ensures m[x] == n[x] {
      if i :| 0 <= i < |fs| && Covers(fs[i], x) {
        ValueIsBytes(m, n, fs[i]);
      }
    }
  }

  // ----- composition -----

  /** The low halves of the two deltas add up without a carry into the high half. */
  predicate NoCarry(d1: nat, d2: nat) {
    d1 % HALF + d2 % HALF < HALF
  }

  function Sum(d1: nat, d2: nat): nat {
    (d1 + d2) % WORD
  }

  lemma ModOnce(x: nat, n: nat)
    requires n > 0 && x < 2 * n
    ensures x % n == if x < n then x else x - n
  {
    if x >= n {
      assert (x - n) % n == x % n by {
        assert x == 1 * n + (x - n);
      }
    }
  }

  /** The halves of a sum of two words. */
  lemma SumHalves(d1: nat, d2: nat)
    requires d1 < WORD && d2 < WORD
    ensures Sum(d1, d2) / HALF == (d1 / HALF + d2 / HALF + (if NoCarry(d1, d2) then 0 else 1)) % HALF
    ensures Sum(d1, d2) % HALF == (d1 % HALF + d2 % HALF) % HALF
  {
    var h := d1 / HALF + d2 / HALF + (if NoCarry(d1, d2) then 0 else 1);
    var l := d1 % HALF + d2 % HALF;
    ModOnce(h, HALF);
    ModOnce(l, HALF);
    ModOnce(d1 + d2, WORD);
    assert d1 + d2 == h * HALF + l % HALF;
    assert Sum(d1, d2) == (h % HALF) * HALF + l % HALF;
  }

  lemma AddTwice(v: nat, a: nat, b: nat, n: nat)
    requires n > 0 && v < n && a < n && b < n
    ensures ((v + a) % n + b) % n == (v + (a + b) % n) % n
  {
    ModOnce(v + a, n);
    ModOnce(a + b, n);
    ModOnce((v + a) % n + b, n);
    ModOnce(v + (a + b) % n, n);
  }

  /** Amounts that differ by one mod n end in different values. */
  lemma MissingCarry(v: nat, c: nat, n: nat)
    requires n > 1 && v < n && c < 2 * n - 1
    ensures (v + c % n) % n != (v + (c + 1) % n) % n
  {
    ModOnce(c, n);
    ModOnce(c + 1, n);
    ModOnce(v + c % n, n);
    ModOnce(v + (c + 1) % n, n);
  }

  lemma WordsAdd(v: nat, d1: nat, d2: nat)
    requires v < WORD && d1 < WORD && d2 < WORD
    ensures ((v + d1) % WORD + d2) % WORD == (v + Sum(d1, d2)) % WORD
  {
    AddTwice(v, d1, d2, WORD);
  }

  lemma LowHalvesAdd(v: nat, d1: nat, d2: nat)
    requires v < HALF && d1 < WORD && d2 < WORD
    ensures ((v + d1 % HALF) % HALF + d2 % HALF) % HALF == (v + Sum(d1, d2) % HALF) % HALF
  {
    SumHalves(d1, d2);
    hide Sum;
    AddTwice(v, d1 % HALF, d2 % HALF, HALF);
  }

  lemma HighHalvesAdd(v: nat, d1: nat, d2: nat)
    requires v < HALF && d1 < WORD && d2 < WORD
    ensures ((v + d1 / HALF) % HALF + d2 / HALF) % HALF == (v + Sum(d1, d2) / HALF) % HALF <==> NoCarry(d1, d2)
  {
    SumHalves(d1, d2);
    var a, b, c := d1 / HALF, d2 / HALF, if NoCarry(d1, d2) then 0 else 1;
    hide Sum, NoCarry;
    CarryDecides(v, a, b, c);
  }

  lemma CarryDecides(v: nat, a: nat, b: nat, c: nat)
    requires v < HALF && a < HALF && b < HALF && c <= 1
    ensures ((v + a) % HALF + b) % HALF == (v + (a + b + c) % HALF) % HALF <==> c == 0
  {
    AddTwice(v, a, b, HALF);
    if c == 1 {
      MissingCarry(v, a + b, HALF);
    }
  }

  /** Adding d1 and then d2 at one site is adding their sum, except for a high half that misses a carry. */
  lemma AmountsAdd(f: Fixup, v: nat, d1: nat, d2: nat)
    requires v < Modulus(f) && d1 < WORD && d2 < WORD
    ensures ((v + Amount(f, d1)) % Modulus(f) + Amount(f, d2)) % Modulus(f) == (v + Amount(f, Sum(d1, d2))) % Modulus(f)
            <==> f.kind != REL_HIGH || NoCarry(d1, d2)
  {
    hide Sum, NoCarry;
    if f.kind == REL_HIGHLOW {
      WordsAdd(v, d1, d2);
    } else if f.kind == REL_LOW {
      LowHalvesAdd(v, d1, d2);
    } else if f.kind == REL_HIGH {
      HighHalvesAdd(v, d1, d2);
    }
  }

  /** At one site the two ways agree, except that a high half may miss a carry. */
  lemma SiteTwice(m: seq<Byte>, fs: seq<Fixup>, d1: nat, d2: nat, i: nat)
    requires AllFit(fs, |m|) && Disjoint(fs) && d1 < WORD && d2 < WORD && i < |fs|
    ensures Value(PatchAll(PatchAll(m, fs, d1), fs, d2), fs[i]) == Value(PatchAll(m, fs, Sum(d1, d2)), fs[i])
            <==> fs[i].kind != REL_HIGH || NoCarry(d1, d2)
  {
    hide Value, Sum, NoCarry, Disjoint, Amount, PatchAll, Modulus;
    PatchAllValue(m, fs, d1, i);
    PatchAllValue(PatchAll(m, fs, d1), fs, d2, i);
    PatchAllValue(m, fs, Sum(d1, d2), i);
    AmountsAdd(fs[i], Value(m, fs[i]), d1, d2);
  }

  lemma ElsewhereTwice(m: seq<Byte>, fs: seq<Fixup>, d1: nat, d2: nat, x: nat)
    requires AllFit(fs, |m|) && x < |m| && forall i :: 0 <= i < |fs| ==> !Covers(fs[i], x)
    ensures PatchAll(PatchAll(m, fs, d1), fs, d2)[x] == PatchAll(m, fs, Sum(d1, d2))[x]
  {
    hide PatchAll, Covers, Sum;
    PatchAllElsewhere(m, fs, d1, x);
    PatchAllElsewhere(PatchAll(m, fs, d1), fs, d2, x);
    PatchAllElsewhere(m, fs, Sum(d1, d2), x);
  }

  predicate HasHighSite(fs: seq<Fixup>) {
    exists i :: 0 <= i < |fs| && fs[i].kind == REL_HIGH
  }

  /**
   * Relocating by d1 and then by d2 is relocating by their sum exactly when no
   * high-half site is left without the carry of the low halves.
   */
  lemma PatchAllTwice(m: seq<Byte>, fs: seq<Fixup>, d1: nat, d2: nat)
    requires AllFit(fs, |m|) && Disjoint(fs) && d1 < WORD && d2 < WORD
    ensures PatchAll(PatchAll(m, fs, d1), fs, d2) == PatchAll(m, fs, Sum(d1, d2))
            <==> NoCarry(d1, d2) || !HasHighSite(fs)
  {
    hide Value, Sum, NoCarry, Covers, Disjoint, PatchAll;
    var twice, once := PatchAll(PatchAll(m, fs, d1), fs, d2), PatchAll(m, fs, Sum(d1, d2));
    if NoCarry(d1, d2) || !HasHighSite(fs) {
      forall i | 0 <= i < |fs| ensures Value(twice, fs[i]) == Value(once, fs[i]) {
        SiteTwice(m, fs, d1, d2, i);
      }
      forall x: nat | x < |m| && (forall i :: 0 <= i < |fs| ==> !Covers(fs[i], x)) ensures twice[x] == once[x] {
        ElsewhereTwice(m, fs, d1, d2, x);
      }
      SameImage(twice, once, fs);
    } else {
      var i :| 0 <= i < |fs| && fs[i].kind == REL_HIGH;
      SiteTwice(m, fs, d1, d2, i);
      assert Value(twice, fs[i]) != Value(once, fs[i]);
    }
  }

  lemma PatchByZero(m: seq<Byte>, f: Fixup)
    requires Fits(f, |m|)
    ensures Patch(m, f, 0) == m
  {
    PatchEffect(m, f, 0);
    assert Amount(f, 0) == 0;
    hide Patch, Value, Modulus, Covers;
    ModOnce(Value(m, f), Modulus(f));
    ValueIsBytes(Patch(m, f, 0), m, f);
  }

  lemma {:induction false} PatchAllByZero(m: seq<Byte>, fs: seq<Fixup>)
    requires AllFit(fs, |m|)
    ensures PatchAll(m, fs, 0) == m
    decreases |fs|
  {
    if fs != [] {
      PatchAllByZero(m, fs[..|fs| - 1]);
      PatchByZero(m, fs[|fs| - 1]);
    }
  }

  /** -d as a 32-bit word. */
  function Negated(d: nat): nat
    requires d < WORD
  {
    (WORD - d) % WORD
  }

  lemma NegatedCancels(d: nat)
    requires d < WORD
    ensures Negated(d) < WORD && Sum(d, Negated(d)) == 0
    ensures NoCarry(d, Negated(d)) <==> d % HALF == 0
  {
    if d > 0 {
      var h, l := d / HALF, d % HALF;
      assert Negated(d) == WORD - d;
      if l == 0 {
        assert WORD - d == (HALF - h) * HALF;
        assert (WORD - d) % HALF == 0;
      } else {
        assert WORD - d == (HALF - 1 - h) * HALF + (HALF - l);
        assert (WORD - d) % HALF == HALF - l;
      }
    }
  }

  /** Relocating by d and back is the identity exactly when d is a multiple of 64K or no high-half site is listed. */
  lemma PatchAllUndone(m: seq<Byte>, fs: seq<Fixup>, d: nat)
    requires AllFit(fs, |m|) && Disjoint(fs) && d < WORD
    ensures Negated(d) < WORD
    ensures PatchAll(PatchAll(m, fs, d), fs, Negated(d)) == m
            <==> d % HALF == 0 || !HasHighSite(fs)
  {
    NegatedCancels(d);
    hide PatchAll, Sum, NoCarry, Negated, Disjoint, HasHighSite;
    PatchAllTwice(m, fs, d, Negated(d));
    PatchAllByZero(m, fs);
  }

  // ----- the relocation stream -----

  const BLOCK_HEADER := 8

  /** The number of entries in the block at r. */
  function EntryCount(m: seq<Byte>, r: nat): nat
    requires r + BLOCK_HEADER <= |m| && Word32(m, r + 4) >= BLOCK_HEADER
  {
    (Word32(m, r + 4) - BLOCK_HEADER) / 2
  }

  /** Blocks of at least a header each, one behind the other, and a zero page address that ends the stream. */
  predicate WellFormed(m: seq<Byte>, r: nat)
    decreases |m| - r
  {
    && r + 4 <= |m|
    && (Word32(m, r) != 0 ==>
          && r + BLOCK_HEADER <= |m|
          && Word32(m, r + 4) >= BLOCK_HEADER
          && WellFormed(m, r + Word32(m, r + 4)))
  }

  /** Where the stream ends, behind the terminating zero. */
  function StreamEnd(m: seq<Byte>, r: nat): (e: nat)
    requires WellFormed(m, r)
    ensures r + 4 <= e <= |m|
    ensures Word32(m, r) != 0 ==> r + Word32(m, r + 4) + 4 <= e
    decreases |m| - r
  {
    if Word32(m, r) == 0 then r + 4 else StreamEnd(m, r + Word32(m, r + 4))
  }

  /** Entry i of the block at r: four bits of type and twelve bits of offset into the block's page. */
  function Entry(m: seq<Byte>, r: nat, i: nat): Fixup
    requires r + BLOCK_HEADER + 2 * i + 2 <= |m|
  {
    var e := Word16(m, r + BLOCK_HEADER + 2 * i);
    Fixup(e / 0x1000, Word32(m, r) + e % 0x1000)
  }

  function Entries(m: seq<Byte>, r: nat, n: nat): (fs: seq<Fixup>)
    requires r + BLOCK_HEADER + 2 * n <= |m|
    ensures |fs| == n
  {
    seq(n, i requires 0 <= i < n => Entry(m, r, i))
  }

  /** All relocations of the stream, in the order they are applied. */
  function Fixups(m: seq<Byte>, r: nat): seq<Fixup>
    requires WellFormed(m, r)
    decreases |m| - r
  {
    if Word32(m, r) == 0 then []
    else
      assert WellFormed(m, r + Word32(m, r + 4));
      Entries(m, r, EntryCount(m, r)) + Fixups(m, r + Word32(m, r + 4))
  }

  /** Every site lies in the image, and none in the stream itself. */
  predicate SitesOutside(fs: seq<Fixup>, size: nat, from: nat, to: nat) {
    AllFit(fs, size) && forall i :: 0 <= i < |fs| ==> fs[i].at + Width(fs[i]) <= from || to <= fs[i].at || Width(fs[i]) == 0
  }

  predicate Relocatable(m: seq<Byte>, r: nat) {
    WellFormed(m, r) && SitesOutside(Fixups(m, r), |m|, r, StreamEnd(m, r))
  }

  function Relocated(m: seq<Byte>, r: nat, delta: nat): seq<Byte>
    requires Relocatable(m, r)
  {
    PatchAll(m, Fixups(m, r), delta)
  }

  /** One block of the stream, or its end. */
  lemma StreamUnfold(m: seq<Byte>, r: nat)
    requires r + 4 <= |m|
    ensures Word32(m, r) == 0 ==> WellFormed(m, r) && StreamEnd(m, r) == r + 4 && Fixups(m, r) == []
    ensures Word32(m, r) != 0 && r + BLOCK_HEADER <= |m| && Word32(m, r + 4) >= BLOCK_HEADER ==>
              (WellFormed(m, r) <==> WellFormed(m, r + Word32(m, r + 4)))
    ensures Word32(m, r) != 0 && WellFormed(m, r) ==>
              && r + BLOCK_HEADER <= |m| && Word32(m, r + 4) >= BLOCK_HEADER && WellFormed(m, r + Word32(m, r + 4))
              && StreamEnd(m, r) == StreamEnd(m, r + Word32(m, r + 4))
              && r + BLOCK_HEADER + 2 * EntryCount(m, r) <= r + Word32(m, r + 4) < StreamEnd(m, r)
              && Fixups(m, r) == Entries(m, r, EntryCount(m, r)) + Fixups(m, r + Word32(m, r + 4))
  {
    hide Word32, Entries;
  }

  /** The stream means the same in any image that has the same bytes there. */
  lemma {:induction false} StreamStable(m: seq<Byte>, n: seq<Byte>, r: nat)
    requires WellFormed(m, r) && |n| == |m|
    requires forall x :: r <= x < StreamEnd(m, r) ==> n[x] == m[x]
    ensures WellFormed(n, r) && StreamEnd(n, r) == StreamEnd(m, r) && Fixups(n, r) == Fixups(m, r)
    decreases |m| - r
  {
    hide WellFormed, StreamEnd, Fixups, Word32, Entries;
    FirstWordFits(m, r);
    Word32Same(m, n, r);
    StreamUnfold(m, r);
    if Word32(m, r) != 0 {
      Word32Same(m, n, r + 4);
      StreamStable(m, n, r + Word32(m, r + 4));
      EntriesSame(m, n, r, EntryCount(m, r));
    }
    StreamUnfold(n, r);
  }

  lemma FirstWordFits(m: seq<Byte>, r: nat)
    requires WellFormed(m, r)
    ensures r + 4 <= |m|
  {
  }

  lemma Word32Same(m: seq<Byte>, n: seq<Byte>, at: nat)
    requires at + 4 <= |m| == |n| && forall x :: at <= x < at + 4 ==> n[x] == m[x]
    ensures Word32(n, at) == Word32(m, at)
  {
  }

  lemma EntriesSame(m: seq<Byte>, n: seq<Byte>, r: nat, count: nat)
    requires r + BLOCK_HEADER + 2 * count <= |m| == |n|
    requires forall x :: r <= x < r + BLOCK_HEADER + 2 * count ==> n[x] == m[x]
    ensures Entries(n, r, count) == Entries(m, r, count)
  {
    Word32Same(m, n, r);
    forall i | 0 <= i < count ensures Entry(n, r, i) == Entry(m, r, i) {
    }
  }

  /** Relocating leaves the stream readable, with the same relocations in it. */
  lemma RelocatedIsRelocatable(m: seq<Byte>, r: nat, delta: nat)
    requires Relocatable(m, r)
    ensures |Relocated(m, r, delta)| == |m|
    ensures Relocatable(Relocated(m, r, delta), r) && Fixups(Relocated(m, r, delta), r) == Fixups(m, r)
  {
    var fs := Fixups(m, r);
    forall x: nat | r <= x < StreamEnd(m, r) ensures PatchAll(m, fs, delta)[x] == m[x] {
      PatchAllElsewhere(m, fs, delta, x);
    }
    hide PatchAll, Fixups, WellFormed, StreamEnd;
    StreamStable(m, PatchAll(m, fs, delta), r);
  }

  /** What relocation does: delta, or its half, is added at every listed site. */
  lemma RelocatedSite(m: seq<Byte>, r: nat, delta: nat, i: nat)
    requires Relocatable(m, r) && Disjoint(Fixups(m, r)) && i < |Fixups(m, r)|
    ensures var f, n := Fixups(m, r)[i], Relocated(m, r, delta);
            |n| == |m| && Fits(f, |m|) && Value(n, f) == (Value(m, f) + Amount(f, delta)) % Modulus(f)
  {
    hide PatchAll, Fixups, Value, Amount, Modulus, WellFormed, StreamEnd, Disjoint;
    PatchAllValue(m, Fixups(m, r), delta, i);
  }

  /** And nothing else changes. */
  lemma RelocatedElsewhere(m: seq<Byte>, r: nat, delta: nat, x: nat)
    requires Relocatable(m, r) && x < |m|
    requires forall i :: 0 <= i < |Fixups(m, r)| ==> !Covers(Fixups(m, r)[i], x)
    ensures |Relocated(m, r, delta)| == |m| && Relocated(m, r, delta)[x] == m[x]
  {
    hide PatchAll, Fixups, Covers, WellFormed, StreamEnd;
    PatchAllElsewhere(m, Fixups(m, r), delta, x);
  }

  /** Moving an image twice is moving it once by the sum, exactly when no high-half site misses a carry. */
  lemma RelocateTwice(m: seq<Byte>, r: nat, d1: nat, d2: nat)
    requires Relocatable(m, r) && Disjoint(Fixups(m, r)) && d1 < WORD && d2 < WORD
    ensures Relocatable(Relocated(m, r, d1), r)
    ensures Relocated(Relocated(m, r, d1), r, d2) == Relocated(m, r, Sum(d1, d2))
            <==> NoCarry(d1, d2) || !HasHighSite(Fixups(m, r))
  {
    RelocatedIsRelocatable(m, r, d1);
    hide Fixups, WellFormed, StreamEnd, PatchAll, NoCarry, Sum;
    PatchAllTwice(m, Fixups(m, r), d1, d2);
  }

  /**
   * Moving an image and moving it back restores it exactly when the distance is a multiple of 64K or no site is a
   * high half.
   */
  lemma RelocateBack(m: seq<Byte>, r: nat, d: nat)
    requires Relocatable(m, r) && Disjoint(Fixups(m, r)) && d < WORD
    ensures Negated(d) < WORD && Relocatable(Relocated(m, r, d), r)
    ensures Relocated(Relocated(m, r, d), r, Negated(d)) == m <==> d % HALF == 0 || !HasHighSite(Fixups(m, r))
  {
    RelocatedIsRelocatable(m, r, d);
    hide Fixups, WellFormed, StreamEnd, PatchAll;
    PatchAllUndone(m, Fixups(m, r), d);
  }

  // ----- the code -----

  method ReadWord(mem: array<Byte>, at: nat) returns (w: nat)
    requires at + 4 <= mem.Length
    ensures w == Word32(mem[..], at)
  {
    w := mem[at] as int + 256 * mem[at + 1] as int + HALF * (mem[at + 2] as int + 256 * mem[at + 3] as int);
  }

  method WriteHalf(mem: array<Byte>, at: nat, w: nat)
    requires at + 2 <= mem.Length && w < HALF
    modifies mem
    ensures mem[..] == Put16(old(mem[..]), at, w)
  {
    mem[at], mem[at + 1] := w % 256, w / 256;
  }

  lemma PatchedBytes(m: seq<Byte>, f: Fixup, delta: nat)
    requires Fits(f, |m|)
    ensures f.kind == 3 ==> Word32(Patch(m, f, delta), f.at) == (Word32(m, f.at) + delta) % WORD
    ensures f.kind == 1 ==> Word16(Patch(m, f, delta), f.at) == (Word16(m, f.at) + delta / HALF) % HALF
    ensures f.kind == 2 ==> Word16(Patch(m, f, delta), f.at) == (Word16(m, f.at) + delta % HALF) % HALF
  {
    PatchEffect(m, f, delta);
    hide Patch, Word16, Word32;
  }

  /** The switch on the relocation type. Types other than these four are reported and skipped. */
  method PatchSite(mem: array<Byte>, f: Fixup, delta: nat)
    requires Fits(f, mem.Length) && delta < WORD
    modifies mem
    ensures mem[..] == Patch(old(mem[..]), f, delta)
    ensures f.kind == 3 ==> Word32(mem[..], f.at) == (old(Word32(mem[..], f.at)) + delta) % 0x1_0000_0000
    ensures f.kind == 1 ==> Word16(mem[..], f.at) == (old(Word16(mem[..], f.at)) + delta / 0x1_0000) % 0x1_0000
    ensures f.kind == 2 ==> Word16(mem[..], f.at) == (old(Word16(mem[..], f.at)) + delta % 0x1_0000) % 0x1_0000
    ensures forall x: nat :: x < mem.Length && !Covers(f, x) ==> mem[x] == old(mem[x])
  {
    ghost var m := mem[..];
    PatchEffect(m, f, delta);
    PatchedBytes(m, f, delta);
    if f.kind == REL_HIGH {
      var v := mem[f.at] as int + 256 * mem[f.at + 1] as int;
      WriteHalf(mem, f.at, (v + delta / HALF) % HALF);
    } else if f.kind == REL_LOW {
      var v := mem[f.at] as int + 256 * mem[f.at + 1] as int;
      WriteHalf(mem, f.at, (v + delta % HALF) % HALF);
    } else if f.kind == REL_HIGHLOW {
      var v := ReadWord(mem, f.at);
      var w := (v + delta) % WORD;
      WriteHalf(mem, f.at, w % HALF);
      WriteHalf(mem, f.at + 2, w / HALF);
    }
  }

  lemma PatchAllAppend(m: seq<Byte>, fs: seq<Fixup>, f: Fixup, delta: nat)
    requires AllFit(fs, |m|) && Fits(f, |m|)
    ensures AllFit(fs + [f], |m|) && PatchAll(m, fs + [f], delta) == Patch(PatchAll(m, fs, delta), f, delta)
  {
    assert (fs + [f])[..|fs|] == fs;
  }

  /** A prefix of the stream's relocations leaves the stream as it was. */
  lemma StreamUntouched(m: seq<Byte>, fs: seq<Fixup>, delta: nat, from: nat, to: nat)
    requires SitesOutside(fs, |m|, from, to) && to <= |m|
    ensures forall x: nat :: from <= x < to ==> PatchAll(m, fs, delta)[x] == m[x]
  {
    forall x: nat | from <= x < to ensures PatchAll(m, fs, delta)[x] == m[x] {
      PatchAllElsewhere(m, fs, delta, x);
    }
  }

  /**
   * What the block and entry loops rely on: the bytes patched so far are those of the relocations done, all off
   * the stream.
   */
  ghost predicate Progress(m: seq<Byte>, done: seq<Fixup>, delta: nat, now: seq<Byte>, from: nat, to: nat) {
    && to <= |m|
    && SitesOutside(done, |m|, from, to)
    && now == PatchAll(m, done, delta)
  }

  lemma ProgressReads(m: seq<Byte>, done: seq<Fixup>, delta: nat, now: seq<Byte>, from: nat, to: nat)
    requires Progress(m, done, delta, now, from, to)
    ensures |now| == |m|
    ensures forall at: nat :: from <= at && at + 4 <= to ==> Word32(now, at) == Word32(m, at)
    ensures forall at: nat :: from <= at && at + 2 <= to ==> Word16(now, at) == Word16(m, at)
  {
    StreamUntouched(m, done, delta, from, to);
  }

  lemma EntriesGrow(m: seq<Byte>, r: nat, n: nat)
    requires r + BLOCK_HEADER + 2 * (n + 1) <= |m|
    ensures Entries(m, r, n + 1) == Entries(m, r, n) + [Entry(m, r, n)]
  {
  }

  /** The inner loop: the entries of one block. */
  method PatchBlock(mem: array<Byte>, r: nat, page: nat, count: nat, delta: nat,
                    ghost m: seq<Byte>, ghost done: seq<Fixup>, ghost from: nat, ghost to: nat)
    requires Progress(m, done, delta, mem[..], from, to) && delta < WORD
    requires from <= r && r + BLOCK_HEADER + 2 * count <= to
    requires page == Word32(m, r)
    requires SitesOutside(Entries(m, r, count), |m|, from, to)
    modifies mem
    ensures Progress(m, done + Entries(m, r, count), delta, mem[..], from, to)
  {
    hide PatchAll, Patch, Word32, Word16;
    var i := 0;
    assert done + Entries(m, r, 0) == done;
    while i < count
      invariant i <= count && mem.Length == |m|
      invariant Progress(m, done + Entries(m, r, i), delta, mem[..], from, to)
    {
      ProgressReads(m, done + Entries(m, r, i), delta, mem[..], from, to);
      var e := ReadHalf(mem, r + BLOCK_HEADER + 2 * i);
      var f := Fixup(e / 0x1000, page + e % 0x1000);
      assert f == Entry(m, r, i) == Entries(m, r, count)[i];
      PatchSite(mem, f, delta);
      PatchAllAppend(m, done + Entries(m, r, i), f, delta);
      EntriesGrow(m, r, i);
      assert done + Entries(m, r, i + 1) == done + Entries(m, r, i) + [f];
      i := i + 1;
    }
  }

  method ReadHalf(mem: array<Byte>, at: nat) returns (w: nat)
    requires at + 2 <= mem.Length
    ensures w == Word16(mem[..], at)
  {
    w := mem[at] as int + 256 * mem[at + 1] as int;
  }

  /** The outer loop has done the relocations of the blocks before r and left the stream as it was. */
  ghost predicate BlocksDone(m: seq<Byte>, reloc: nat, r: nat, done: seq<Fixup>, delta: nat, now: seq<Byte>) {
    && Relocatable(m, reloc) && WellFormed(m, r)
    && reloc <= r && StreamEnd(m, r) == StreamEnd(m, reloc)
    && Fixups(m, reloc) == done + Fixups(m, r)
    && Progress(m, done, delta, now, reloc, StreamEnd(m, reloc))
  }

  lemma NextBlock(m: seq<Byte>, reloc: nat, r: nat, done: seq<Fixup>, delta: nat, now: seq<Byte>)
    requires BlocksDone(m, reloc, r, done, delta, now)
    ensures |now| == |m| && r + 4 <= |m| && Word32(now, r) == Word32(m, r)
    ensures Word32(m, r) != 0 ==>
              && r + BLOCK_HEADER <= |m| && Word32(now, r + 4) == Word32(m, r + 4) >= BLOCK_HEADER
              && r + BLOCK_HEADER + 2 * EntryCount(m, r) <= StreamEnd(m, reloc)
              && SitesOutside(Entries(m, r, EntryCount(m, r)), |m|, reloc, StreamEnd(m, reloc))
  {
    var to := StreamEnd(m, reloc);
    ProgressReads(m, done, delta, now, reloc, to);
    if Word32(m, r) != 0 {
      BlockOutside(m, r, done, reloc, to);
    }
  }

  lemma BlockDone(m: seq<Byte>, reloc: nat, r: nat, done: seq<Fixup>, delta: nat, before: seq<Byte>, now: seq<Byte>)
    requires BlocksDone(m, reloc, r, done, delta, before) && Word32(m, r) != 0
    requires Progress(m, done + Entries(m, r, EntryCount(m, r)), delta, now, reloc, StreamEnd(m, reloc))
    ensures BlocksDone(m, reloc, r + Word32(m, r + 4), done + Entries(m, r, EntryCount(m, r)), delta, now)
  {
    hide Progress, Relocatable, Entries;
    var es, rest := Entries(m, r, EntryCount(m, r)), Fixups(m, r + Word32(m, r + 4));
    assert done + (es + rest) == (done + es) + rest;
  }

  lemma AllBlocksDone(m: seq<Byte>, reloc: nat, r: nat, done: seq<Fixup>, delta: nat, now: seq<Byte>)
    requires BlocksDone(m, reloc, r, done, delta, now) && Word32(m, r) == 0
    ensures Relocatable(m, reloc) && now == Relocated(m, reloc, delta)
  {
    assert done + [] == done;
  }

  /** The body of the outer loop: one block, up to the next. */
  method RelocateBlock(mem: array<Byte>, r: nat, address: nat, delta: nat,
                       ghost m: seq<Byte>, ghost reloc: nat, ghost done: seq<Fixup>)
    returns (next: nat, ghost done': seq<Fixup>)
    requires BlocksDone(m, reloc, r, done, delta, mem[..]) && delta < WORD
    requires r + 4 <= |m| && address == Word32(m, r) != 0
    modifies mem
    ensures BlocksDone(m, reloc, next, done', delta, mem[..]) && r < next
  {
    hide BlocksDone, Relocatable, Relocated, Progress, SitesOutside, Entries, Word32, StreamEnd, WellFormed, Fixups;
    NextBlock(m, reloc, r, done, delta, mem[..]);
    ghost var before := mem[..];
    var size := ReadWord(mem, r + 4);
    var count := (size - BLOCK_HEADER) / 2;
    BlockStarts(m, reloc, r, done, delta, before);
    PatchBlock(mem, r, address, count, delta, m, done, reloc, StreamEnd(m, reloc));
    BlockDone(m, reloc, r, done, delta, before, mem[..]);
    done' := done + Entries(m, r, count);
    next := r + size;
  }

  /** do_relocations, for a stream at reloc in the image mem loaded at loadAddr. */
  method DoRelocations(mem: array<Byte>, loadAddr: nat, imageBase: nat, reloc: nat)
    requires (loadAddr - imageBase) % WORD != 0 ==> Relocatable(mem[..], reloc)
    modifies mem
    ensures mem[..] == if (loadAddr - imageBase) % WORD == 0 then old(mem[..])
                       else Relocated(old(mem[..]), reloc, (loadAddr - imageBase) % WORD)
  {
    ghost var m := mem[..];
    var delta := (loadAddr - imageBase) % WORD;
    if delta == 0 {
      return;
    }
    var r := reloc;
    ghost var done: seq<Fixup> := [];
    assert BlocksDone(m, reloc, r, done, delta, mem[..]);
    hide BlocksDone, Relocatable, Relocated, Word32;
    NextBlock(m, reloc, r, done, delta, mem[..]);
    var address := ReadWord(mem, r);
    while address != 0
      invariant BlocksDone(m, reloc, r, done, delta, mem[..])
      invariant mem.Length == |m| && r + 4 <= |m| && address == Word32(m, r)
      decreases |m| - r
    {
      r, done := RelocateBlock(mem, r, address, delta, m, reloc, done);
      NextBlock(m, reloc, r, done, delta, mem[..]);
      address := ReadWord(mem, r);
    }
    AllBlocksDone(m, reloc, r, done, delta, mem[..]);
  }

  lemma BlockStarts(m: seq<Byte>, reloc: nat, r: nat, done: seq<Fixup>, delta: nat, now: seq<Byte>)
    requires BlocksDone(m, reloc, r, done, delta, now)
    ensures reloc <= r && WellFormed(m, reloc) && Progress(m, done, delta, now, reloc, StreamEnd(m, reloc))
  {
  }

  /** The next block's entries are among the relocations, which all stay off the stream. */
  lemma BlockOutside(m: seq<Byte>, r: nat, done: seq<Fixup>, from: nat, to: nat)
    requires WellFormed(m, r) && Word32(m, r) != 0 && StreamEnd(m, r) == to
    requires SitesOutside(done + Fixups(m, r), |m|, from, to)
    ensures WellFormed(m, r + Word32(m, r + 4)) && StreamEnd(m, r + Word32(m, r + 4)) == to
    ensures r + BLOCK_HEADER + 2 * EntryCount(m, r) + 4 <= to
    ensures SitesOutside(Entries(m, r, EntryCount(m, r)), |m|, from, to)
    ensures Fixups(m, r) == Entries(m, r, EntryCount(m, r)) + Fixups(m, r + Word32(m, r + 4))
  {
    var es := Entries(m, r, EntryCount(m, r));
    var fs := done + Fixups(m, r);
    forall i | 0 <= i < |es| ensures fs[|done| + i] == es[i] {
    }
  }
}
