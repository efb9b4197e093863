// What relocation does to an image, read from its bytes alone: which entries the
// stream lists, and what each of them adds to the bytes it names.
module RelocationBytes {
  import opened MachineWords
  import opened Relocation

  function Short(m: seq<Byte>, at: nat): nat
    requires at + 2 <= |m|
  {
    m[at] as int + m[at + 1] as int * 0x100
  }

  function Long(m: seq<Byte>, at: nat): nat
    requires at + 4 <= |m|
  {
    m[at] as int + m[at + 1] as int * 0x100 + m[at + 2] as int * 0x1_0000 + m[at + 3] as int * 0x100_0000
  }

  /** A block starts at b: r itself, or one found by skipping whole blocks from r, before the zero that ends them. */
  predicate Block(m: seq<Byte>, r: nat, b: nat)
    decreases |m| - r
  {
    && r + 8 <= |m| && Long(m, r) != 0 && Long(m, r + 4) >= 8
    && (b == r || Block(m, r + Long(m, r + 4), b))
  }

  lemma {:induction false} BlockFits(m: seq<Byte>, r: nat, b: nat)
    requires Block(m, r, b)
    ensures r <= b && b + 8 <= |m| && Long(m, b + 4) >= 8
    decreases |m| - r
  {
    if b != r {
      BlockFits(m, r + Long(m, r + 4), b);
    }
  }

  /** The block at b has an entry i, which ends inside the block. */
  predicate Listed(m: seq<Byte>, r: nat, b: nat, i: nat) {
    Block(m, r, b) && b + 10 + 2 * i <= |m| && 10 + 2 * i <= Long(m, b + 4)
  }

  /** The high four bits of an entry. */
  function Type(m: seq<Byte>, b: nat, i: nat): nat
    requires b + 10 + 2 * i <= |m|
  {
    Short(m, b + 8 + 2 * i) / 0x1000
  }

  /** The page of the block and the low twelve bits of the entry. */
  function Site(m: seq<Byte>, b: nat, i: nat): nat
    requires b + 10 + 2 * i <= |m|
  {
    Long(m, b) + Short(m, b + 8 + 2 * i) % 0x1000
  }

  /** The entry writes byte x: four bytes for type 3, two for types 1 and 2. */
  predicate Writes(m: seq<Byte>, b: nat, i: nat, x: nat)
    requires b + 10 + 2 * i <= |m|
  {
    var kind, at := Type(m, b, i), Site(m, b, i);
    (kind == 3 && at <= x < at + 4) || ((kind == 1 || kind == 2) && at <= x < at + 2)
  }

  /** No byte is written by two entries. */
  ghost predicate SitesApart(m: seq<Byte>, r: nat) {
    forall b: nat, i: nat, c: nat, j: nat, x: nat ::
      Listed(m, r, b, i) && Listed(m, r, c, j) && Writes(m, b, i, x) && Writes(m, c, j, x) ==> b == c && i == j
  }

  // ----- the entries are the relocations of the stream -----

  lemma SameWords(m: seq<Byte>, at: nat)
    ensures at + 2 <= |m| ==> Short(m, at) == Word16(m, at)
    ensures at + 4 <= |m| ==> Long(m, at) == Word32(m, at)
  {
  }

  lemma StreamBlock(m: seq<Byte>, r: nat)
    requires WellFormed(m, r)
    ensures r + 4 <= |m|
    ensures Long(m, r) == 0 ==> Fixups(m, r) == []
    ensures Long(m, r) != 0 ==>
              && r + 8 <= |m| && Long(m, r + 4) >= 8 && WellFormed(m, r + Long(m, r + 4))
              && r + Long(m, r + 4) <= |m|
              && EntryCount(m, r) == (Long(m, r + 4) - 8) / 2
              && Fixups(m, r) == Entries(m, r, EntryCount(m, r)) + Fixups(m, r + Long(m, r + 4))
  {
    FirstWordFits(m, r);
    SameWords(m, r);
    SameWords(m, r + 4);
    StreamUnfold(m, r);
    hide WellFormed, Fixups, Word32, Word16, Long, Short, Entries;
  }

  lemma EntryRead(m: seq<Byte>, r: nat, i: nat)
    requires r + 10 + 2 * i <= |m|
    ensures Entry(m, r, i) == Fixup(Type(m, r, i), Site(m, r, i))
  {
    SameWords(m, r);
    SameWords(m, r + 8 + 2 * i);
    hide Long, Short, Word16, Word32;
  }

  /** Every listed entry is one of the stream's relocations. */
  lemma {:induction false} ListedIsFixup(m: seq<Byte>, r: nat, b: nat, i: nat) returns (k: nat)
    requires WellFormed(m, r) && Listed(m, r, b, i)
    ensures k < |Fixups(m, r)| && Fixups(m, r)[k] == Fixup(Type(m, b, i), Site(m, b, i))
    decreases |m| - r
  {
    StreamBlock(m, r);
    var n := EntryCount(m, r);
    if b == r {
      EntryRead(m, r, i);
      hide Fixups, WellFormed, Long, Type, Site;
      k := i;
      assert Entries(m, r, n)[i] == Entry(m, r, i);
    } else {
      var next := r + Long(m, r + 4);
      hide Fixups, WellFormed, Long, Type, Site;
      var rest := ListedIsFixup(m, next, b, i);
      k := n + rest;
    }
  }

  /** Every relocation of the stream is a listed entry, and different ones are different entries. */
  lemma {:induction false} FixupIsListed(m: seq<Byte>, r: nat, k: nat) returns (b: nat, i: nat)
    requires WellFormed(m, r) && k < |Fixups(m, r)|
    ensures Listed(m, r, b, i) && Fixups(m, r)[k] == Fixup(Type(m, b, i), Site(m, b, i))
    decreases |m| - r
  {
    StreamBlock(m, r);
    var n := EntryCount(m, r);
    hide Fixups, WellFormed, Long, Type, Site;
    if k < n {
      b, i := r, k;
      EntryRead(m, r, i);
      assert Entries(m, r, n)[k] == Entry(m, r, k);
    } else {
      b, i := FixupIsListed(m, r + Long(m, r + 4), k - n);
    }
  }

  lemma {:induction false} TwoListed(m: seq<Byte>, r: nat, j: nat, k: nat)
    returns (b: nat, i: nat, c: nat, l: nat)
    requires WellFormed(m, r) && j < k < |Fixups(m, r)|
    ensures Listed(m, r, b, i) && Fixups(m, r)[j] == Fixup(Type(m, b, i), Site(m, b, i))
    ensures Listed(m, r, c, l) && Fixups(m, r)[k] == Fixup(Type(m, c, l), Site(m, c, l))
    ensures b != c || i != l
    decreases |m| - r
  {
    StreamBlock(m, r);
    var n := EntryCount(m, r);
    var next := r + Long(m, r + 4);
    if j >= n {
      hide Fixups, WellFormed, Long, Type, Site;
      b, i, c, l := TwoListed(m, next, j - n, k - n);
    } else {
      hide Fixups, WellFormed, Long, Type, Site;
      b, i := r, j;
      EntryRead(m, r, j);
      assert Entries(m, r, n)[j] == Entry(m, r, j);
      if k < n {
        c, l := r, k;
        EntryRead(m, r, k);
        assert Entries(m, r, n)[k] == Entry(m, r, k);
      } else {
        c, l := FixupIsListed(m, next, k - n);
        BlockFits(m, next, c);
      }
    }
  }

  lemma CommonByte(f: Fixup, g: Fixup) returns (x: nat)
    requires !Apart(f, g)
    ensures Covers(f, x) && Covers(g, x)
  {
    x := if f.at < g.at then g.at else f.at;
  }

  lemma CoversIsWrites(m: seq<Byte>, b: nat, i: nat, x: nat)
    requires b + 10 + 2 * i <= |m|
    ensures Covers(Fixup(Type(m, b, i), Site(m, b, i)), x) <==> Writes(m, b, i, x)
  {
    hide Type, Site;
  }

  lemma ApartFixups(m: seq<Byte>, r: nat)
    requires WellFormed(m, r) && SitesApart(m, r)
    ensures Disjoint(Fixups(m, r))
  {
    var fs := Fixups(m, r);
    forall j, k | 0 <= j < k < |fs| ensures Apart(fs[j], fs[k]) {
      var b, i, c, l := TwoListed(m, r, j, k);
      if !Apart(fs[j], fs[k]) {
        var x := CommonByte(fs[j], fs[k]);
        hide Fixups, WellFormed, Block, Type, Site, Writes, Covers;
        CoversIsWrites(m, b, i, x);
        CoversIsWrites(m, c, l, x);
      }
    }
  }

  // ----- what each entry does -----

  /** At a site of the given type n has m's value plus its share of delta: all of it, the high half, or the low half. */
  predicate Moved(m: seq<Byte>, n: seq<Byte>, kind: nat, at: nat, delta: nat) {
    && |n| == |m|
    && (kind == 3 ==> at + 4 <= |m| && Long(n, at) == (Long(m, at) + delta) % 0x1_0000_0000)
    && (kind == 1 ==> at + 2 <= |m| && Short(n, at) == (Short(m, at) + delta / 0x1_0000) % 0x1_0000)
    && (kind == 2 ==> at + 2 <= |m| && Short(n, at) == (Short(m, at) + delta % 0x1_0000) % 0x1_0000)
  }

  lemma ValueMoved(m: seq<Byte>, n: seq<Byte>, f: Fixup, delta: nat)
    requires |n| == |m| && Fits(f, |m|) && Value(n, f) == (Value(m, f) + Amount(f, delta)) % Modulus(f)
    ensures Moved(m, n, f.kind, f.at, delta)
  {
    SameWords(m, f.at);
    SameWords(n, f.at);
    hide Long, Short, Word16, Word32;
  }

  /**
   * Relocation on the bytes: when no byte is written by two entries, every entry of the stream adds its share of delta
   * to the little-endian value at its site.
   */
  lemma EntryMoved(m: seq<Byte>, r: nat, delta: nat, b: nat, i: nat)
    requires Relocatable(m, r) && SitesApart(m, r) && Listed(m, r, b, i)
    ensures Moved(m, Relocated(m, r, delta), Type(m, b, i), Site(m, b, i), delta)
  {
    ApartFixups(m, r);
    var k := ListedIsFixup(m, r, b, i);
    hide Fixups, WellFormed, Disjoint, Listed, Type, Site, Moved, Value, Amount, Modulus, PatchAll;
    RelocatedSite(m, r, delta, k);
    ValueMoved(m, Relocated(m, r, delta), Fixups(m, r)[k], delta);
  }

  /** A byte that no entry writes keeps its value, whether or not entries overlap elsewhere. */
  lemma OtherBytesKept(m: seq<Byte>, r: nat, delta: nat, x: nat)
    requires Relocatable(m, r) && x < |m|
    requires forall b: nat, i: nat :: Listed(m, r, b, i) ==> !Writes(m, b, i, x)
    ensures |Relocated(m, r, delta)| == |m| && Relocated(m, r, delta)[x] == m[x]
  {
    forall k | 0 <= k < |Fixups(m, r)| ensures !Covers(Fixups(m, r)[k], x) {
      var b, i := FixupIsListed(m, r, k);
      hide Fixups, WellFormed, Listed, Type, Site;
    }
    RelocatedElsewhere(m, r, delta, x);
  }
}
