// Looking up an exported function by name or by ordinal:
// the search part of PE_FindExportedFunction in loader/pe_image.c.
module Exports {
  import opened MachineWords

  const MODULE_NAME_SIZE := 256

  /** The export directory with its three tables, and the address range of the export section. */
  datatype Directory = Directory(
    base: Word,
    functions: seq<Word>,
    names: seq<string>,
    ordinals: seq<Half>,
    start: nat,
    end: nat)

  datatype Result =
    | NotFound
    | Address(rva: Word)
    | Forward(modname: string, funcname: string)

  // ----- strcmp -----

  function Compare(a: string, b: string): int {
    if a == "" && b == "" then 0
    else if a == "" then -1
    else if b == "" then 1
    else if a[0] < b[0] then -1
    else if a[0] > b[0] then 1
    else Compare(a[1..], b[1..])
  }

  lemma {:induction false} CompareZero(a: string, b: string)
    ensures Compare(a, b) == 0 <==> a == b
  {
    if a != "" && b != "" {
      CompareZero(a[1..], b[1..]);
      assert a == [a[0]] + a[1..] && b == [b[0]] + b[1..];
    }
  }

  lemma {:induction false} CompareChain(a: string, b: string, c: string)
    ensures Compare(a, b) <= 0 && Compare(a, c) > 0 ==> Compare(b, c) > 0
    ensures Compare(a, b) <= 0 && Compare(b, c) < 0 ==> Compare(a, c) < 0
  {
    if a != "" && b != "" && c != "" {
      CompareChain(a[1..], b[1..], c[1..]);
    }
  }

  /** a and b agree before position k; there a ends first, or has the smaller character. */
  predicate FirstSmaller(a: string, b: string, k: nat) {
    k <= |a| && k < |b| && a[..k] == b[..k] && (k < |a| ==> a[k] < b[k])
  }

  /** The comparison is dictionary order. */
  lemma {:induction false} CompareIsDictionary(a: string, b: string)
    ensures Compare(a, b) < 0 <==> exists k: nat :: FirstSmaller(a, b, k)
    ensures Compare(a, b) > 0 <==> exists k: nat :: FirstSmaller(b, a, k)
  {
    if a == "" || b == "" || a[0] != b[0] {
      assert Compare(a, b) < 0 ==> FirstSmaller(a, b, 0);
      assert Compare(a, b) > 0 ==> FirstSmaller(b, a, 0);
      forall k: nat | FirstSmaller(a, b, k) || FirstSmaller(b, a, k) ensures k == 0 {
        SamePrefix(a, b, k);
      }
    } else {
      CompareIsDictionary(a[1..], b[1..]);
      SomewhereLater(a, b);
      SomewhereLater(b, a);
    }
  }

  lemma SamePrefix(a: string, b: string, k: nat)
    requires k <= |a| && k <= |b| && a[..k] == b[..k]
    ensures k > 0 ==> a[0] == b[0]
  {
    if k > 0 {
      assert a[..k][0] == a[0] && b[..k][0] == b[0];
    }
  }

  lemma OneLater(a: string, b: string, k: nat)
    requires a != "" && b != "" && a[0] == b[0]
    ensures !FirstSmaller(a, b, 0) && (FirstSmaller(a, b, k + 1) <==> FirstSmaller(a[1..], b[1..], k))
  {
    if k < |a| && k + 1 < |b| {
      assert a[..k + 1] == [a[0]] + a[1..][..k] && b[..k + 1] == [b[0]] + b[1..][..k];
    }
  }

  lemma SomewhereLater(a: string, b: string)
    requires a != "" && b != "" && a[0] == b[0]
    ensures (exists k: nat :: FirstSmaller(a, b, k)) <==> exists k: nat :: FirstSmaller(a[1..], b[1..], k)
  {
    hide FirstSmaller;
    if k: nat :| FirstSmaller(a, b, k) {
      OneLater(a, b, if k == 0 then 0 else k - 1);
      assert FirstSmaller(a[1..], b[1..], k - 1);
    } else if k: nat :| FirstSmaller(a[1..], b[1..], k) {
      OneLater(a, b, k);
    }
  }

  predicate Sorted(names: seq<string>) {
    forall i, j :: 0 <= i <= j < |names| ==> Compare(names[i], names[j]) <= 0
  }

  predicate StrictlySorted(names: seq<string>) {
    forall i, j :: 0 <= i < j < |names| ==> Compare(names[i], names[j]) < 0
  }

  lemma StrictlySortedIsUnique(names: seq<string>, i: nat, j: nat)
    requires StrictlySorted(names) && i < |names| && j < |names| && names[i] == names[j]
    ensures i == j && Sorted(names)
  {
    CompareZero(names[i], names[j]);
    forall k, l | 0 <= k <= l < |names| ensures Compare(names[k], names[l]) <= 0 {
      CompareZero(names[k], names[l]);
    }
  }

  // ----- the search by name -----

  /** The bisection; on any table a hit is a hit, and on a sorted one a miss is a miss. */
  method Bisect(names: seq<string>, name: string) returns (found: bool, pos: nat)
    ensures found ==> pos < |names| && names[pos] == name
    ensures Sorted(names) ==> (found <==> name in names)
  {
    var min: int, max: int := 0, |names| - 1;
    while min <= max
      invariant 0 <= min <= max + 1 <= |names|
      invariant Sorted(names) ==> forall k :: 0 <= k < |names| && names[k] == name ==> min <= k <= max
      decreases max - min
    {
      pos := (min + max) / 2;
      var res := Compare(names[pos], name);
      CompareZero(names[pos], name);
      if res == 0 {
        return true, pos;
      }
      if Sorted(names) {
        MissNarrows(names, name, pos);
      }
      if res > 0 {
        max := pos - 1;
      } else {
        min := pos + 1;
      }
    }
    found, pos := false, 0;
  }

  lemma MissNarrows(names: seq<string>, name: string, pos: nat)
    requires Sorted(names) && pos < |names|
    ensures Compare(names[pos], name) > 0 ==> forall k :: pos <= k < |names| ==> names[k] != name
    ensures Compare(names[pos], name) < 0 ==> forall k :: 0 <= k <= pos ==> names[k] != name
  {
    forall k | 0 <= k < |names| && names[k] == name
      ensures (k >= pos ==> Compare(names[pos], name) <= 0) && (k <= pos ==> Compare(names[pos], name) >= 0)
    {
      CompareZero(names[k], name);
      if k >= pos {
        CompareChain(names[pos], names[k], name);
      } else {
        CompareChain(names[k], names[pos], name);
      }
    }
  }

  /**
   * Bisection first, then a walk through the whole table: found exactly when the name occurs, in any table.
   * warned tells whether the walk found it, which a sorted table never needs.
   */
  method FindName(names: seq<string>, name: string) returns (index: int, warned: bool)
    ensures index == -1 || 0 <= index < |names|
    ensures index >= 0 <==> name in names
    ensures index >= 0 ==> names[index] == name
    ensures Sorted(names) ==> !warned
    ensures StrictlySorted(names) ==> forall k :: 0 <= k < |names| && names[k] == name ==> k == index
  {
    warned := false;
    var found, pos := Bisect(names, name);
    if StrictlySorted(names) {
      forall k | 0 <= k < |names| && names[k] == name ensures found ==> k == pos {
        StrictlySortedIsUnique(names, k, if found then pos else k);
      }
      StrictlyIsSorted(names);
    }
    if found {
      return pos, false;
    }
    var i := 0;
    while i < |names|
      invariant 0 <= i <= |names|
      invariant forall k :: 0 <= k < i ==> names[k] != name
    {
      CompareZero(names[i], name);
      if Compare(names[i], name) == 0 {
        return i, true;
      }
      i := i + 1;
    }
    index := -1;
  }

  lemma StrictlyIsSorted(names: seq<string>)
    requires StrictlySorted(names)
    ensures Sorted(names)
  {
    forall k | 0 <= k < |names| ensures Compare(names[k], names[k]) == 0 {
      CompareZero(names[k], names[k]);
    }
  }

  // ----- from ordinal to result -----

  /** strchr(s, '.'): the index of the first dot, or the length if there is none. */
  function FirstDot(s: string): (i: nat)
    ensures i <= |s|
    ensures forall k :: 0 <= k < i ==> s[k] != '.'
    ensures i < |s| ==> s[i] == '.'
  {
    if s == "" || s[0] == '.' then 0 else 1 + FirstDot(s[1..])
  }

  /** A forwarder string "module.function", refused if the module does not fit the buffer of 256. */
  function SplitForward(s: string): (r: Result)
    ensures r.Forward? ==> r.modname + "." + r.funcname == s && '.' !in r.modname && |r.modname| < MODULE_NAME_SIZE
    ensures !r.Forward? ==> r == NotFound && ('.' !in s || forall k :: 0 <= k < MODULE_NAME_SIZE && k < |s| ==> s[k] != '.')
  {
    var end := FirstDot(s);
    if end == |s| || end >= MODULE_NAME_SIZE then NotFound else Forward(s[..end], s[end + 1..])
  }

  lemma SplitInverse(modname: string, funcname: string)
    requires '.' !in modname
    ensures SplitForward(modname + "." + funcname) ==
            if |modname| < MODULE_NAME_SIZE then Forward(modname, funcname) else NotFound
  {
    var s := modname + "." + funcname;
    assert s[|modname|] == '.';
    forall k | 0 <= k < |modname| ensures s[k] != '.' {
      assert s[k] == modname[k];
    }
    assert FirstDot(s) == |modname|;
    assert s[..|modname|] == modname && s[|modname| + 1..] == funcname;
  }

  /** The slot of the function table that an ordinal selects. text holds the strings of the image, by address. */
  function Slot(dir: Directory, ordinal: nat, text: map<Word, string>): (r: Result)
    requires TextPresent(dir, text)
  {
    if ordinal >= |dir.functions| then NotFound
    else
      var addr := dir.functions[ordinal];
      if addr == 0 then NotFound
      else if addr < dir.start || addr >= dir.end then Address(addr)
      else SplitForward(text[addr])
  }

  /** Every entry that points into the export section points at a string. */
  predicate TextPresent(dir: Directory, text: map<Word, string>) {
    forall i :: 0 <= i < |dir.functions| && dir.start <= dir.functions[i] < dir.end && dir.functions[i] != 0 ==>
      dir.functions[i] in text
  }

  predicate Readable(dir: Directory, text: map<Word, string>) {
    |dir.ordinals| == |dir.names| && |dir.functions| < WORD && TextPresent(dir, text)
  }

  /**
   * What an entry of the function table stands for, by its number and the image's bytes: an address off the export
   * section is the function's own; one inside is a forwarder, split at its first dot, which must come in the first 256
   * characters; a zero entry, a number past the table and any other text stand for nothing.
   */
  ghost predicate StandsFor(dir: Directory, ordinal: nat, text: map<Word, string>, r: Result)
    requires TextPresent(dir, text)
  {
    if ordinal >= |dir.functions| || dir.functions[ordinal] == 0 then r == NotFound
    else if dir.functions[ordinal] < dir.start || dir.functions[ordinal] >= dir.end then
      r == Address(dir.functions[ordinal])
    else
      var forwarder := text[dir.functions[ordinal]];
      && !r.Address?
      && (r.Forward? <==> exists k :: 0 <= k < |forwarder| && k < 256 && forwarder[k] == '.')
      && (r.Forward? ==> r.modname + "." + r.funcname == forwarder && '.' !in r.modname)
  }

  lemma SlotStandsFor(dir: Directory, ordinal: nat, text: map<Word, string>)
    requires TextPresent(dir, text)
    ensures StandsFor(dir, ordinal, text, Slot(dir, ordinal, text))
  {
    if ordinal < |dir.functions| && dir.functions[ordinal] != 0 && dir.start <= dir.functions[ordinal] < dir.end {
      var forwarder := text[dir.functions[ordinal]];
      var r := SplitForward(forwarder);
      if r.Forward? {
        assert forwarder[|r.modname|] == '.';
      }
    }
  }

  /** What the caller passes: a string, or a number below 64K in the pointer itself. */
  datatype Query = ByName(name: string) | ByOrdinal(number: Half)

  /** The slot a number selects: the subtraction of Base is 32-bit and unsigned. */
  function SlotNumber(number: Half, base: Word): (n: Word) {
    (number - base) % WORD
  }

  /** PE_FindExportedFunction up to the point where a forwarder is looked up in its own module. */
  method FindExportedFunction(dir: Directory, query: Query, text: map<Word, string>) returns (r: Result)
    requires Readable(dir, text)
    ensures query.ByName? && query.name !in dir.names ==> r == NotFound
    ensures query.ByName? && query.name in dir.names ==>
              exists i :: 0 <= i < |dir.names| && dir.names[i] == query.name && r == Slot(dir, dir.ordinals[i], text)
                          && StandsFor(dir, dir.ordinals[i], text, r)
    ensures query.ByOrdinal? ==>
              && r == Slot(dir, SlotNumber(query.number, dir.base), text)
              && StandsFor(dir, SlotNumber(query.number, dir.base), text, r)
  {
    var ordinal: nat;
    match query {
      case ByName(name) =>
        var index, warned := FindName(dir.names, name);
        if index == -1 {
          return NotFound;
        }
        ordinal := dir.ordinals[index];
      case ByOrdinal(number) =>
        ordinal := (number - dir.base) % WORD;
    }
    SlotStandsFor(dir, ordinal, text);
    if ordinal >= |dir.functions| {
      return NotFound;
    }
    var addr := dir.functions[ordinal];
    if addr == 0 {
      return NotFound;
    }
    if addr < dir.start || addr >= dir.end {
      return Address(addr);
    }
    var forwarder := text[addr];
    var end := FirstDot(forwarder);
    if end == |forwarder| || end >= MODULE_NAME_SIZE {
      return NotFound;
    }
    return Forward(forwarder[..end], forwarder[end + 1..]);
  }

  /** A number from Base on selects its own slot; a number past the table is rejected. */
  lemma OrdinalFromBase(dir: Directory, number: Half, text: map<Word, string>)
    requires Readable(dir, text) && dir.base <= number
    ensures SlotNumber(number, dir.base) == number - dir.base
    ensures number - dir.base >= |dir.functions| ==> Slot(dir, SlotNumber(number, dir.base), text) == NotFound
  {
  }

  /**
   * Every number below Base misses the table exactly when the table is not so long that the subtraction wraps into it.
   */
  lemma OrdinalBelowBase(dir: Directory, number: Half, text: map<Word, string>)
    requires Readable(dir, text) && number < dir.base
    ensures SlotNumber(number, dir.base) >= |dir.functions| <==> dir.base - number + |dir.functions| <= WORD
  {
    assert (number - dir.base + WORD) % WORD == (number - dir.base) % WORD;
  }

  /** A Base near 2^32 with a table of two: ordinal 0 is below Base and yet finds a function. */
  lemma OrdinalBelowBaseExample()
    ensures var dir := Directory(0xFFFF_FFFF, [0x1000, 0x2000], [], [], 0, 0);
            Readable(dir, map[]) && Slot(dir, SlotNumber(0, dir.base), map[]) == Address(0x2000)
  {
    var dir := Directory(0xFFFF_FFFF, [0x1000, 0x2000], [], [], 0, 0);
    assert SlotNumber(0, dir.base) == 1;
  }
}
